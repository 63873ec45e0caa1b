/** Runs of polls that lose or repeat an event, as the code does on them: a push between
    the two calls of a poll that loses a new ref's head or a fork event, a branch at
    history so old that the dedup log has forgotten it, and more such pushes in one poll
    than that log holds. */
module PollingLosses {
  import opened Observer
  import opened ObserverRuns
  import opened Polling
  import opened PollingRuns
  import opened Sequences
  import Decimal

  const EMPTY_ROOM := Sight([], map[], map[])

  /** A ref is created with `h`, and `h2` is pushed after it was listed and before its page
      is read; the next poll finds both. */
  function PushedInBetween(name: string, h: CommitMeta, h2: CommitMeta): (run: seq<Sight>) {
    [EMPTY_ROOM,
     Sight([RefEntry(name, h.hash)], map[name := [h]], map[name := [h, h2]]),
     Sight([RefEntry(name, h2.hash)], map[name := [h, h2]], map[name := [h, h2]])]
  }

  lemma TwoCommits(name: string, h: CommitMeta, h2: CommitMeta, listed: seq<CommitMeta>)
    requires h.hash != h2.hash && (listed == [h] || listed == [h, h2])
    ensures SeesWell(Sight([RefEntry(name, listed[|listed| - 1].hash)], map[name := listed], map[name := [h, h2]]))
  {
    var s := Sight([RefEntry(name, listed[|listed| - 1].hash)], map[name := listed], map[name := [h, h2]]);
    assert s.refs[0].name == name;
    assert Lists(s.refs, s.listed);
    assert listed <= [h, h2];
  }

  lemma PushedInBetweenGrows(name: string, h: CommitMeta, h2: CommitMeta)
    requires h.hash != h2.hash
    ensures GrowingRun(PushedInBetween(name, h, h2))
  {
    var run := PushedInBetween(name, h, h2);
    TwoCommits(name, h, h2, [h]);
    TwoCommits(name, h, h2, [h, h2]);
    assert SeesWell(EMPTY_ROOM);
    assert Follows(run[0], run[1]) && Follows(run[1], run[2]);
    hide SeesWell, Follows;
  }

  /** The real head a new branch was listed with is lost, the commit pushed after it is not. */
  lemma PushLosesAHead(name: string, h: CommitMeta, h2: CommitMeta, synthetic: set<string>)
    requires h.hash != h2.hash && !IsFork(name) && h.author !in synthetic && h2.author !in synthetic
    ensures var run := PushedInBetween(name, h, h2);
            && GrowingRun(run) && !IsReported(LogOf(run, synthetic), h) && IsReported(LogOf(run, synthetic), h2)
  {
    hide LogOf, WatchedSince, Sound, Complete, IsReported, NoSharedHistory, Follows, SeesWell, IsFork;
    var run := PushedInBetween(name, h, h2);
    PushedInBetweenGrows(name, h, h2);
    TwoAlone(name, h, h2);
    EveryNewCommit(run, synthetic);
    SinceFirstPoll(run, 1, name);
    NewHeadIsReportedIff(run, synthetic, 1, name);
    WatchedIsReported(LogOf(run, synthetic), run[2].listed, WatchedSince(run), synthetic, name, 1);
  }

  lemma TwoAlone(name: string, h: CommitMeta, h2: CommitMeta)
    requires h.hash != h2.hash
    ensures NoSharedHistory(map[name := [h, h2]])
  {
  }

  lemma WatchedIsReported(log: seq<RealEvent>, room: Room, since: map<string, nat>, synthetic: set<string>, name: string, i: nat)
    requires Complete(log, room, since, synthetic) && name in room && name in since
    requires since[name] <= i < |room[name]| && room[name][i].author !in synthetic
    ensures IsReported(log, room[name][i])
  {
    hide IsReported;
  }

  /** A fork with a real head is never reported when a bot pushes to it before its page is read. */
  lemma PushHidesAFork(name: string, h: CommitMeta, h2: CommitMeta, synthetic: set<string>)
    requires h.hash != h2.hash && IsFork(name) && h.author !in synthetic && h2.author in synthetic
    ensures GrowingRun(PushedInBetween(name, h, h2)) && LogOf(PushedInBetween(name, h, h2), synthetic) == []
  {
    hide LogOf, MarkOf, WatchedSince, Arrivals, ForksOnce, Complete, Sound, ForksExactly, Follows, SeesWell, IsFork;
    var run := PushedInBetween(name, h, h2);
    PushedInBetweenGrows(name, h, h2);
    EveryNewCommit(run, synthetic);
    SinceFirstPoll(run, 1, name);
    EveryNewForkOnce(run, synthetic);
    ArrivalAtFirstPoll(run, 1, name);
    NothingReal(LogOf(run, synthetic), name, h, h2, WatchedSince(run), Arrivals(run), synthetic);
  }

  /** Nothing is reported when all that is watched and all that arrived is synthetic. */
  lemma NothingReal(log: seq<RealEvent>, name: string, h: CommitMeta, h2: CommitMeta, since: map<string, nat>,
                    arrivals: map<string, CommitMeta>, synthetic: set<string>)
    requires Sound(log, map[name := [h, h2]], since, synthetic) && name in since && since[name] == 1
    requires ForksExactly(log, map[name := [h, h2]], arrivals, synthetic)
    requires name in arrivals && arrivals[name].author in synthetic && h2.author in synthetic
    ensures log == []
  {
    FirstIsMember(log);
    forall e: RealEvent
      ensures e !in log
    {
      NotWatched(e, name, h, h2, since, synthetic);
    }
  }

  lemma FirstIsMember(log: seq<RealEvent>)
    ensures log != [] ==> log[0] in log
  {
  }

  lemma NotWatched(e: RealEvent, name: string, h: CommitMeta, h2: CommitMeta, since: map<string, nat>, synthetic: set<string>)
    requires name in since && since[name] == 1 && h2.author in synthetic
    ensures !IsWatched(e, map[name := [h, h2]], since, synthetic)
  {
    var room: Room := map[name := [h, h2]];
    assert room[name][1] == h2;
  }

  // ------------------------------------------------------------------- a second report

  function BranchName(i: nat): (name: string) {
    "r" + Decimal.Text(i)
  }

  function CommitOf(i: nat): (c: CommitMeta) {
    CommitMeta(Decimal.Text(2 * i), "alice")
  }

  /** A commit pushed on top of it. */
  function PushOf(i: nat): (c: CommitMeta) {
    CommitMeta(Decimal.Text(2 * i + 1), "alice")
  }

  /** `n` branches with a commit each. */
  function Branches(n: nat): (room: Room) {
    if n == 0 then map[] else Branches(n - 1)[BranchName(n - 1) := [CommitOf(n - 1)]]
  }

  function BranchRefs(n: nat): (refs: seq<RefEntry>)
    ensures |refs| == n && forall i | 0 <= i < n :: refs[i] == RefEntry(BranchName(i), CommitOf(i).hash)
  {
    seq(n, i requires 0 <= i < n => RefEntry(BranchName(i), CommitOf(i).hash))
  }

  lemma BranchesDiffer(i: nat, j: nat)
    ensures BranchName(i) == BranchName(j) || CommitOf(i).hash == CommitOf(j).hash || PushOf(i).hash == PushOf(j).hash ==> i == j
    ensures CommitOf(i).hash != PushOf(j).hash
    ensures BranchName(i) != "dev" && !IsFork(BranchName(i))
  {
    SameText(i, j);
    SameText(2 * i, 2 * j);
    SameText(2 * i + 1, 2 * j + 1);
    SameText(2 * i, 2 * j + 1);
    hide Decimal.Text;
    assert BranchName(i)[1..] == Decimal.Text(i) && BranchName(j)[1..] == Decimal.Text(j) && BranchName(i)[0] == 'r';
  }

  lemma SameText(i: nat, j: nat)
    ensures Decimal.Text(i) == Decimal.Text(j) ==> i == j
  {
    hide Decimal.Text;
    if Decimal.Text(i) == Decimal.Text(j) {
      Decimal.TextInjective(i, j);
    }
  }

  lemma {:induction false} BranchesAre(n: nat)
    ensures forall i: nat | i < n :: BranchName(i) in Branches(n) && Branches(n)[BranchName(i)] == [CommitOf(i)]
    ensures forall name | name in Branches(n) :: exists i: nat :: i < n && name == BranchName(i)
  {
    hide BranchName, CommitOf;
    if n > 0 {
      BranchesAre(n - 1);
      forall i: nat | i < n
        ensures BranchName(i) in Branches(n) && Branches(n)[BranchName(i)] == [CommitOf(i)]
      {
        BranchesDiffer(i, n - 1);
      }
    }
  }

  /** The branches, and perhaps one more at the oldest commit. */
  function BranchSight(n: nat, dev: bool): (s: Sight) {
    var room := if dev then Branches(n)["dev" := [CommitOf(0)]] else Branches(n);
    Sight(BranchRefs(n) + (if dev then [RefEntry("dev", CommitOf(0).hash)] else []), room, room)
  }

  /** Every ref of such a sight has one commit. */
  lemma OneCommitEach(n: nat, dev: bool, name: string) returns (i: nat)
    requires n > 0 && name in BranchSight(n, dev).listed
    ensures i < n && BranchSight(n, dev).listed[name] == [CommitOf(i)]
    ensures name == BranchName(i) || (dev && name == "dev" && i == 0)
    ensures exists k :: 0 <= k < |BranchSight(n, dev).refs| && BranchSight(n, dev).refs[k] == RefEntry(name, CommitOf(i).hash)
  {
    hide BranchName, CommitOf, Branches, BranchRefs;
    BranchesAre(n);
    if dev && name == "dev" {
      i := 0;
      assert BranchSight(n, dev).refs[n] == RefEntry(name, CommitOf(i).hash);
    } else {
      i :| i < n && name == BranchName(i);
      assert BranchSight(n, dev).refs[i] == RefEntry(name, CommitOf(i).hash);
    }
  }

  lemma BranchRefsAreListed(n: nat, dev: bool, k: nat)
    requires n > 0 && k < |BranchSight(n, dev).refs|
    ensures var s := BranchSight(n, dev);
            && s.refs[k].name in s.listed && s.listed[s.refs[k].name] == [CommitOf(if k < n then k else 0)]
            && s.refs[k] == RefEntry(if k < n then BranchName(k) else "dev", CommitOf(if k < n then k else 0).hash)
  {
    hide BranchName, CommitOf, Branches, BranchRefs;
    BranchesAre(n);
    if k < n {
      BranchesDiffer(k, k);
    }
  }

  lemma BranchNamesAreUnique(n: nat, dev: bool)
    requires n > 0
    ensures UniqueNames(BranchSight(n, dev).refs)
  {
    hide BranchName, CommitOf, Branches, BranchRefs;
    var refs := BranchSight(n, dev).refs;
    forall i, j | 0 <= i < j < |refs|
      ensures refs[i].name != refs[j].name
    {
      BranchRefsAreListed(n, dev, i);
      BranchRefsAreListed(n, dev, j);
      BranchesDiffer(i, j);
    }
  }

  lemma BranchSightLists(n: nat, dev: bool)
    requires n > 0
    ensures var s := BranchSight(n, dev);
            && NoEmptyRef(s.listed) && Lists(s.refs, s.listed) && (forall name | name in s.listed :: |s.listed[name]| == 1)
  {
    hide BranchSight, CommitOf, UniqueNames;
    var s := BranchSight(n, dev);
    BranchNamesAreUnique(n, dev);
    forall name | name in s.listed
      ensures |s.listed[name]| == 1
      ensures exists k :: 0 <= k < |s.refs| && s.refs[k].name == name
    {
      var i := OneCommitEach(n, dev, name);
      var k :| 0 <= k < |s.refs| && s.refs[k] == RefEntry(name, CommitOf(i).hash);
    }
    forall r | r in s.refs
      ensures r.name in s.listed && r.head == s.listed[r.name][0].hash
    {
      var k :| 0 <= k < |s.refs| && s.refs[k] == r;
      BranchRefsAreListed(n, dev, k);
    }
  }

  lemma BranchHashesAgree(n: nat, dev: bool)
    requires n > 0 && forall name | name in BranchSight(n, dev).listed :: |BranchSight(n, dev).listed[name]| == 1
    ensures Chains(BranchSight(n, dev).listed) && HashesAgree(BranchSight(n, dev).listed)
  {
    hide BranchSight, CommitOf;
    var s := BranchSight(n, dev);
    forall a, b | a in s.listed && b in s.listed && s.listed[a][0].hash == s.listed[b][0].hash
      ensures s.listed[a][0] == s.listed[b][0]
    {
      var i := OneCommitEach(n, dev, a);
      var j := OneCommitEach(n, dev, b);
      BranchesDiffer(i, j);
    }
  }

  lemma BranchSightIsWell(n: nat, dev: bool)
    requires n > 0
    ensures SeesWell(BranchSight(n, dev))
  {
    hide BranchSight, Lists, Chains, HashesAgree;
    SamePages(n, dev);
    BranchSightLists(n, dev);
    BranchHashesAgree(n, dev);
  }

  lemma SamePages(n: nat, dev: bool)
    ensures BranchSight(n, dev).listed == BranchSight(n, dev).paged
  {
  }

  /** An empty baseline, the branches, then one more branch at the oldest commit. */
  function BranchRun(n: nat): (run: seq<Sight>) {
    [EMPTY_ROOM, BranchSight(n, false), BranchSight(n, true)]
  }

  lemma BranchRunGrows(n: nat)
    requires n > 0
    ensures GrowingRun(BranchRun(n))
  {
    hide SeesWell, BranchSight, Follows;
    BranchSightIsWell(n, false);
    BranchSightIsWell(n, true);
    NothingBefore(BranchSight(n, false));
    BranchesKept(n);
  }

  lemma NothingBefore(s: Sight)
    ensures SeesWell(EMPTY_ROOM) && Follows(EMPTY_ROOM, s)
  {
  }

  lemma BranchesKept(n: nat)
    requires n > 0
    ensures Follows(BranchSight(n, false), BranchSight(n, true))
  {
    hide BranchName, CommitOf, Branches, BranchRefs;
    BranchesAre(n);
    forall name | name in Branches(n)
      ensures name != "dev"
    {
      var i: nat :| i < n && name == BranchName(i);
      BranchesDiffer(i, i);
    }
  }

  function BranchEvents(n: nat): (events: seq<RealEvent>)
    ensures |events| == n
  {
    seq(n, i requires 0 <= i < n => RealEvent(CommitEvent, BranchName(i), CommitOf(i).hash, "alice"))
  }

  lemma {:induction false} BranchCandidates(w: Watermark, n: nat, m: nat)
    requires n > 0 && m <= n && |BranchSight(n, false).refs| == n && Polls(w, EMPTY_ROOM, BranchSight(n, false))
    ensures Candidates(w.knownForks, Polled(w, BranchSight(n, false)), {}, m) == BranchEvents(m)
  {
    hide Polled, Polls, BranchSight, BranchName, CommitOf, RefCandidates, Forks;
    if m > 0 {
      BranchCandidates(w, n, m - 1);
      OneBranch(w, n, m - 1);
      assert BranchEvents(m)
          == BranchEvents(m - 1) + [RealEvent(CommitEvent, BranchName(m - 1), CommitOf(m - 1).hash, "alice")];
    }
  }

  lemma OneBranch(w: Watermark, n: nat, m: nat)
    requires n > 0 && m < n && |BranchSight(n, false).refs| == n && Polls(w, EMPTY_ROOM, BranchSight(n, false))
    ensures CandidatesOf(w.knownForks, Polled(w, BranchSight(n, false)), {}, m)
         == [RealEvent(CommitEvent, BranchName(m), CommitOf(m).hash, "alice")]
  {
    BranchRefsAreListed(n, false, m);
    BranchesDiffer(m, m);
    CandidatesByRef(w, EMPTY_ROOM, BranchSight(n, false), {}, m);
    SamePages(n, false);
    assert CommitOf(m).author == "alice";
    OneAlice(BranchName(m), CommitOf(m));
    hide Polled, BranchSight, BranchName, CommitOf, CandidatesOf, CommitCandidates, SeesWell, Follows;
  }

  lemma OneAlice(name: string, c: CommitMeta)
    ensures CommitCandidates(name, [c], {}, 1) == [RealEvent(CommitEvent, name, c.hash, c.author)]
  {
    assert CommitCandidates(name, [c], {}, 0) == [];
  }

  lemma {:induction false} DedupeOfDistinct(candidates: seq<RealEvent>)
    requires Distinct(Ids(candidates))
    ensures Dedupe([], candidates) == candidates
  {
    hide EventId;
    if candidates != [] {
      var init, last := candidates[..|candidates| - 1], candidates[|candidates| - 1];
      assert candidates == init + [last] && Ids(candidates) == Ids(init) + [EventId(last)];
      DistinctInit(Ids(init), EventId(last));
      DedupeOfDistinct(init);
    }
  }

  lemma DistinctInit(ids: seq<string>, id: string)
    requires Distinct(ids + [id])
    ensures Distinct(ids) && id !in ids
  {
    var all := ids + [id];
    forall i, j | 0 <= i < j < |ids|
      ensures ids[i] != ids[j]
    {
      assert all[i] != all[j];
    }
    forall i | 0 <= i < |ids|
      ensures ids[i] != id
    {
      assert all[i] != all[|ids|];
    }
  }

  lemma BranchIdsDiffer(n: nat)
    ensures Distinct(Ids(BranchEvents(n)))
  {
    hide BranchName, CommitOf;
    forall i, j | 0 <= i < j < n
      ensures Ids(BranchEvents(n))[i] != Ids(BranchEvents(n))[j]
    {
      BranchesDiffer(i, j);
      assert Ids(BranchEvents(n))[i][|"commit:"|..] == CommitOf(i).hash;
      assert Ids(BranchEvents(n))[j][|"commit:"|..] == CommitOf(j).hash;
    }
  }

  /** An empty baseline leaves an empty mark. */
  lemma EmptyMark()
    ensures var w := MarkOf([EMPTY_ROOM], {});
            LogOf([EMPTY_ROOM], {}) == [] && w.initialized && Marks(w, EMPTY_ROOM.listed) && w.responded == []
  {
    NothingBefore(EMPTY_ROOM);
    LastPoll([EMPTY_ROOM], {});
    NoPollYet({});
    BaselineMarks(EMPTY_ROOM, {});
    assert [EMPTY_ROOM][..0] == [];
    hide MarkOf, LogOf, Polled, Advanced, Reported, SeesWell;
  }

  /** A poll that finds the branches reports them all, in order. */
  lemma BranchReport(w: Watermark, n: nat)
    requires n > 0 && w.initialized && w.responded == [] && Polls(w, EMPTY_ROOM, BranchSight(n, false))
    ensures Reported(w, Polled(w, BranchSight(n, false)), {}) == BranchEvents(n)
  {
    assert |BranchSight(n, false).refs| == n;
    hide Polled, Polls, BranchSight, BranchEvents, Candidates, Dedupe;
    BranchCandidates(w, n, n);
    BranchIdsDiffer(n);
    DedupeOfDistinct(BranchEvents(n));
  }

  /** The second poll reports every branch, in order. */
  lemma BranchLog(n: nat)
    requires n > 0
    ensures LogOf([EMPTY_ROOM, BranchSight(n, false)], {}) == BranchEvents(n)
  {
    hide LogOf, MarkOf, ReportedAt, Polled, Reported, BranchSight, BranchEvents, Advanced, SeesWell, Follows, Marks;
    var run := [EMPTY_ROOM, BranchSight(n, false)];
    LastPoll(run, {});
    assert run[..1] == [EMPTY_ROOM];
    EmptyMark();
    NothingBefore(BranchSight(n, false));
    BranchSightIsWell(n, false);
    BranchReport(MarkOf([EMPTY_ROOM], {}), n);
    assert [] + BranchEvents(n) == BranchEvents(n);
  }

  lemma MarkIsTheTail(run: seq<Sight>)
    ensures MarkOf(run, {}).responded == Capped(Ids(LogOf(run, {})))
  {
    RespondedIsTheLogTail(Snapshots(run, {}));
    hide After, Log, Snapshots, Capped, Ids;
  }

  /** With 512 other reports between them a commit is reported a second time: the first branch's
      commit has been forgotten when another branch is put on it. */
  lemma ForgottenIsReportedAgain() returns (j: nat)
    ensures var run := BranchRun(RESPONDED_EVENT_ID_CAP + 1);
            && GrowingRun(run) && 512 < j < |LogOf(run, {})|
            && LogOf(run, {})[0].kind.CommitEvent? && LogOf(run, {})[j].kind.CommitEvent?
            && LogOf(run, {})[0].target == LogOf(run, {})[j].target
  {
    hide LogOf, MarkOf, ReportedAt, Polled, Reported, Advanced, BranchEvents, BranchSight, EventId, SeesWell, Follows, Marks,
      Capped, IsNew, CommitOf, Sound, Complete, Ids, GrowingRun, Distinct;
    var n := RESPONDED_EVENT_ID_CAP + 1;
    var run := BranchRun(n);
    var init := [EMPTY_ROOM, BranchSight(n, false)];
    BranchRunGrows(n);
    InitGrows(run);
    assert run[..2] == init;
    BranchLog(n);
    LastPoll(run, {});
    RunIsCurrent(init, {});
    MarkIsTheTail(init);
    var w, log, e := MarkOf(init, {}), BranchEvents(n), RealEvent(CommitEvent, "dev", CommitOf(0).hash, "alice");
    var more := Reported(w, Polled(w, run[2]), {});
    PollAdds(w, run[1], run[2], {});
    DevIsNew(n);
    BranchIdsDiffer(n);
    FirstIsForgotten(log);
    FirstBranch(n, e);
    assert EventId(e) in Ids(more);
    var k := IndexOfId(more, EventId(e));
    SameIdSameTarget(e, more[k]);
    j := n + k;
    assert LogOf(run, {}) == log + more;
  }

  lemma FirstBranch(n: nat, e: RealEvent)
    requires n > 0 && e == RealEvent(CommitEvent, "dev", CommitOf(0).hash, "alice")
    ensures |BranchEvents(n)| == n && BranchEvents(n)[0].kind.CommitEvent? && BranchEvents(n)[0].target == e.target
    ensures EventId(BranchEvents(n)[0]) == EventId(e)
  {
  }

  lemma IndexOfId(events: seq<RealEvent>, id: string) returns (k: nat)
    requires id in Ids(events)
    ensures k < |events| && EventId(events[k]) == id
  {
    k :| 0 <= k < |events| && Ids(events)[k] == id;
  }

  lemma FirstIsForgotten(log: seq<RealEvent>)
    requires |log| == RESPONDED_EVENT_ID_CAP + 1 && Distinct(Ids(log))
    ensures EventId(log[0]) !in Capped(Ids(log))
  {
    hide EventId;
    assert Capped(Ids(log)) == Ids(log)[1..];
    assert Ids(log)[0] == EventId(log[0]);
  }

  lemma DevIsNew(n: nat)
    requires n > 0
    ensures SeesWell(BranchSight(n, false)) && SeesWell(BranchSight(n, true))
    ensures IsNew(RealEvent(CommitEvent, "dev", CommitOf(0).hash, "alice"), BranchSight(n, false), BranchSight(n, true), {})
  {
    BranchSightIsWell(n, false);
    BranchSightIsWell(n, true);
    BranchRefsAreListed(n, true, n);
    SamePages(n, true);
    DevIsNotABranch(n);
    hide SeesWell, BranchSight;
  }

  lemma DevIsNotABranch(n: nat)
    ensures "dev" !in BranchSight(n, false).listed && !IsFork("dev")
  {
    hide BranchName, CommitOf, Branches;
    BranchesAre(n);
    if "dev" in Branches(n) {
      var i: nat :| i < n && "dev" == BranchName(i);
      BranchesDiffer(i, i);
    }
  }

  // ------------------------------------------- a second report without shared history

  /** The branches after a push to each. */
  function PushedBranches(n: nat): (room: Room) {
    if n == 0 then map[] else PushedBranches(n - 1)[BranchName(n - 1) := [CommitOf(n - 1), PushOf(n - 1)]]
  }

  function PushedRefs(n: nat): (refs: seq<RefEntry>)
    ensures |refs| == n && forall i | 0 <= i < n :: refs[i] == RefEntry(BranchName(i), PushOf(i).hash)
  {
    seq(n, i requires 0 <= i < n => RefEntry(BranchName(i), PushOf(i).hash))
  }

  lemma {:induction false} PushedBranchesAre(n: nat)
    ensures forall i: nat | i < n ::
              BranchName(i) in PushedBranches(n) && PushedBranches(n)[BranchName(i)] == [CommitOf(i), PushOf(i)]
    ensures forall name | name in PushedBranches(n) :: exists i: nat :: i < n && name == BranchName(i)
  {
    hide BranchName, CommitOf, PushOf;
    if n > 0 {
      PushedBranchesAre(n - 1);
      forall i: nat | i < n
        ensures BranchName(i) in PushedBranches(n) && PushedBranches(n)[BranchName(i)] == [CommitOf(i), PushOf(i)]
      {
        BranchesDiffer(i, n - 1);
      }
    }
  }

  lemma PushedShareNothing(n: nat)
    ensures NoSharedHistory(PushedBranches(n))
  {
    hide BranchName, CommitOf, PushOf, PushedBranches;
    PushedBranchesAre(n);
    var room: Room := PushedBranches(n);
    forall r, s, i, j | r in room && s in room && 0 <= i < |room[r]| && 0 <= j < |room[s]| && room[r][i].hash == room[s][j].hash
      ensures r == s && i == j
    {
      var a: nat :| a < n && r == BranchName(a);
      var b: nat :| b < n && s == BranchName(b);
      BranchesDiffer(a, b);
      BranchesDiffer(b, a);
    }
  }

  lemma NothingSharedIsWell(room: Room)
    requires NoSharedHistory(room)
    ensures Chains(room) && HashesAgree(room)
  {
  }

  /** Every branch is listed before the push to it and read after it, or both after it. */
  function PushedSight(n: nat, late: bool): (s: Sight) {
    Sight(if late then PushedRefs(n) else BranchRefs(n), if late then PushedBranches(n) else Branches(n), PushedBranches(n))
  }

  /** An empty baseline, the branches pushed to in between, and once more. */
  function PushedRun(n: nat): (run: seq<Sight>) {
    [EMPTY_ROOM, PushedSight(n, false), PushedSight(n, true)]
  }

  lemma PushedRefsAre(n: nat, late: bool)
    ensures var s := PushedSight(n, late);
            && |s.refs| == n && s.listed.Keys == s.paged.Keys
            && (forall i: nat | i < n :: s.refs[i] == RefEntry(BranchName(i), if late then PushOf(i).hash else CommitOf(i).hash))
            && (forall i: nat | i < n :: BranchName(i) in s.listed &&
                                         s.listed[BranchName(i)] == [CommitOf(i)] + (if late then [PushOf(i)] else []))
            && (forall name | name in s.paged :: exists i: nat :: i < n && name == BranchName(i))
  {
    hide BranchName, CommitOf, PushOf, PushedBranches, Branches, PushedRefs, BranchRefs;
    BranchesAre(n);
    PushedBranchesAre(n);
  }

  lemma PushedSightLists(n: nat, late: bool)
    ensures NoEmptyRef(PushedSight(n, late).listed) && Lists(PushedSight(n, late).refs, PushedSight(n, late).listed)
  {
    hide BranchName, CommitOf, PushOf, PushedSight, UniqueNames, Tip;
    PushedNamesDiffer(n, late);
    var s := PushedSight(n, late);
    forall name | name in s.listed
      ensures s.listed[name] != [] && exists i :: 0 <= i < |s.refs| && s.refs[i].name == name
    {
      var i := PushedName(n, late, name);
      PushedRefAt(n, late, i);
    }
    forall r | r in s.refs
      ensures r.name in s.listed && s.listed[r.name] != [] && r.head == Tip(s.listed, r.name).hash
    {
      var i :| 0 <= i < |s.refs| && s.refs[i] == r;
      PushedRefAt(n, late, i);
    }
  }

  lemma PushedName(n: nat, late: bool, name: string) returns (i: nat)
    requires name in PushedSight(n, late).listed
    ensures i < |PushedSight(n, late).refs| && name == PushedSight(n, late).refs[i].name
  {
    hide BranchName, CommitOf, PushOf, PushedSight;
    PushedRefsAre(n, late);
    i :| i < n && name == BranchName(i);
  }

  lemma PushedRefAt(n: nat, late: bool, i: nat)
    requires i < |PushedSight(n, late).refs|
    ensures var s := PushedSight(n, late);
            s.refs[i].name in s.listed && s.listed[s.refs[i].name] != [] && s.refs[i].head == Tip(s.listed, s.refs[i].name).hash
  {
    hide BranchName, CommitOf, PushOf, PushedSight;
    PushedRefsAre(n, late);
  }

  lemma PushedNamesDiffer(n: nat, late: bool)
    ensures UniqueNames(PushedSight(n, late).refs)
  {
    hide BranchName, CommitOf, PushOf, PushedSight;
    PushedRefsAre(n, late);
    var refs := PushedSight(n, late).refs;
    forall i, j | 0 <= i < j < |refs|
      ensures refs[i].name != refs[j].name
    {
      BranchesDiffer(i, j);
    }
  }

  lemma PushedSightIsWell(n: nat, late: bool)
    ensures SeesWell(PushedSight(n, late))
  {
    PushedShareNothing(n);
    NothingSharedIsWell(PushedBranches(n));
    PushedSightLists(n, late);
    PushedSightLists(n, true);
    PushedExtends(n, late);
    hide PushedBranches, Branches, PushedRefs, BranchRefs, NoSharedHistory, Lists, Chains, HashesAgree, Extends, NoEmptyRef;
  }

  lemma PushedExtends(n: nat, late: bool)
    ensures Extends(PushedSight(n, late).listed, PushedSight(n, late).paged)
  {
    hide BranchName, CommitOf, PushOf, PushedBranches, Branches, PushedRefs, BranchRefs;
    BranchesAre(n);
    PushedBranchesAre(n);
  }

  lemma PushedFollows(n: nat)
    ensures Follows(PushedSight(n, false), PushedSight(n, true))
  {
    hide BranchName, CommitOf, PushOf, PushedBranches, Branches, PushedRefs, BranchRefs;
    BranchesAre(n);
    PushedBranchesAre(n);
  }

  lemma PushedRunGrows(n: nat)
    ensures GrowingRun(PushedRun(n))
  {
    hide SeesWell, PushedSight, Follows;
    PushedSightIsWell(n, false);
    PushedSightIsWell(n, true);
    NothingBefore(PushedSight(n, false));
    PushedFollows(n);
  }

  function PushEvent(i: nat): (e: RealEvent) {
    RealEvent(CommitEvent, BranchName(i), PushOf(i).hash, "alice")
  }

  lemma PushIsNew(n: nat, i: nat)
    requires i < n && SeesWell(EMPTY_ROOM) && SeesWell(PushedSight(n, false))
    ensures IsNewCommit(PushEvent(i), EMPTY_ROOM, PushedSight(n, false), {})
  {
    hide SeesWell, BranchName, PushedSight, PushOf, Decimal.Text, IsFork;
    PushOnTop(n, i);
    BranchesDiffer(i, i);
    AliceIsReal(PushOf(i), i);
    assert BranchName(i) !in EMPTY_ROOM.listed;
  }

  lemma AliceIsReal(c: CommitMeta, i: nat)
    requires c == PushOf(i)
    ensures c == CommitMeta(c.hash, "alice")
  {
  }

  lemma PushOnTop(n: nat, i: nat)
    requires i < n
    ensures var s := PushedSight(n, false);
            && BranchName(i) in s.listed && BranchName(i) in s.paged && s.paged[BranchName(i)] != []
            && Tip(s.paged, BranchName(i)) == PushOf(i)
  {
    hide BranchName, CommitOf, PushOf, PushedBranches, Branches, PushedRefs, BranchRefs;
    BranchesAre(n);
    PushedBranchesAre(n);
  }

  /** The second poll reports every push. */
  lemma PushesReported(n: nat)
    ensures forall i: nat | i < n :: EventId(PushEvent(i)) in Ids(LogOf([EMPTY_ROOM, PushedSight(n, false)], {}))
  {
    hide LogOf, MarkOf, ReportedAt, Polled, Reported, PushedSight, Advanced, SeesWell, Follows, Marks, Adds, IsNewCommit, EventId,
      Ids, PushEvent;
    var run := [EMPTY_ROOM, PushedSight(n, false)];
    LastPoll(run, {});
    assert run[..1] == [EMPTY_ROOM];
    EmptyMark();
    NothingBefore(PushedSight(n, false));
    PushedSightIsWell(n, false);
    var w := MarkOf([EMPTY_ROOM], {});
    PollAdds(w, EMPTY_ROOM, PushedSight(n, false), {});
    var more := Reported(w, Polled(w, PushedSight(n, false)), {});
    assert [] + more == more;
    forall i: nat | i < n
      ensures EventId(PushEvent(i)) in Ids(more)
    {
      PushIsNew(n, i);
      AddsNew(more, w.responded, EMPTY_ROOM, PushedSight(n, false), {}, PushEvent(i));
    }
  }

  /** No push is within the listing of that poll. */
  lemma PushIsAhead(n: nat, i: nat, e: RealEvent)
    requires i < n && e.target == PushOf(i).hash
    ensures !InListing(e, PushedSight(n, false).listed)
  {
    PushedRefsAre(n, false);
    hide BranchName, CommitOf, PushOf, PushedSight;
    var listed := PushedSight(n, false).listed;
    if InListing(e, listed) {
      var k :| 0 <= k < |listed[e.ref]| && Says(e, listed[e.ref][k]);
      var j: nat :| j < n && e.ref == BranchName(j);
      BranchesDiffer(j, i);
    }
  }

  /** More pushes than the dedup log holds are not all remembered. */
  lemma NotAllRemembered(ids: seq<string>, n: nat)
    requires |ids| < n
    ensures exists i: nat :: i < n && EventId(PushEvent(i)) !in ids
  {
    if forall i: nat | i < n :: EventId(PushEvent(i)) in ids {
      DistinctPushes(n);
      var pushes := set i: nat | i < n :: EventId(PushEvent(i));
      assert pushes <= set id | id in ids;
      AtMostThatMany(ids);
      SubsetSize(pushes, set id | id in ids);
    }
  }

  lemma {:induction false} DistinctPushes(n: nat)
    ensures |set i: nat | i < n :: EventId(PushEvent(i))| == n
  {
    hide EventId, PushEvent;
    var pushes := set i: nat | i < n :: EventId(PushEvent(i));
    if n == 0 {
      assert pushes == {};
    } else {
      DistinctPushes(n - 1);
      var fewer := set i: nat | i < n - 1 :: EventId(PushEvent(i));
      forall i: nat | i < n - 1
        ensures EventId(PushEvent(i)) != EventId(PushEvent(n - 1))
      {
        PushIdsDiffer(i, n - 1);
      }
      assert pushes == fewer + {EventId(PushEvent(n - 1))};
    }
  }

  lemma PushIdsDiffer(i: nat, j: nat)
    requires i != j
    ensures EventId(PushEvent(i)) != EventId(PushEvent(j))
  {
    BranchesDiffer(i, j);
    hide BranchName, PushOf;
    if EventId(PushEvent(i)) == EventId(PushEvent(j)) {
      SameIdSameTarget(PushEvent(i), PushEvent(j));
    }
  }

  lemma {:induction false} AtMostThatMany(ids: seq<string>)
    ensures |set id | id in ids| <= |ids|
  {
    if ids != [] {
      AtMostThatMany(ids[1..]);
      assert (set id | id in ids) == {ids[0]} + (set id | id in ids[1..]);
    }
  }

  lemma {:induction false} SubsetSize(a: set<string>, b: set<string>)
    requires a <= b
    ensures |a| <= |b|
  {
    if a != {} {
      var x :| x in a;
      SubsetSize(a - {x}, b - {x});
    }
  }

  /** Without shared history too, commits are reported twice: when more branches appear in
      one poll than the dedup log holds and each is pushed to before its page is read, some
      push is forgotten before the next poll meets it again. */
  lemma PushedAndForgotten(n: nat)
    requires n > 512
    ensures GrowingRun(PushedRun(n)) && NoSharedHistory(PushedRun(n)[2].paged)
    ensures !AheadRemembered(PushedRun(n), {}) && !NoneTwice(LogOf(PushedRun(n), {}))
  {
    hide LogOf, MarkOf, PushedSight, GrowingRun, NoneTwice, NoSharedHistory, RemembersAt;
    PushedRunGrows(n);
    PushedShareNothing(n);
    assert PushedRun(n)[2].paged == PushedBranches(n) by { LatePages(n); }
    SomePushIsForgotten(n);
    EveryNewCommitOnceIff(PushedRun(n), {});
  }

  lemma LatePages(n: nat)
    ensures PushedSight(n, true).paged == PushedBranches(n)
  {
  }

  lemma SomePushIsForgotten(n: nat)
    requires n > RESPONDED_EVENT_ID_CAP
    ensures !RemembersAt(PushedRun(n), {}, 1)
  {
    hide LogOf, MarkOf, PushedSight, EventId, PushEvent, Ids, InListing;
    var init := [EMPTY_ROOM, PushedSight(n, false)];
    assert PushedRun(n)[..2] == init;
    var w, log := MarkOf(init, {}), LogOf(init, {});
    assert |w.responded| <= RESPONDED_EVENT_ID_CAP by { MarkIsTheTail(init); }
    NotAllRemembered(w.responded, n);
    var i: nat :| i < n && EventId(PushEvent(i)) !in w.responded;
    PushesReported(n);
    var k := IndexOfId(log, EventId(PushEvent(i)));
    SameTargetAsPush(i, log[k]);
    PushIsAhead(n, i, log[k]);
    assert log[k] in log;
  }

  lemma SameTargetAsPush(i: nat, e: RealEvent)
    requires EventId(e) == EventId(PushEvent(i))
    ensures e.kind.CommitEvent? && e.target == PushOf(i).hash
  {
    hide BranchName, PushOf;
    SameIdSameTarget(PushEvent(i), e);
  }
}
