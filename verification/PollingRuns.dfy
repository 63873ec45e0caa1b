/** Whole runs of polls over rooms whose refs only grow, may share history, and are
    pushed to between the two calls of a poll: which commits and forks are reported,
    how often, and exactly when a new ref is reported correctly. */
module PollingRuns {
  import opened Observer
  import opened ObserverRuns
  import opened Polling
  import opened Sequences

  // -------------------------------------------------------------- what is to be reported

  /** From which commit on each ref is watched: from the baseline on, everything after
      it; a ref listed later is watched from its listed head on when its page starts
      there, and from behind that head when a push came in between or when the head is
      a fork event instead. */
  function Watched(since: map<string, nat>, s: Sight): (next: map<string, nat>)
    requires SeesWell(s)
    ensures next.Keys == s.listed.Keys
  {
    map name | name in s.listed ::
      if name in since then since[name]
      else if IsFork(name) || |s.paged[name]| != |s.listed[name]| then |s.listed[name]|
      else |s.listed[name]| - 1
  }

  function Baseline(s: Sight): (since: map<string, nat>)
    ensures since.Keys == s.listed.Keys
  {
    map name | name in s.listed :: |s.listed[name]|
  }

  /** The event is a watched real commit of its ref. */
  ghost predicate IsWatched(e: RealEvent, room: Room, since: map<string, nat>, synthetic: set<string>) {
    && e.ref in room && e.ref in since && e.author !in synthetic
    && exists i :: since[e.ref] <= i < |room[e.ref]| && Says(e, room[e.ref][i])
  }

  /** Every commit event is a watched real commit. */
  ghost predicate Sound(log: seq<RealEvent>, room: Room, since: map<string, nat>, synthetic: set<string>) {
    forall e | e in log && e.kind.CommitEvent? :: IsWatched(e, room, since, synthetic)
  }

  /** Some commit event says `c`. */
  ghost predicate IsReported(log: seq<RealEvent>, c: CommitMeta) {
    exists e :: e in log && e.kind.CommitEvent? && Says(e, c)
  }

  /** Every watched real commit is reported. */
  ghost predicate Complete(log: seq<RealEvent>, room: Room, since: map<string, nat>, synthetic: set<string>) {
    forall name, i | name in room && name in since && since[name] <= i < |room[name]| && room[name][i].author !in synthetic ::
      IsReported(log, room[name][i])
  }

  ghost predicate Current(w: Watermark, log: seq<RealEvent>, s: Sight, since: map<string, nat>, synthetic: set<string>) {
    && SeesWell(s) && Marks(w, s.listed)
    && since.Keys == s.listed.Keys && (forall name | name in s.listed :: since[name] <= |s.listed[name]|)
    && (forall id | id in w.responded :: id in Ids(log))
    && Sound(log, s.paged, since, synthetic) && Complete(log, s.listed, since, synthetic)
  }

  // --------------------------------------------------------------------- one poll

  lemma WatchedAt(since: map<string, nat>, s: Sight, name: string)
    requires SeesWell(s) && name in s.listed
    ensures name in s.paged
    ensures Watched(since, s)[name] ==
            if name in since then since[name]
            else if IsFork(name) || |s.paged[name]| != |s.listed[name]| then |s.listed[name]|
            else |s.listed[name]| - 1
  {
  }

  lemma StillWatched(e: RealEvent, before: Sight, after: Sight, since: map<string, nat>, synthetic: set<string>)
    requires SeesWell(before) && SeesWell(after) && Follows(before, after) && since.Keys == before.listed.Keys
    requires IsWatched(e, before.paged, since, synthetic)
    ensures IsWatched(e, after.paged, Watched(since, after), synthetic)
  {
    hide SeesWell, Follows, Watched, Says;
    StillListed(before, after);
    KnownRef(before, after, e.ref);
    WatchedAt(since, after, e.ref);
    var i :| since[e.ref] <= i < |before.paged[e.ref]| && Says(e, before.paged[e.ref][i]);
    assert after.paged[e.ref][i] == before.paged[e.ref][i];
  }

  lemma NowWatched(e: RealEvent, before: Sight, after: Sight, since: map<string, nat>, synthetic: set<string>)
    requires SeesWell(before) && SeesWell(after) && Follows(before, after) && since.Keys == before.listed.Keys
    requires forall name | name in before.listed :: since[name] <= |before.listed[name]|
    requires IsNewCommit(e, before, after, synthetic)
    ensures IsWatched(e, after.paged, Watched(since, after), synthetic)
  {
    var i := PlaceOf(e, before, after, synthetic);
    assert e.ref in after.listed && e.author !in synthetic && (e.ref in before.listed || !IsFork(e.ref));
    hide SeesWell, Follows, Watched, Says, IsNewCommit;
    KnownRef(before, after, e.ref);
    WatchedAt(since, after, e.ref);
  }

  /** A watched commit of the listed room is an earlier poll's or this one's. */
  lemma WatchedIsOldOrNew(
      name: string, i: nat, before: Sight, after: Sight, since: map<string, nat>, synthetic: set<string>)
    requires SeesWell(before) && SeesWell(after) && Follows(before, after) && since.Keys == before.listed.Keys
    requires name in after.listed && Watched(since, after)[name] <= i < |after.listed[name]|
    requires after.listed[name][i].author !in synthetic
    ensures || (name in before.listed && since[name] <= i < |before.listed[name]| &&
                before.listed[name][i] == after.listed[name][i])
            || IsNewCommit(RealEvent(CommitEvent, name, after.listed[name][i].hash, after.listed[name][i].author),
                           before, after, synthetic)
  {
    hide HashesAgree, Lists, UniqueHashes, Follows, Extends, Chains, NoEmptyRef, Watched;
    KnownRef(before, after, name);
    WatchedAt(since, after, name);
    var c := after.listed[name][i];
    var e := RealEvent(CommitEvent, name, c.hash, c.author);
    assert Says(e, after.paged[name][i]);
  }

  /** An event with the id of a commit of the room says that commit. */
  lemma SameIdSameCommit(e: RealEvent, g: RealEvent, room: Room, since: map<string, nat>, synthetic: set<string>, name: string, i: nat)
    requires HashesAgree(room) && e.kind.CommitEvent? && EventId(e) == EventId(g)
    requires name in room && i < |room[name]| && Says(e, room[name][i])
    requires g.kind.CommitEvent? ==> IsWatched(g, room, since, synthetic)
    ensures g.kind.CommitEvent? && Says(g, room[name][i])
  {
    SameIdSameTarget(e, g);
    hide EventId;
    var j :| since[g.ref] <= j < |room[g.ref]| && Says(g, room[g.ref][j]);
    assert room[g.ref][j].hash == room[name][i].hash;
  }

  lemma PollKeepsSound(log: seq<RealEvent>, more: seq<RealEvent>, responded: seq<string>,
                       before: Sight, after: Sight, since: map<string, nat>, synthetic: set<string>)
    requires SeesWell(before) && SeesWell(after) && Follows(before, after) && since.Keys == before.listed.Keys
    requires forall name | name in before.listed :: since[name] <= |before.listed[name]|
    requires Sound(log, before.paged, since, synthetic) && Adds(more, responded, before, after, synthetic)
    ensures Sound(log + more, after.paged, Watched(since, after), synthetic)
  {
    hide SeesWell, Follows, IsWatched, IsNewCommit, Watched, Ids, EventId;
    forall e | e in log + more && e.kind.CommitEvent?
      ensures IsWatched(e, after.paged, Watched(since, after), synthetic)
    {
      if e in log {
        StillWatched(e, before, after, since, synthetic);
      } else {
        assert e in more;
        NowWatched(e, before, after, since, synthetic);
      }
    }
  }

  /** A new commit is reported by now: its id was remembered, or is reported by this poll. */
  lemma NewIsReported(e: RealEvent, log: seq<RealEvent>, more: seq<RealEvent>, responded: seq<string>,
                      before: Sight, after: Sight, since: map<string, nat>, synthetic: set<string>, c: CommitMeta)
    requires SeesWell(before) && SeesWell(after)
    requires Adds(more, responded, before, after, synthetic) && forall id | id in responded :: id in Ids(log)
    requires Sound(log + more, after.paged, since, synthetic)
    requires IsNewCommit(e, before, after, synthetic) && Says(e, c)
    ensures IsReported(log + more, c)
  {
    var i := PlaceOf(e, before, after, synthetic);
    hide HashesAgree, EventId, IsNewCommit, IsWatched, IsNewFork, Lists, Extends, Chains, NoEmptyRef;
    IdsConcat(log, more);
    assert EventId(e) in Ids(log + more);
    var k :| 0 <= k < |log + more| && Ids(log + more)[k] == EventId(e);
    var g := (log + more)[k];
    assert g in log + more;
    SameIdSameCommit(e, g, after.paged, since, synthetic, e.ref, i);
  }

  /** Where in its ref a new commit stands. */
  lemma PlaceOf(e: RealEvent, before: Sight, after: Sight, synthetic: set<string>) returns (i: nat)
    requires SeesWell(before) && SeesWell(after) && IsNewCommit(e, before, after, synthetic)
    ensures e.kind.CommitEvent? && e.ref in after.paged && i < |after.paged[e.ref]| && Says(e, after.paged[e.ref][i])
    ensures if e.ref in before.listed then |before.listed[e.ref]| <= i else i == |after.paged[e.ref]| - 1
  {
    hide HashesAgree, Lists, Chains;
    if e.ref in before.listed {
      i :| |before.listed[e.ref]| <= i < |after.paged[e.ref]| && Says(e, after.paged[e.ref][i]);
    } else {
      i := |after.paged[e.ref]| - 1;
    }
  }

  lemma PollKeepsComplete(log: seq<RealEvent>, more: seq<RealEvent>, responded: seq<string>,
                          before: Sight, after: Sight, since: map<string, nat>, synthetic: set<string>)
    requires SeesWell(before) && SeesWell(after) && Follows(before, after) && since.Keys == before.listed.Keys
    requires Complete(log, before.listed, since, synthetic) && Adds(more, responded, before, after, synthetic)
    requires Sound(log + more, after.paged, Watched(since, after), synthetic)
    requires forall id | id in responded :: id in Ids(log)
    ensures Complete(log + more, after.listed, Watched(since, after), synthetic)
  {
    hide SeesWell, Follows, IsNewCommit, Watched, Ids, EventId, Sound, Adds;
    var next := Watched(since, after);
    forall name, i | name in after.listed && name in next && next[name] <= i < |after.listed[name]| &&
                     after.listed[name][i].author !in synthetic
      ensures IsReported(log + more, after.listed[name][i])
    {
      var c := after.listed[name][i];
      WatchedIsOldOrNew(name, i, before, after, since, synthetic);
      var e := RealEvent(CommitEvent, name, c.hash, c.author);
      if IsNewCommit(e, before, after, synthetic) {
        NewIsReported(e, log, more, responded, before, after, next, synthetic, c);
      } else {
        var g :| g in log && g.kind.CommitEvent? && Says(g, c);
        assert g in log + more;
      }
    }
  }

  lemma WatchedWithin(before: Sight, after: Sight, since: map<string, nat>)
    requires SeesWell(before) && SeesWell(after) && Follows(before, after) && since.Keys == before.listed.Keys
    requires forall name | name in before.listed :: since[name] <= |before.listed[name]|
    ensures forall name | name in after.listed :: Watched(since, after)[name] <= |after.listed[name]|
  {
    hide HashesAgree, UniqueHashes, Lists;
    forall name | name in after.listed
      ensures Watched(since, after)[name] <= |after.listed[name]|
    {
      KnownRef(before, after, name);
    }
  }

  lemma CappedAreReported(responded: seq<string>, log: seq<RealEvent>, more: seq<RealEvent>)
    requires forall id | id in responded :: id in Ids(log)
    ensures forall id | id in Capped(responded + Ids(more)) :: id in Ids(log + more)
  {
    IdsConcat(log, more);
    hide Ids;
    var all := responded + Ids(more);
    assert forall id | id in Capped(all) :: id in all;
  }

  /** One poll keeps the watermark current, the log sound and the log complete. */
  lemma PollStaysCurrent(w: Watermark, log: seq<RealEvent>, before: Sight, after: Sight, since: map<string, nat>,
                         synthetic: set<string>)
    requires Current(w, log, before, since, synthetic) && SeesWell(after) && Follows(before, after)
    ensures Current(Advanced(w, Polled(w, after), synthetic), log + Reported(w, Polled(w, after), synthetic), after,
                    Watched(since, after), synthetic)
  {
    assert w.initialized;
    hide Polled, Reported, Advanced, SeesWell, Follows, Marks, Adds, Sound, Complete, Watched, Ids, Capped;
    var more := Reported(w, Polled(w, after), synthetic);
    PollMarks(w, before, after, synthetic);
    PollAdds(w, before, after, synthetic);
    PollKeepsSound(log, more, w.responded, before, after, since, synthetic);
    PollKeepsComplete(log, more, w.responded, before, after, since, synthetic);
    WatchedWithin(before, after, since);
    AdvancedFields(w, after, synthetic);
    CappedAreReported(w.responded, log, more);
  }

  lemma BaselineIsCurrent(s: Sight, synthetic: set<string>)
    requires SeesWell(s)
    ensures Current(Advanced(FRESH, Polled(FRESH, s), synthetic), [], s, Baseline(s), synthetic)
  {
    hide Polled, Advanced, SeesWell, Marks;
    BaselineMarks(s, synthetic);
  }

  // -------------------------------------------------------------------------- runs

  /** Each poll is well sighted and follows the one before. */
  ghost predicate GrowingRun(run: seq<Sight>) {
    && run != []
    && (forall i | 0 <= i < |run| :: SeesWell(run[i]))
    && (forall i | 0 < i < |run| :: Follows(run[i - 1], run[i]))
  }

  /** The polls as `observe` meets them: each snapshot is built from the watermark then in force. */
  function Snapshots(run: seq<Sight>, synthetic: set<string>): (polls: seq<Poll>) {
    if run == [] then []
    else
      var earlier := Snapshots(run[..|run| - 1], synthetic);
      earlier + [Poll(Polled(After(earlier), run[|run| - 1]), synthetic)]
  }

  /** Everything a run reports. */
  function LogOf(run: seq<Sight>, synthetic: set<string>): (log: seq<RealEvent>) {
    Log(Snapshots(run, synthetic))
  }

  function MarkOf(run: seq<Sight>, synthetic: set<string>): (w: Watermark) {
    After(Snapshots(run, synthetic))
  }

  /** What poll `k` of a run reports. */
  function ReportedAt(run: seq<Sight>, synthetic: set<string>, k: nat): (events: seq<RealEvent>)
    requires k < |run|
  {
    var w := MarkOf(run[..k], synthetic);
    Reported(w, Polled(w, run[k]), synthetic)
  }

  function WatchedSince(run: seq<Sight>): (since: map<string, nat>)
    requires run != [] && forall i | 0 <= i < |run| :: SeesWell(run[i])
    ensures since.Keys == run[|run| - 1].listed.Keys
  {
    var last := run[|run| - 1];
    assert SeesWell(last);
    if |run| == 1 then Baseline(last) else Watched(WatchedSince(run[..|run| - 1]), last)
  }

  lemma LastPoll(run: seq<Sight>, synthetic: set<string>)
    requires run != []
    ensures var w, last := MarkOf(run[..|run| - 1], synthetic), run[|run| - 1];
            && MarkOf(run, synthetic) == Advanced(w, Polled(w, last), synthetic)
            && LogOf(run, synthetic) == LogOf(run[..|run| - 1], synthetic) + Reported(w, Polled(w, last), synthetic)
            && ReportedAt(run, synthetic, |run| - 1) == Reported(w, Polled(w, last), synthetic)
  {
    var earlier, polls := Snapshots(run[..|run| - 1], synthetic), Snapshots(run, synthetic);
    assert polls[..|polls| - 1] == earlier;
    hide Polled, Advanced, Reported;
  }

  lemma NoPollYet(synthetic: set<string>)
    ensures MarkOf([], synthetic) == FRESH && LogOf([], synthetic) == []
  {
  }

  lemma InitGrows(run: seq<Sight>)
    requires GrowingRun(run) && |run| > 1
    ensures GrowingRun(run[..|run| - 1])
    ensures run[..|run| - 1][|run| - 2] == run[|run| - 2]
    ensures SeesWell(run[|run| - 1]) && Follows(run[|run| - 2], run[|run| - 1])
  {
    hide SeesWell, Follows;
  }

  lemma {:induction false} RunIsCurrent(run: seq<Sight>, synthetic: set<string>)
    requires GrowingRun(run)
    ensures Current(MarkOf(run, synthetic), LogOf(run, synthetic), run[|run| - 1], WatchedSince(run), synthetic)
  {
    hide MarkOf, LogOf, ReportedAt, Polled, Current, Watched, Baseline, Advanced, Reported, Follows, SeesWell;
    LastPoll(run, synthetic);
    var init, last := run[..|run| - 1], run[|run| - 1];
    if |run| == 1 {
      assert init == [];
      NoPollYet(synthetic);
      BaselineIsCurrent(last, synthetic);
      BaselineMarks(last, synthetic);
    } else {
      InitGrows(run);
      RunIsCurrent(init, synthetic);
      PollStaysCurrent(MarkOf(init, synthetic), LogOf(init, synthetic), init[|init| - 1], last, WatchedSince(init), synthetic);
    }
  }

  /** End to end, with shared history and with pushes inside a poll: every real commit
      watched up to the last listing is reported, and every commit event is a real commit
      watched up to the last pages. */
  lemma EveryNewCommit(run: seq<Sight>, synthetic: set<string>)
    requires GrowingRun(run)
    ensures Complete(LogOf(run, synthetic), run[|run| - 1].listed, WatchedSince(run), synthetic)
    ensures Sound(LogOf(run, synthetic), run[|run| - 1].paged, WatchedSince(run), synthetic)
  {
    RunIsCurrent(run, synthetic);
    hide MarkOf, LogOf, Complete, Sound, SeesWell, WatchedSince;
  }

  // ---------------------------------------------------------------------- exactly once

  /** No commit is on two refs. */
  predicate NoSharedHistory(room: Room) {
    forall r, s, i, j | r in room && s in room && 0 <= i < |room[r]| && 0 <= j < |room[s]| &&
                        room[r][i].hash == room[s][j].hash :: r == s && i == j
  }

  /** The commit is within the last listing of its ref. */
  ghost predicate InListing(e: RealEvent, listed: Room) {
    e.ref in listed && exists i :: 0 <= i < |listed[e.ref]| && Says(e, listed[e.ref][i])
  }

  /** No commit is reported twice. */
  predicate NoneTwice(log: seq<RealEvent>) {
    forall i, j | 0 <= i < j < |log| && log[i].kind.CommitEvent? && log[j].kind.CommitEvent? ::
      log[i].target != log[j].target
  }

  /** Every report ahead of its ref's listing is still in the dedup log. */
  ghost predicate Remembered(w: Watermark, log: seq<RealEvent>, listed: Room) {
    forall e | e in log && e.kind.CommitEvent? && !InListing(e, listed) :: EventId(e) in w.responded
  }

  lemma SameTargetSameId(e: RealEvent, g: RealEvent)
    requires e.kind.CommitEvent? && g.kind.CommitEvent? && e.target == g.target
    ensures EventId(e) == EventId(g)
  {
  }

  /** A new commit that is in the log already was reported ahead of its listing. */
  lemma RepeatIsAhead(e: RealEvent, g: RealEvent, before: Sight, after: Sight, since: map<string, nat>, synthetic: set<string>)
    requires SeesWell(before) && SeesWell(after) && Follows(before, after) && since.Keys == before.listed.Keys
    requires NoSharedHistory(after.paged) && e.target == g.target
    requires IsNewCommit(e, before, after, synthetic) && IsWatched(g, before.paged, since, synthetic)
    ensures !InListing(g, before.listed)
  {
    hide SeesWell, Follows, IsNewCommit, NoSharedHistory, Says;
    var i := PlaceOf(e, before, after, synthetic);
    var j :| since[g.ref] <= j < |before.paged[g.ref]| && Says(g, before.paged[g.ref][j]);
    StillListed(before, after);
    KnownRef(before, after, g.ref);
    assert after.paged[g.ref][j] == before.paged[g.ref][j];
    SamePlace(after.paged, e, g, i, j);
    NotInPrefix(before.listed[g.ref], after.paged[g.ref], g, j);
  }

  lemma SamePlace(room: Room, e: RealEvent, g: RealEvent, i: nat, j: nat)
    requires NoSharedHistory(room) && e.target == g.target && e.ref in room && g.ref in room
    requires i < |room[e.ref]| && Says(e, room[e.ref][i]) && j < |room[g.ref]| && Says(g, room[g.ref][j])
    ensures e.ref == g.ref && i == j
  {
  }

  lemma NotInPrefix(prefix: seq<CommitMeta>, commits: seq<CommitMeta>, e: RealEvent, j: nat)
    requires prefix <= commits && UniqueHashes(commits) && |prefix| <= j < |commits| && Says(e, commits[j])
    ensures !exists i :: 0 <= i < |prefix| && Says(e, prefix[i])
  {
  }

  /** What was reported before is within the next listing. */
  lemma ReportedIsListed(e: RealEvent, before: Sight, after: Sight, since: map<string, nat>, synthetic: set<string>)
    requires SeesWell(before) && SeesWell(after) && Follows(before, after) && since.Keys == before.listed.Keys
    requires IsWatched(e, before.paged, since, synthetic)
    ensures InListing(e, after.listed)
  {
    hide SeesWell, Follows, Says;
    var j :| since[e.ref] <= j < |before.paged[e.ref]| && Says(e, before.paged[e.ref][j]);
    StillListed(before, after);
    KnownRef(before, after, e.ref);
    assert after.listed[e.ref][j] == before.paged[e.ref][j];
  }

  /** A poll that reports at most 512 events remembers all of them. */
  lemma AllRemembered(responded: seq<string>, more: seq<RealEvent>)
    requires |more| <= RESPONDED_EVENT_ID_CAP
    ensures forall e | e in more :: EventId(e) in Capped(responded + Ids(more))
  {
    hide EventId;
    var all := responded + Ids(more);
    forall e | e in more
      ensures EventId(e) in Capped(all)
    {
      var k :| 0 <= k < |more| && more[k] == e;
      assert all[|responded| + k] == EventId(e);
      if |all| > RESPONDED_EVENT_ID_CAP {
        assert Capped(all)[|responded| + k - (|all| - RESPONDED_EVENT_ID_CAP)] == EventId(e);
      }
    }
  }

  /** No commit of this poll is in the log under its id. */
  lemma NewIsNotInLog(w: Watermark, log: seq<RealEvent>, more: seq<RealEvent>, before: Sight, after: Sight,
                      since: map<string, nat>, synthetic: set<string>, e: RealEvent, g: RealEvent)
    requires SeesWell(before) && SeesWell(after) && Follows(before, after) && since.Keys == before.listed.Keys
    requires NoSharedHistory(after.paged) && Sound(log, before.paged, since, synthetic) && Remembered(w, log, before.listed)
    requires Adds(more, w.responded, before, after, synthetic)
    requires e in more && g in log && e.kind.CommitEvent? && g.kind.CommitEvent?
    ensures e.target != g.target
  {
    hide SeesWell, Follows, NoSharedHistory, IsWatched, IsNewCommit, InListing, EventId;
    if e.target == g.target {
      SameTargetSameId(e, g);
      RepeatIsAhead(e, g, before, after, since, synthetic);
      MemberId(more, e);
    }
  }

  lemma MemberId(events: seq<RealEvent>, e: RealEvent)
    requires e in events
    ensures EventId(e) in Ids(events)
  {
    var k :| 0 <= k < |events| && events[k] == e;
    assert Ids(events)[k] == EventId(e);
  }

  lemma DistinctTargets(events: seq<RealEvent>, i: nat, j: nat)
    requires Distinct(Ids(events)) && i < j < |events| && events[i].kind.CommitEvent? && events[j].kind.CommitEvent?
    ensures events[i].target != events[j].target
  {
    assert Ids(events)[i] != Ids(events)[j];
  }

  /** A poll repeats nothing while every report ahead of the last listing is remembered. */
  lemma StillNoneTwice(w: Watermark, log: seq<RealEvent>, more: seq<RealEvent>, before: Sight, after: Sight,
                       since: map<string, nat>, synthetic: set<string>)
    requires SeesWell(before) && SeesWell(after) && Follows(before, after) && since.Keys == before.listed.Keys
    requires NoSharedHistory(after.paged) && Sound(log, before.paged, since, synthetic)
    requires NoneTwice(log) && Remembered(w, log, before.listed) && Adds(more, w.responded, before, after, synthetic)
    ensures NoneTwice(log + more)
  {
    assert Distinct(Ids(more));
    hide SeesWell, Follows, NoSharedHistory, Sound, Adds, Ids, Remembered, Distinct;
    forall i, j | 0 <= i < j < |log + more| && (log + more)[i].kind.CommitEvent? && (log + more)[j].kind.CommitEvent?
      ensures (log + more)[i].target != (log + more)[j].target
    {
      if i >= |log| {
        DistinctTargets(more, i - |log|, j - |log|);
      } else if j >= |log| {
        NewIsNotInLog(w, log, more, before, after, since, synthetic, more[j - |log|], log[i]);
      }
    }
  }

  lemma PollKeepsNoneTwice(w: Watermark, log: seq<RealEvent>, before: Sight, after: Sight, since: map<string, nat>,
                           synthetic: set<string>)
    requires Current(w, log, before, since, synthetic) && SeesWell(after) && Follows(before, after)
    requires NoSharedHistory(after.paged) && NoneTwice(log) && Remembered(w, log, before.listed)
    ensures NoneTwice(log + Reported(w, Polled(w, after), synthetic))
  {
    hide Polled, Reported, SeesWell, Follows, Marks, NoSharedHistory, Ids, Complete, Sound, Adds, NoneTwice, Remembered;
    PollAdds(w, before, after, synthetic);
    StillNoneTwice(w, log, Reported(w, Polled(w, after), synthetic), before, after, since, synthetic);
  }

  /** A report ahead of its listing is a new commit for the next poll. */
  lemma AheadIsMetAgain(e: RealEvent, before: Sight, after: Sight, since: map<string, nat>, synthetic: set<string>)
    requires SeesWell(before) && SeesWell(after) && Follows(before, after) && since.Keys == before.listed.Keys
    requires e.kind.CommitEvent? && IsWatched(e, before.paged, since, synthetic) && !InListing(e, before.listed)
    ensures IsNewCommit(e, before, after, synthetic)
  {
    hide SeesWell, Follows, Says;
    StillListed(before, after);
    KnownRef(before, after, e.ref);
    var j :| since[e.ref] <= j < |before.paged[e.ref]| && Says(e, before.paged[e.ref][j]);
    NotInMeansBeyond(before.listed[e.ref], before.paged[e.ref], e, j);
    assert after.paged[e.ref][j] == before.paged[e.ref][j];
  }

  lemma NotInMeansBeyond(prefix: seq<CommitMeta>, commits: seq<CommitMeta>, e: RealEvent, j: nat)
    requires prefix <= commits && j < |commits| && Says(e, commits[j])
    requires !exists i :: 0 <= i < |prefix| && Says(e, prefix[i])
    ensures |prefix| <= j
  {
    hide Says;
    assert forall i | 0 <= i < |prefix| :: prefix[i] == commits[i] && !Says(e, prefix[i]);
  }

  /** A report ahead of its listing that is forgotten is reported again by the next poll. */
  lemma ForgottenIsRepeated(w: Watermark, log: seq<RealEvent>, before: Sight, after: Sight, since: map<string, nat>,
                            synthetic: set<string>, e: RealEvent)
    requires Current(w, log, before, since, synthetic) && SeesWell(after) && Follows(before, after)
    requires e in log && e.kind.CommitEvent? && !InListing(e, before.listed) && EventId(e) !in w.responded
    ensures !NoneTwice(log + Reported(w, Polled(w, after), synthetic))
  {
    hide Polled, Reported, SeesWell, Follows, Marks, Complete, Sound, IsWatched, InListing, EventId, IsNewCommit, Adds,
      NoneTwice, Ids;
    var more := Reported(w, Polled(w, after), synthetic);
    PollAdds(w, before, after, synthetic);
    SoundAt(log, before.paged, since, synthetic, e);
    AheadIsMetAgain(e, before, after, since, synthetic);
    AddsNew(more, w.responded, before, after, synthetic, e);
    RepeatedId(log, more, e);
  }

  lemma SoundAt(log: seq<RealEvent>, room: Room, since: map<string, nat>, synthetic: set<string>, e: RealEvent)
    requires Sound(log, room, since, synthetic) && e in log && e.kind.CommitEvent?
    ensures IsWatched(e, room, since, synthetic)
  {
  }

  lemma AddsNew(more: seq<RealEvent>, responded: seq<string>, before: Sight, after: Sight, synthetic: set<string>, e: RealEvent)
    requires SeesWell(before) && SeesWell(after) && Adds(more, responded, before, after, synthetic)
    requires IsNewCommit(e, before, after, synthetic) && EventId(e) !in responded
    ensures EventId(e) in Ids(more)
  {
    hide SeesWell, IsNewCommit, IsNewFork, EventId, Ids, Distinct;
  }

  lemma RepeatedId(log: seq<RealEvent>, more: seq<RealEvent>, e: RealEvent)
    requires e in log && e.kind.CommitEvent? && EventId(e) in Ids(more)
    ensures !NoneTwice(log + more)
  {
    hide EventId;
    var k :| 0 <= k < |more| && Ids(more)[k] == EventId(e);
    SameIdSameTarget(e, more[k]);
    var i :| 0 <= i < |log| && log[i] == e;
    assert (log + more)[i] == e && (log + more)[|log| + k] == more[k];
  }

  /** Only this poll's reports can be ahead of its listing. */
  lemma AheadIsNew(log: seq<RealEvent>, more: seq<RealEvent>, before: Sight, after: Sight, since: map<string, nat>,
                   synthetic: set<string>)
    requires SeesWell(before) && SeesWell(after) && Follows(before, after) && since.Keys == before.listed.Keys
    requires Sound(log, before.paged, since, synthetic)
    ensures forall e | e in log + more && e.kind.CommitEvent? && !InListing(e, after.listed) :: e in more
  {
    hide SeesWell, Follows, IsWatched, InListing;
    forall e | e in log && e.kind.CommitEvent?
      ensures InListing(e, after.listed)
    {
      ReportedIsListed(e, before, after, since, synthetic);
    }
  }

  /** After the poll of sight `k` every report ahead of its listing is remembered. */
  ghost predicate RemembersAt(run: seq<Sight>, synthetic: set<string>, k: nat)
    requires k < |run|
  {
    Remembered(MarkOf(run[..k + 1], synthetic), LogOf(run[..k + 1], synthetic), run[k].listed)
  }

  /** So it is after every poll that another one follows. */
  ghost predicate AheadRemembered(run: seq<Sight>, synthetic: set<string>) {
    forall k | 0 <= k < |run| - 1 :: RemembersAt(run, synthetic, k)
  }

  lemma RemembersInPrefix(run: seq<Sight>, synthetic: set<string>, n: nat, k: nat)
    requires k < n <= |run|
    ensures RemembersAt(run[..n], synthetic, k) == RemembersAt(run, synthetic, k)
  {
    hide MarkOf, LogOf, Remembered;
    assert run[..n][..k + 1] == run[..k + 1];
  }

  lemma NoSharedBefore(before: Sight, after: Sight)
    requires SeesWell(after) && Follows(before, after) && NoSharedHistory(after.paged)
    ensures NoSharedHistory(before.paged)
  {
    hide HashesAgree, Chains, Lists, NoEmptyRef;
    forall r, s, i, j | r in before.paged && s in before.paged && 0 <= i < |before.paged[r]| && 0 <= j < |before.paged[s]| &&
                        before.paged[r][i].hash == before.paged[s][j].hash
      ensures r == s && i == j
    {
      assert after.paged[r][i] == before.paged[r][i] && after.paged[s][j] == before.paged[s][j];
    }
  }

  lemma {:induction false} RememberedRunIsOnce(run: seq<Sight>, synthetic: set<string>)
    requires GrowingRun(run) && NoSharedHistory(run[|run| - 1].paged) && AheadRemembered(run, synthetic)
    ensures NoneTwice(LogOf(run, synthetic))
  {
    hide MarkOf, LogOf, ReportedAt, Polled, NoneTwice, Advanced, Reported, Follows, SeesWell, NoSharedHistory, RemembersAt,
      Current, Remembered;
    LastPoll(run, synthetic);
    var init, last := run[..|run| - 1], run[|run| - 1];
    if |run| == 1 {
      assert init == [];
      NoPollYet(synthetic);
      BaselineMarks(last, synthetic);
      NothingTwice();
    } else {
      InitGrows(run);
      NoSharedBefore(run[|run| - 2], last);
      forall k | 0 <= k < |init|
        ensures RemembersAt(init, synthetic, k)
      {
        RemembersInPrefix(run, synthetic, |init|, k);
        assert RemembersAt(run, synthetic, k);
      }
      RememberedRunIsOnce(init, synthetic);
      RunIsCurrent(init, synthetic);
      LastRemembers(init, synthetic);
      PollKeepsNoneTwice(MarkOf(init, synthetic), LogOf(init, synthetic), init[|init| - 1], last, WatchedSince(init), synthetic);
    }
  }

  lemma LastRemembers(run: seq<Sight>, synthetic: set<string>)
    requires run != []
    ensures RemembersAt(run, synthetic, |run| - 1) <==>
              Remembered(MarkOf(run, synthetic), LogOf(run, synthetic), run[|run| - 1].listed)
  {
    hide MarkOf, LogOf, Remembered;
    assert run[..|run|] == run;
  }

  lemma NothingTwice()
    ensures NoneTwice([])
  {
  }

  lemma {:induction false} LogsGrow(run: seq<Sight>, synthetic: set<string>, n: nat)
    requires n <= |run|
    ensures LogOf(run[..n], synthetic) <= LogOf(run, synthetic)
    decreases |run|
  {
    hide LogOf, MarkOf, ReportedAt, Polled, Reported, Advanced;
    if n == |run| {
      assert run[..n] == run;
    } else {
      LastPoll(run, synthetic);
      LogsGrow(run[..|run| - 1], synthetic, n);
      assert run[..|run| - 1][..n] == run[..n];
    }
  }

  lemma NoneTwiceInPrefix(log: seq<RealEvent>, longer: seq<RealEvent>)
    requires log <= longer && NoneTwice(longer)
    ensures NoneTwice(log)
  {
  }

  lemma PrefixGrows(run: seq<Sight>, n: nat)
    requires GrowingRun(run) && 0 < n <= |run|
    ensures GrowingRun(run[..n])
  {
    hide SeesWell, Follows;
    assert forall i | 0 <= i < n :: run[..n][i] == run[i];
  }

  /** When the poll of sight `k` left something ahead forgotten, the next one repeats it. */
  lemma ForgottenAtRepeats(run: seq<Sight>, synthetic: set<string>, k: nat)
    requires GrowingRun(run) && k < |run| - 1 && !RemembersAt(run, synthetic, k)
    ensures !NoneTwice(LogOf(run[..k + 2], synthetic))
  {
    var init, next := run[..k + 1], run[..k + 2];
    PrefixGrows(run, k + 1);
    PrefixGrows(run, k + 2);
    assert next[..|next| - 1] == init && next[|next| - 1] == run[k + 1] && init[|init| - 1] == run[k];
    InitGrows(next);
    LastPoll(next, synthetic);
    RunIsCurrent(init, synthetic);
    var e :| e in LogOf(init, synthetic) && e.kind.CommitEvent? && !InListing(e, run[k].listed) &&
             EventId(e) !in MarkOf(init, synthetic).responded;
    hide LogOf, MarkOf, ReportedAt, Polled, Reported, Advanced, NoneTwice, Current, SeesWell, Follows, GrowingRun, InListing,
      EventId;
    ForgottenIsRepeated(MarkOf(init, synthetic), LogOf(init, synthetic), run[k], run[k + 1], WatchedSince(init), synthetic, e);
  }

  /** Exactly once, exactly when: without shared history no commit of a run is reported
      twice if and only if, after every poll that another one follows, each report ahead of
      its listing is still in the dedup log. With `EveryNewCommit` the commit events are
      then the watched commits, once each. */
  lemma EveryNewCommitOnceIff(run: seq<Sight>, synthetic: set<string>)
    requires GrowingRun(run) && NoSharedHistory(run[|run| - 1].paged)
    ensures NoneTwice(LogOf(run, synthetic)) <==> AheadRemembered(run, synthetic)
  {
    hide LogOf, NoneTwice, RemembersAt, GrowingRun, NoSharedHistory;
    if AheadRemembered(run, synthetic) {
      RememberedRunIsOnce(run, synthetic);
    }
    if NoneTwice(LogOf(run, synthetic)) {
      forall k | 0 <= k < |run| - 1
        ensures RemembersAt(run, synthetic, k)
      {
        LogsGrow(run, synthetic, k + 2);
        NoneTwiceInPrefix(LogOf(run[..k + 2], synthetic), LogOf(run, synthetic));
        if !RemembersAt(run, synthetic, k) {
          ForgottenAtRepeats(run, synthetic, k);
        }
      }
    }
  }

  /** No push lands between the listing of a poll and the pages of the refs it lists. */
  predicate NoPushInside(s: Sight) {
    forall name | name in s.listed && name in s.paged :: s.paged[name] == s.listed[name]
  }

  lemma SoundIsListed(log: seq<RealEvent>, s: Sight, since: map<string, nat>, synthetic: set<string>)
    requires Sound(log, s.paged, since, synthetic) && since.Keys == s.listed.Keys && NoPushInside(s)
    ensures forall e | e in log && e.kind.CommitEvent? :: InListing(e, s.listed)
  {
    hide Says;
    forall e | e in log && e.kind.CommitEvent?
      ensures InListing(e, s.listed)
    {
      assert IsWatched(e, s.paged, since, synthetic);
      var i :| since[e.ref] <= i < |s.paged[e.ref]| && Says(e, s.paged[e.ref][i]);
      assert s.listed[e.ref][i] == s.paged[e.ref][i];
    }
  }

  /** When no push lands inside a poll, each commit is reported once, however many are. */
  lemma OnceWithoutPushesInside(run: seq<Sight>, synthetic: set<string>)
    requires GrowingRun(run) && NoSharedHistory(run[|run| - 1].paged)
    requires forall k | 0 <= k < |run| :: NoPushInside(run[k])
    ensures NoneTwice(LogOf(run, synthetic))
  {
    hide LogOf, NoneTwice, NoSharedHistory, NoPushInside, GrowingRun, RemembersAt;
    forall k | 0 <= k < |run| - 1
      ensures RemembersAt(run, synthetic, k)
    {
      NothingAheadAt(run, synthetic, k);
    }
    EveryNewCommitOnceIff(run, synthetic);
  }

  lemma NothingAheadAt(run: seq<Sight>, synthetic: set<string>, k: nat)
    requires GrowingRun(run) && k < |run| && NoPushInside(run[k])
    ensures RemembersAt(run, synthetic, k)
  {
    hide LogOf, MarkOf, Sound, Complete, InListing, WatchedSince, SeesWell, Follows;
    PrefixGrows(run, k + 1);
    EveryNewCommit(run[..k + 1], synthetic);
    assert run[..k + 1][k] == run[k];
    SoundIsListed(LogOf(run[..k + 1], synthetic), run[k], WatchedSince(run[..k + 1]), synthetic);
  }

  /** A poll that reports at most 512 events remembers all it reported ahead. */
  lemma SmallPollRemembers(w: Watermark, log: seq<RealEvent>, before: Sight, after: Sight, since: map<string, nat>,
                           synthetic: set<string>)
    requires Current(w, log, before, since, synthetic) && SeesWell(after) && Follows(before, after)
    requires |Reported(w, Polled(w, after), synthetic)| <= RESPONDED_EVENT_ID_CAP
    ensures Remembered(Advanced(w, Polled(w, after), synthetic), log + Reported(w, Polled(w, after), synthetic), after.listed)
  {
    assert w.initialized;
    hide Polled, Reported, Advanced, SeesWell, Follows, Marks, Ids, Capped, Complete, Sound;
    AdvancedFields(w, after, synthetic);
    AllRemembered(w.responded, Reported(w, Polled(w, after), synthetic));
    AheadIsNew(log, Reported(w, Polled(w, after), synthetic), before, after, since, synthetic);
    hide InListing, EventId;
  }

  lemma SmallPollRemembersAt(run: seq<Sight>, synthetic: set<string>, k: nat)
    requires GrowingRun(run) && k < |run| && |ReportedAt(run, synthetic, k)| <= RESPONDED_EVENT_ID_CAP
    ensures RemembersAt(run, synthetic, k)
  {
    hide LogOf, MarkOf, ReportedAt, Polled, Reported, GrowingRun, RemembersAt;
    var next := run[..k + 1];
    PrefixGrows(run, k + 1);
    ReportedInPrefix(run, synthetic, k);
    SmallLastPollRemembers(next, synthetic);
    RemembersInPrefix(run, synthetic, k + 1, k);
  }

  lemma ReportedInPrefix(run: seq<Sight>, synthetic: set<string>, k: nat)
    requires k < |run|
    ensures ReportedAt(run[..k + 1], synthetic, k) == ReportedAt(run, synthetic, k)
  {
    hide MarkOf, Polled, Reported;
    assert run[..k + 1][..k] == run[..k];
  }

  lemma SmallLastPollRemembers(run: seq<Sight>, synthetic: set<string>)
    requires GrowingRun(run) && |ReportedAt(run, synthetic, |run| - 1)| <= RESPONDED_EVENT_ID_CAP
    ensures RemembersAt(run, synthetic, |run| - 1)
  {
    hide LogOf, MarkOf, Polled, Reported, Advanced, Current, SeesWell, Follows, Remembered, RemembersAt;
    var init, last := run[..|run| - 1], run[|run| - 1];
    LastPoll(run, synthetic);
    LastRemembers(run, synthetic);
    if |run| == 1 {
      assert init == [];
      NoPollYet(synthetic);
      BaselineMarks(last, synthetic);
      NothingAhead(MarkOf(run, synthetic), last.listed);
    } else {
      InitGrows(run);
      RunIsCurrent(init, synthetic);
      SmallPollRemembers(MarkOf(init, synthetic), LogOf(init, synthetic), init[|init| - 1], last, WatchedSince(init), synthetic);
    }
  }

  lemma NothingAhead(w: Watermark, listed: Room)
    ensures Remembered(w, [], listed)
  {
  }

  /** When no poll but the last reports more than 512 events, each commit is reported once. */
  lemma OnceWithinTheLog(run: seq<Sight>, synthetic: set<string>)
    requires GrowingRun(run) && NoSharedHistory(run[|run| - 1].paged)
    requires forall k | 0 <= k < |run| - 1 :: |ReportedAt(run, synthetic, k)| <= 512
    ensures NoneTwice(LogOf(run, synthetic))
  {
    hide LogOf, NoneTwice, NoSharedHistory, GrowingRun, ReportedAt, RemembersAt;
    forall k | 0 <= k < |run| - 1
      ensures RemembersAt(run, synthetic, k)
    {
      SmallPollRemembersAt(run, synthetic, k);
    }
    EveryNewCommitOnceIff(run, synthetic);
  }

  // ------------------------------------------------------------ how much a poll reports

  /** How many of the first `n` listed refs are fetched. */
  function FetchCount(w: Watermark, refs: seq<RefEntry>, n: nat): (count: nat)
    requires n <= |refs|
  {
    if n == 0 then 0 else FetchCount(w, refs, n - 1) + (if NeedsFetch(w, refs[n - 1]) then 1 else 0)
  }

  lemma {:induction false} DedupeShrinks(responded: seq<string>, candidates: seq<RealEvent>)
    ensures |Dedupe(responded, candidates)| <= |candidates|
  {
    if candidates != [] {
      DedupeShrinks(responded, candidates[..|candidates| - 1]);
    }
  }

  lemma {:induction false} OnePerCommit(ref: string, commits: seq<CommitMeta>, synthetic: set<string>, n: nat)
    requires n <= |commits|
    ensures |CommitCandidates(ref, commits, synthetic, n)| <= n
  {
    if n > 0 {
      OnePerCommit(ref, commits, synthetic, n - 1);
    }
  }

  /** Nothing is accepted for a ref that is not fetched, and never more than ten. */
  lemma AcceptedAtMostTen(w: Watermark, s: Sight, i: nat)
    requires UniqueNames(s.refs) && i < |s.refs|
    ensures |CommitsOf(Polled(w, s), s.refs[i].name)| <= (if NeedsFetch(w, s.refs[i]) then MAX_ACCEPTED_COMMITS_PER_REF else 0)
  {
    var name := s.refs[i].name;
    SnapshotCommitsAt(s.refs, FetchedPages(w, s), w, |s.refs|, name);
    if name in s.paged {
      FetchedPage(w, s, i);
    }
  }

  lemma RefAtMostTen(w: Watermark, s: Sight, synthetic: set<string>, forks: seq<string>, i: nat)
    requires UniqueNames(s.refs) && i < |s.refs|
    ensures |RefCandidates(forks, s.refs[i], CommitsOf(Polled(w, s), s.refs[i].name), synthetic)|
         <= (if NeedsFetch(w, s.refs[i]) then MAX_ACCEPTED_COMMITS_PER_REF else 0)
  {
    hide Polled, CommitsOf, HeadCommit, NeedsFetch;
    var ref := s.refs[i];
    var commits := CommitsOf(Polled(w, s), ref.name);
    AcceptedAtMostTen(w, s, i);
    OnePerCommit(ref.name, commits, synthetic, |commits|);
    NoHeadOfNothing(ref, synthetic);
  }

  lemma {:induction false} CandidatesAtMostTenEach(w: Watermark, s: Sight, synthetic: set<string>, n: nat)
    requires UniqueNames(s.refs) && n <= |s.refs|
    ensures |Candidates(w.knownForks, Polled(w, s), synthetic, n)| <= MAX_ACCEPTED_COMMITS_PER_REF * FetchCount(w, s.refs, n)
  {
    hide Polled, Forks, CommitsOf, RefCandidates, NeedsFetch;
    if n > 0 {
      CandidatesAtMostTenEach(w, s, synthetic, n - 1);
      RefAtMostTen(w, s, synthetic, Forks(w.knownForks, s.refs, n - 1), n - 1);
    }
  }

  lemma NoHeadOfNothing(ref: RefEntry, synthetic: set<string>)
    ensures ForkCandidate(ref, [], synthetic) == []
  {
  }

  /** A poll reports at most ten events for every ref it fetches, so one that fetches at
      most 51 stays within what the log remembers. */
  lemma ReportsAtMostTenEach(w: Watermark, s: Sight, synthetic: set<string>)
    requires UniqueNames(s.refs)
    ensures |Reported(w, Polled(w, s), synthetic)| <= 10 * FetchCount(w, s.refs, |s.refs|)
  {
    CandidatesAtMostTenEach(w, s, synthetic, |s.refs|);
    DedupeShrinks(w.responded, Candidates(w.knownForks, Polled(w, s), synthetic, |s.refs|));
    hide Polled, Candidates, Dedupe;
  }

  // ------------------------------------------------------------------ a ref's first poll

  lemma {:induction false} RoomsExtend(run: seq<Sight>, k: nat, name: string)
    requires GrowingRun(run) && k < |run| && name in run[k].listed
    ensures name in run[|run| - 1].listed && run[k].listed[name] <= run[|run| - 1].listed[name]
    decreases |run|
  {
    hide SeesWell, Follows;
    if k < |run| - 1 {
      InitGrows(run);
      RoomsExtend(run[..|run| - 1], k, name);
      StillListed(run[|run| - 2], run[|run| - 1]);
      KnownRef(run[|run| - 2], run[|run| - 1], name);
    }
  }

  /** A ref keeps being watched from where its first poll put it. */
  lemma {:induction false} SinceFirstPoll(run: seq<Sight>, k: nat, name: string)
    requires GrowingRun(run) && 0 < k < |run| && name in run[k].listed && name !in run[k - 1].listed
    ensures name in run[k].paged && name in WatchedSince(run)
    ensures WatchedSince(run)[name] ==
            if IsFork(name) || |run[k].paged[name]| != |run[k].listed[name]| then |run[k].listed[name]|
            else |run[k].listed[name]| - 1
    decreases |run|
  {
    hide SeesWell, Follows, Watched;
    InitGrows(run);
    var init, last := run[..|run| - 1], run[|run| - 1];
    if k < |run| - 1 {
      SinceFirstPoll(init, k, name);
      RoomsExtend(run, k, name);
    } else {
      assert init[|init| - 1] == run[k - 1];
    }
    WatchedAt(WatchedSince(init), last, name);
  }

  /** The exact condition for a new ref: with nothing shared, the real head a ref was first
      listed with is reported in the run, then or ever after, exactly when the page of
      that poll starts at it. A push in between loses it for good. */
  lemma NewHeadIsReportedIff(run: seq<Sight>, synthetic: set<string>, k: nat, name: string)
    requires GrowingRun(run) && NoSharedHistory(run[|run| - 1].paged)
    requires 0 < k < |run| && name in run[k].listed && name !in run[k - 1].listed && !IsFork(name)
    requires run[k].listed[name] != [] && Tip(run[k].listed, name).author !in synthetic
    ensures name in run[k].paged && run[k].paged[name] != []
    ensures IsReported(LogOf(run, synthetic), Tip(run[k].listed, name)) <==>
              PageOf(run[k].paged[name])[0].hash == Tip(run[k].listed, name).hash
  {
    hide LogOf, Complete, Sound, Follows, SeesWell, WatchedSince, NoSharedHistory, Says, IsReported;
    assert SeesWell(run[k]) && SeesWell(run[|run| - 1]);
    EveryNewCommit(run, synthetic);
    RoomsExtend(run, k, name);
    SinceFirstPoll(run, k, name);
    PageTop(run[k], name);
    hide GrowingRun;
    ReportedIffWatched(LogOf(run, synthetic), run[|run| - 1], WatchedSince(run), synthetic, name, |run[k].listed[name]| - 1);
  }

  /** A page starts at the listed head exactly when nothing was pushed in between. */
  lemma PageTop(s: Sight, name: string)
    requires SeesWell(s) && name in s.listed
    ensures name in s.paged && s.listed[name] != [] && s.paged[name] != []
    ensures PageOf(s.paged[name])[0].hash == Tip(s.listed, name).hash <==> |s.paged[name]| == |s.listed[name]|
  {
    hide HashesAgree, Lists;
    assert UniqueHashes(s.paged[name]);
    assert Tip(s.listed, name) == s.paged[name][|s.listed[name]| - 1];
  }

  /** With nothing shared a listed real commit is reported exactly when it is watched. */
  lemma ReportedIffWatched(log: seq<RealEvent>, s: Sight, since: map<string, nat>, synthetic: set<string>, name: string, i: nat)
    requires SeesWell(s) && NoSharedHistory(s.paged)
    requires Complete(log, s.listed, since, synthetic) && Sound(log, s.paged, since, synthetic)
    requires name in s.listed && name in since && i < |s.listed[name]| && s.listed[name][i].author !in synthetic
    ensures IsReported(log, s.listed[name][i]) <==> since[name] <= i
  {
    var c := s.listed[name][i];
    assert name in s.paged && s.paged[name][i] == c;
    hide SeesWell, NoSharedHistory, Says;
    if IsReported(log, c) {
      var e :| e in log && e.kind.CommitEvent? && Says(e, c);
      var j :| since[e.ref] <= j < |s.paged[e.ref]| && Says(e, s.paged[e.ref][j]);
      OnlyPlace(s.paged, e, name, i, j);
    }
  }

  lemma OnlyPlace(room: Room, e: RealEvent, name: string, i: nat, j: nat)
    requires NoSharedHistory(room) && name in room && e.ref in room && i < |room[name]| && j < |room[e.ref]|
    requires Says(e, room[name][i]) && Says(e, room[e.ref][j])
    ensures e.ref == name && i == j
  {
  }

  // ---------------------------------------------------------------------- fork events

  /** What the fork event of every ref first listed after the baseline would say: the
      listed head, and the author at the top of the page. */
  function Arrived(arrivals: map<string, CommitMeta>, before: Sight, after: Sight): (next: map<string, CommitMeta>)
    requires SeesWell(after)
  {
    map name | name in after.listed && (name in arrivals || name !in before.listed) ::
      if name in arrivals then arrivals[name]
      else CommitMeta(Tip(after.listed, name).hash, Tip(after.paged, name).author)
  }

  /** The fork event of a fork ref that arrived with a real author on top. */
  predicate IsArrival(e: RealEvent, arrivals: map<string, CommitMeta>, synthetic: set<string>) {
    e.kind.ForkEvent? && e.ref in arrivals && IsFork(e.ref) && Says(e, arrivals[e.ref]) && e.author !in synthetic
  }

  /** The fork events are exactly those arrivals. */
  ghost predicate ForksExactly(log: seq<RealEvent>, listed: Room, arrivals: map<string, CommitMeta>, synthetic: set<string>) {
    && arrivals.Keys <= listed.Keys
    && forall e: RealEvent | e.kind.ForkEvent? :: e in log <==> IsArrival(e, arrivals, synthetic)
  }

  /** A new fork is itself in what the poll adds. */
  lemma NewForkIsAdded(e: RealEvent, log: seq<RealEvent>, more: seq<RealEvent>, responded: seq<string>,
                       before: Sight, after: Sight, arrivals: map<string, CommitMeta>, synthetic: set<string>)
    requires SeesWell(before) && SeesWell(after) && Adds(more, responded, before, after, synthetic)
    requires ForksExactly(log, before.listed, arrivals, synthetic) && forall id | id in responded :: id in Ids(log)
    requires IsNewFork(e, before, after, synthetic)
    ensures e in more
  {
    NewCommitsAreCommits(before, after, synthetic);
    hide EventId, IsNewCommit, SeesWell;
    assert forall k | 0 <= k < |log| :: log[k] in log;
    if EventId(e) in responded {
      var k :| 0 <= k < |log| && Ids(log)[k] == EventId(e);
      SameIdSameRef(e, log[k]);
    } else {
      var k :| 0 <= k < |more| && Ids(more)[k] == EventId(e);
      SameIdSameRef(e, more[k]);
      assert more[k] in more;
      assert e == more[k];
    }
  }

  lemma NewCommitsAreCommits(before: Sight, after: Sight, synthetic: set<string>)
    requires SeesWell(before) && SeesWell(after)
    ensures forall e | IsNewCommit(e, before, after, synthetic) :: e.kind.CommitEvent?
  {
    hide SeesWell;
  }

  lemma ArrivedAt(arrivals: map<string, CommitMeta>, before: Sight, after: Sight, name: string)
    requires SeesWell(after) && arrivals.Keys <= before.listed.Keys && forall n | n in before.listed :: n in after.listed
    ensures name in Arrived(arrivals, before, after) <==> name in arrivals || (name in after.listed && name !in before.listed)
    ensures name in arrivals ==> Arrived(arrivals, before, after)[name] == arrivals[name]
    ensures name in after.listed && name !in before.listed ==>
              Arrived(arrivals, before, after)[name] ==
              CommitMeta(Tip(after.listed, name).hash, Tip(after.paged, name).author)
  {
    hide HashesAgree, Lists, Chains;
  }

  lemma PollKeepsForks(log: seq<RealEvent>, more: seq<RealEvent>, responded: seq<string>,
                       before: Sight, after: Sight, arrivals: map<string, CommitMeta>, synthetic: set<string>)
    requires SeesWell(before) && SeesWell(after) && Follows(before, after)
    requires Adds(more, responded, before, after, synthetic)
    requires ForksExactly(log, before.listed, arrivals, synthetic) && forall id | id in responded :: id in Ids(log)
    ensures ForksExactly(log + more, after.listed, Arrived(arrivals, before, after), synthetic)
  {
    NewCommitsAreCommits(before, after, synthetic);
    StillListed(before, after);
    var next := Arrived(arrivals, before, after);
    assert next.Keys <= after.listed.Keys;
    hide SeesWell, Follows, Arrived, Ids, Distinct, IsNewCommit, EventId;
    forall e: RealEvent | e.kind.ForkEvent?
      ensures e in log + more <==> IsArrival(e, next, synthetic)
    {
      ArrivedAt(arrivals, before, after, e.ref);
      if IsNewFork(e, before, after, synthetic) {
        NewForkIsAdded(e, log, more, responded, before, after, arrivals, synthetic);
      }
    }
  }

  function Arrivals(run: seq<Sight>): (arrivals: map<string, CommitMeta>)
    requires run != [] && forall i | 0 <= i < |run| :: SeesWell(run[i])
  {
    if |run| == 1 then map[]
    else
      assert SeesWell(run[|run| - 1]);
      Arrived(Arrivals(run[..|run| - 1]), run[|run| - 2], run[|run| - 1])
  }

  /** End to end for forks: over a whole run the fork events are exactly one for every
      fork ref first listed after the baseline with a real author on top of its page. It
      names the listed head; `NewForkIsRightIff` says when that is the right event. */
  lemma {:induction false} EveryNewForkOnce(run: seq<Sight>, synthetic: set<string>)
    requires GrowingRun(run)
    ensures ForksExactly(LogOf(run, synthetic), run[|run| - 1].listed, Arrivals(run), synthetic)
    ensures ForksOnce(LogOf(run, synthetic), MarkOf(run, synthetic).knownForks)
  {
    ForksOnceInRun(run, synthetic);
    hide MarkOf, LogOf, ReportedAt, Polled, Advanced, Reported, Arrived, ForksExactly, ForksOnce, Follows, SeesWell, Current;
    LastPoll(run, synthetic);
    var init, last := run[..|run| - 1], run[|run| - 1];
    if |run| == 1 {
      assert init == [];
      NoPollYet(synthetic);
      BaselineMarks(last, synthetic);
      NoForksYet(last.listed, synthetic);
    } else {
      InitGrows(run);
      EveryNewForkOnce(init, synthetic);
      RunIsCurrent(init, synthetic);
      ForkStep(MarkOf(init, synthetic), LogOf(init, synthetic), init[|init| - 1], last, WatchedSince(init), Arrivals(init), synthetic);
    }
  }

  lemma ForksOnceInRun(run: seq<Sight>, synthetic: set<string>)
    ensures ForksOnce(LogOf(run, synthetic), MarkOf(run, synthetic).knownForks)
  {
    hide ForksOnce;
    ForksReportedOnce(Snapshots(run, synthetic));
  }

  lemma {:induction false} ArrivalAtFirstPoll(run: seq<Sight>, k: nat, name: string)
    requires GrowingRun(run) && 0 < k < |run| && name in run[k].listed && name !in run[k - 1].listed
    ensures name in run[k].paged && run[k].listed[name] != [] && run[k].paged[name] != [] && name in Arrivals(run)
    ensures Arrivals(run)[name] == CommitMeta(Tip(run[k].listed, name).hash, Tip(run[k].paged, name).author)
    ensures Arrivals(run).Keys <= run[|run| - 1].listed.Keys
    decreases |run|
  {
    hide SeesWell, Follows, Arrived;
    InitGrows(run);
    var init, last := run[..|run| - 1], run[|run| - 1];
    assert init[|init| - 1] == run[|run| - 2];
    ArrivalsAreListed(init);
    StillListed(run[|run| - 2], last);
    if k < |run| - 1 {
      ArrivalAtFirstPoll(init, k, name);
    }
    PageTop(run[k], name);
    ArrivalsAreListed(run);
    ArrivedAt(Arrivals(init), run[|run| - 2], last, name);
  }

  lemma {:induction false} ArrivalsAreListed(run: seq<Sight>)
    requires GrowingRun(run)
    ensures Arrivals(run).Keys <= run[|run| - 1].listed.Keys
  {
  }

  /** The exact condition for a new fork ref: a fork event for it is reported, in its first
      poll or ever, exactly when the author on top of the page of that poll is real. */
  lemma NewForkIsReportedIff(run: seq<Sight>, synthetic: set<string>, k: nat, name: string)
    requires GrowingRun(run) && 0 < k < |run| && name in run[k].listed && name !in run[k - 1].listed && IsFork(name)
    ensures name in run[k].paged && run[k].paged[name] != []
    ensures (exists e :: e in LogOf(run, synthetic) && e.kind.ForkEvent? && e.ref == name) <==>
              Tip(run[k].paged, name).author !in synthetic
  {
    EveryNewForkOnce(run, synthetic);
    ArrivalAtFirstPoll(run, k, name);
    hide LogOf, MarkOf, Arrivals, SeesWell, Follows, ForksOnce;
    var c := Arrivals(run)[name];
    var e := RealEvent(ForkEvent, name, c.hash, c.author);
    assert e in LogOf(run, synthetic) <==> IsArrival(e, Arrivals(run), synthetic);
  }

  lemma NoForksYet(room: Room, synthetic: set<string>)
    ensures ForksExactly([], room, map[], synthetic)
  {
  }

  lemma ForkStep(w: Watermark, log: seq<RealEvent>, before: Sight, after: Sight, since: map<string, nat>,
                 arrivals: map<string, CommitMeta>, synthetic: set<string>)
    requires Current(w, log, before, since, synthetic) && SeesWell(after) && Follows(before, after)
    requires ForksExactly(log, before.listed, arrivals, synthetic)
    ensures ForksExactly(log + Reported(w, Polled(w, after), synthetic), after.listed, Arrived(arrivals, before, after), synthetic)
  {
    hide Polled, Reported, Marks, Sound, Complete, Adds, Arrived, ForksExactly, SeesWell, Follows, Ids;
    PollAdds(w, before, after, synthetic);
    PollKeepsForks(log, Reported(w, Polled(w, after), synthetic), w.responded, before, after, arrivals, synthetic);
  }
}
