/** Runs of `observe` from the fresh watermark over arbitrary snapshots: the bounded
    dedup log, one fork event per fork ref, and the fork inventory. */
module ObserverRuns {
  import opened Observer
  import opened Sequences
  import Scheduler

  datatype Poll = Poll(snapshot: Snapshot, synthetic: set<string>)

  function After(polls: seq<Poll>): (w: Watermark) {
    if polls == [] then FRESH
    else
      var last := polls[|polls| - 1];
      Advanced(After(polls[..|polls| - 1]), last.snapshot, last.synthetic)
  }

  /** Every event ever reported, in order. */
  function Log(polls: seq<Poll>): (events: seq<RealEvent>) {
    if polls == [] then []
    else
      var last := polls[|polls| - 1];
      Log(polls[..|polls| - 1]) + Reported(After(polls[..|polls| - 1]), last.snapshot, last.synthetic)
  }

  // ------------------------------------------------------------- the bounded log

  lemma {:induction false} DedupeIsNew(responded: seq<string>, candidates: seq<RealEvent>)
    ensures Distinct(Ids(Dedupe(responded, candidates)))
    ensures forall id | id in Ids(Dedupe(responded, candidates)) :: id !in responded
    ensures forall e | e in Dedupe(responded, candidates) :: e in candidates
  {
    if candidates != [] {
      hide EventId;
      var init, e := candidates[..|candidates| - 1], candidates[|candidates| - 1];
      DedupeIsNew(responded, init);
      var before, after := Dedupe(responded, init), Dedupe(responded, candidates);
      assert candidates == init + [e];
      if after != before {
        assert Ids(after) == Ids(before) + [EventId(e)];
      }
    }
  }

  lemma IdsConcat(a: seq<RealEvent>, b: seq<RealEvent>)
    ensures Ids(a + b) == Ids(a) + Ids(b)
  {
  }

  lemma CappedTwice(a: seq<string>, b: seq<string>)
    ensures Capped(Capped(a) + b) == Capped(a + b)
  {
    var n := |a| - RESPONDED_EVENT_ID_CAP;
    if n > 0 {
      assert Capped(a) + b == (a + b)[n..];
    }
  }

  lemma NewIdsStayDistinct(responded: seq<string>, more: seq<string>)
    requires Distinct(responded) && Distinct(more) && forall id | id in more :: id !in responded
    ensures Distinct(Capped(responded + more))
  {
    var all := responded + more;
    forall i, j | 0 <= i < j < |all|
      ensures all[i] != all[j]
    {
      if i < |responded| <= j {
        assert all[i] in responded && all[j] in more;
      }
    }
  }

  lemma PollKeepsTail(w: Watermark, log: seq<RealEvent>, p: Poll)
    requires w.responded == Capped(Ids(log)) && Distinct(w.responded)
    requires !w.initialized ==> log == []
    ensures var events := Reported(w, p.snapshot, p.synthetic);
            var next := Advanced(w, p.snapshot, p.synthetic);
            next.responded == Capped(Ids(log + events)) && Distinct(next.responded)
  {
    hide Dedupe, Candidates, Capped, Ids, Heads, Forks, NamedForks;
    var events := Reported(w, p.snapshot, p.synthetic);
    if w.initialized {
      var candidates := Candidates(w.knownForks, p.snapshot, p.synthetic, |p.snapshot.refs|);
      DedupeIsNew(w.responded, candidates);
      NewIdsStayDistinct(w.responded, Ids(events));
      IdsConcat(log, events);
      CappedTwice(Ids(log), Ids(events));
    } else {
      assert log + events == log;
    }
  }

  /** The watermark's dedup list never repeats an id and is exactly the last 512
      entries of everything ever reported. */
  lemma {:induction false} RespondedIsTheLogTail(polls: seq<Poll>)
    ensures After(polls).responded == Capped(Ids(Log(polls)))
    ensures Distinct(After(polls).responded)
  {
    hide Advanced, Reported, Capped, Ids, Distinct;
    if polls == [] {
      NothingYet();
    } else {
      var init := polls[..|polls| - 1];
      RespondedIsTheLogTail(init);
      if !After(init).initialized {
        UninitializedIsEmpty(init);
      }
      PollKeepsTail(After(init), Log(init), polls[|polls| - 1]);
    }
  }

  /** What the bounded log guarantees for any polls whatever: two reports of one id are
      more than 512 reports apart. */
  lemma {:induction false} RepeatsAreFarApart(polls: seq<Poll>, i: nat, j: nat)
    requires i < j < |Log(polls)| && EventId(Log(polls)[i]) == EventId(Log(polls)[j])
    ensures j - i > 512
    decreases |polls|
  {
    hide Advanced, Reported, EventId;
    assert polls != [];
    var init, last := polls[..|polls| - 1], polls[|polls| - 1];
    var w, log := After(init), Log(init);
    var more := Reported(w, last.snapshot, last.synthetic);
    ReportedIsNew(w, last);
    if j < |log| {
      RepeatsAreFarApart(init, i, j);
    } else {
      RespondedIsTheLogTail(init);
      NewIsNotRecent(w.responded, log, more, i, j);
    }
  }

  /** So the first 513 reports of any run never repeat an id. */
  lemma ShortLogsNeverRepeat(polls: seq<Poll>)
    requires |Log(polls)| <= 513
    ensures Distinct(Ids(Log(polls)))
  {
    hide Log, EventId;
    forall i, j | 0 <= i < j < |Log(polls)|
      ensures Ids(Log(polls))[i] != Ids(Log(polls))[j]
    {
      if EventId(Log(polls)[i]) == EventId(Log(polls)[j]) {
        RepeatsAreFarApart(polls, i, j);
      }
    }
  }

  /** A new report repeats neither another one of its poll nor one still remembered. */
  lemma NewIsNotRecent(responded: seq<string>, log: seq<RealEvent>, more: seq<RealEvent>, i: nat, j: nat)
    requires responded == Capped(Ids(log)) && Distinct(Ids(more)) && forall id | id in Ids(more) :: id !in responded
    requires i < j < |log + more| && |log| <= j
    ensures EventId((log + more)[i]) == EventId((log + more)[j]) ==> j - i > RESPONDED_EVENT_ID_CAP
  {
    hide EventId, Capped;
    assert Ids(more)[j - |log|] == EventId((log + more)[j]);
    if i < |log| {
      RecentIsKept(log, i);
    } else {
      assert Ids(more)[i - |log|] == EventId((log + more)[i]);
    }
  }

  lemma ReportedIsNew(w: Watermark, p: Poll)
    ensures Distinct(Ids(Reported(w, p.snapshot, p.synthetic)))
    ensures forall id | id in Ids(Reported(w, p.snapshot, p.synthetic)) :: id !in w.responded
  {
    hide Candidates, Dedupe, EventId;
    if w.initialized {
      DedupeIsNew(w.responded, Candidates(w.knownForks, p.snapshot, p.synthetic, |p.snapshot.refs|));
    }
  }

  lemma RecentIsKept(log: seq<RealEvent>, i: nat)
    requires i < |log|
    ensures |log| - i <= RESPONDED_EVENT_ID_CAP ==> EventId(log[i]) in Capped(Ids(log))
  {
    hide EventId;
    var ids := Ids(log);
    assert ids[i] == EventId(log[i]);
    if |ids| > RESPONDED_EVENT_ID_CAP >= |ids| - i {
      assert Capped(ids)[i - (|ids| - RESPONDED_EVENT_ID_CAP)] == ids[i];
    }
  }

  /** A poll reports a candidate's id exactly when it is not among the last 512 reports. */
  lemma ReportedIffForgotten(polls: seq<Poll>, p: Poll, id: string)
    requires polls != []
    ensures var w := After(polls);
            var candidates := Candidates(w.knownForks, p.snapshot, p.synthetic, |p.snapshot.refs|);
            id in Ids(Reported(w, p.snapshot, p.synthetic)) <==> id in Ids(candidates) && id !in Capped(Ids(Log(polls)))
  {
    var w := After(polls);
    assert w.initialized;
    RespondedIsTheLogTail(polls);
    hide After, Log, Capped, Candidates;
    var candidates := Candidates(w.knownForks, p.snapshot, p.synthetic, |p.snapshot.refs|);
    DedupeIds(w.responded, candidates, id);
  }

  lemma {:induction false} DedupeIds(responded: seq<string>, candidates: seq<RealEvent>, id: string)
    ensures id in Ids(Dedupe(responded, candidates)) <==> id in Ids(candidates) && id !in responded
  {
    hide EventId;
    if candidates != [] {
      var init, last := candidates[..|candidates| - 1], candidates[|candidates| - 1];
      DedupeIds(responded, init, id);
      assert candidates == init + [last];
      IdsConcat(init, [last]);
      IdsConcat(Dedupe(responded, init), [last]);
      assert Ids([last]) == [EventId(last)];
    }
  }

  lemma NothingYet()
    ensures Capped(Ids([])) == [] && Distinct<string>([])
  {
  }

  // ------------------------------------------------------------------ fork events

  lemma {:induction false} ForksGrow(known: seq<string>, refs: seq<RefEntry>, n: nat)
    requires n <= |refs|
    ensures forall f | f in known :: f in Forks(known, refs, n)
    ensures forall i | 0 <= i < n && IsFork(refs[i].name) :: refs[i].name in Forks(known, refs, n)
    ensures forall f | f in Forks(known, refs, n) :: f in known || (IsFork(f) && exists i :: 0 <= i < n && refs[i].name == f)
    ensures Distinct(known) ==> Distinct(Forks(known, refs, n))
  {
    if n > 0 {
      ForksGrow(known, refs, n - 1);
    }
  }

  lemma {:induction false} CommitCandidatesAreCommits(ref: string, commits: seq<CommitMeta>, synthetic: set<string>, n: nat)
    requires n <= |commits|
    ensures forall e | e in CommitCandidates(ref, commits, synthetic, n) :: e.kind.CommitEvent?
  {
    if n > 0 {
      CommitCandidatesAreCommits(ref, commits, synthetic, n - 1);
    }
  }

  /** A fork candidate is for a fork ref not known before, and known afterwards. */
  lemma {:induction false} ForkCandidatesAreNew(known: seq<string>, snapshot: Snapshot, synthetic: set<string>, n: nat)
    requires n <= |snapshot.refs|
    ensures forall e | e in Candidates(known, snapshot, synthetic, n) && e.kind.ForkEvent? ::
              e.ref !in known && e.ref in Forks(known, snapshot.refs, n)
  {
    if n > 0 {
      var ref := snapshot.refs[n - 1];
      var commits := CommitsOf(snapshot, ref.name);
      ForkCandidatesAreNew(known, snapshot, synthetic, n - 1);
      ForksGrow(known, snapshot.refs, n - 1);
      CommitCandidatesAreCommits(ref.name, commits, synthetic, |commits|);
    }
  }

  /** Fork events name known forks, no two the same. */
  ghost predicate ForksOnce(events: seq<RealEvent>, known: seq<string>) {
    && (forall e | e in events && e.kind.ForkEvent? :: e.ref in known)
    && (forall i, j | 0 <= i < j < |events| && events[i].kind.ForkEvent? && events[j].kind.ForkEvent? ::
          events[i].ref != events[j].ref)
  }

  lemma {:induction false} ForksReportedOnce(polls: seq<Poll>)
    ensures ForksOnce(Log(polls), After(polls).knownForks)
  {
    if polls != [] {
      var init, last := polls[..|polls| - 1], polls[|polls| - 1];
      ForksReportedOnce(init);
      var w, n := After(init), |last.snapshot.refs|;
      if w.initialized {
        var candidates := Candidates(w.knownForks, last.snapshot, last.synthetic, n);
        ForkCandidatesAreNew(w.knownForks, last.snapshot, last.synthetic, n);
        ForksGrow(w.knownForks, last.snapshot.refs, n);
        DedupeIsNew(w.responded, candidates);
        MoreForksOnce(Log(init), Dedupe(w.responded, candidates), w.knownForks, Forks(w.knownForks, last.snapshot.refs, n));
      } else {
        UninitializedIsEmpty(init);
        assert Log(polls) == [];
      }
    }
  }

  lemma UninitializedIsEmpty(polls: seq<Poll>)
    requires !After(polls).initialized
    ensures polls == [] && Log(polls) == []
  {
  }

  lemma MoreForksOnce(log: seq<RealEvent>, more: seq<RealEvent>, known: seq<string>, forks: seq<string>)
    requires ForksOnce(log, known) && Distinct(Ids(more))
    requires forall f | f in known :: f in forks
    requires forall e | e in more && e.kind.ForkEvent? :: e.ref !in known && e.ref in forks
    ensures ForksOnce(log + more, forks)
  {
    forall i, j | 0 <= i < j < |log + more| && (log + more)[i].kind.ForkEvent? && (log + more)[j].kind.ForkEvent?
      ensures (log + more)[i].ref != (log + more)[j].ref
    {
      if i >= |log| {
        assert Ids(more)[i - |log|] != Ids(more)[j - |log|];
      } else if j >= |log| {
        assert (log + more)[j] in more && (log + more)[i] in log;
      }
    }
  }

  /** A fork ref yields at most one fork event ever. */
  lemma OneForkEventPerRef(polls: seq<Poll>, i: nat, j: nat)
    requires i < j < |Log(polls)| && Log(polls)[i].kind.ForkEvent? && Log(polls)[j].kind.ForkEvent?
    ensures Log(polls)[i].ref != Log(polls)[j].ref
  {
    ForksReportedOnce(polls);
  }

  // ---------------------------------------------------------------- fork inventory

  predicate UniqueNames(refs: seq<RefEntry>) {
    forall i, j | 0 <= i < j < |refs| :: refs[i].name != refs[j].name
  }

  lemma {:induction false} HeadsAre(refs: seq<RefEntry>, n: nat)
    requires n <= |refs| && UniqueNames(refs)
    ensures forall name :: name in Heads(refs, n) <==> exists i :: 0 <= i < n && refs[i].name == name
    ensures forall i | 0 <= i < n :: refs[i].name in Heads(refs, n) && Heads(refs, n)[refs[i].name] == refs[i].head
  {
    if n > 0 {
      HeadsAre(refs, n - 1);
    }
  }

  lemma {:induction false} NamedForksAre(refs: seq<RefEntry>, n: nat)
    requires n <= |refs| && UniqueNames(refs)
    ensures forall f :: f in NamedForks(refs, n) <==> IsFork(f) && exists i :: 0 <= i < n && refs[i].name == f
    ensures Distinct(NamedForks(refs, n))
  {
    if n > 0 {
      NamedForksAre(refs, n - 1);
    }
  }

  lemma {:induction false} InventoryKept(polls: seq<Poll>)
    requires forall p | p in polls :: UniqueNames(p.snapshot.refs)
    ensures Distinct(After(polls).knownForks) && forall f | f in After(polls).knownForks :: IsFork(f)
    ensures polls != [] ==>
              forall r | r in polls[|polls| - 1].snapshot.refs && IsFork(r.name) :: r.name in After(polls).knownForks
  {
    if polls != [] {
      var init, last := polls[..|polls| - 1], polls[|polls| - 1];
      InventoryKept(init);
      var refs := last.snapshot.refs;
      ForksGrow(After(init).knownForks, refs, |refs|);
      NamedForksAre(refs, |refs|);
    }
  }

  lemma {:induction false} UpstreamsAre(w: Watermark, n: nat)
    requires n <= |w.knownForks| && Distinct(w.knownForks)
    ensures forall u :: u in Upstreams(w, n) <==>
              exists i :: 0 <= i < n && w.knownForks[i] == u.ref && u.ref in w.refHeads && w.refHeads[u.ref] == u.head
    ensures forall i, j | 0 <= i < j < |Upstreams(w, n)| :: Upstreams(w, n)[i].ref != Upstreams(w, n)[j].ref
  {
    if n > 0 {
      UpstreamsAre(w, n - 1);
      var before := Upstreams(w, n - 1);
      forall i | 0 <= i < |before|
        ensures before[i].ref != w.knownForks[n - 1]
      {
        assert before[i] in before;
      }
    }
  }

  /** `forkUpstreamsFromWatermark` offers exactly the fork refs of the latest snapshot
      with their current heads, once each. */
  lemma UpstreamsAreTheForks(polls: seq<Poll>, u: Scheduler.ForkUpstream)
    requires polls != [] && forall p | p in polls :: UniqueNames(p.snapshot.refs)
    ensures var w := After(polls);
            u in Upstreams(w, |w.knownForks|) <==>
            exists r :: r in polls[|polls| - 1].snapshot.refs && IsFork(r.name) && u == Scheduler.ForkUpstream(r.name, r.head)
    ensures var upstreams := Upstreams(After(polls), |After(polls).knownForks|);
            forall i, j | 0 <= i < j < |upstreams| :: upstreams[i].ref != upstreams[j].ref
  {
    var w, refs := After(polls), polls[|polls| - 1].snapshot.refs;
    InventoryKept(polls);
    UpstreamsAre(w, |w.knownForks|);
    assert polls[|polls| - 1] in polls;
    LatestHeads(polls);
    hide After, Upstreams, Heads, IsFork, UniqueNames, Distinct;
    HeadIsListed(w.refHeads, refs, u);
    if u.ref in w.knownForks {
      assert exists i :: 0 <= i < |w.knownForks| && w.knownForks[i] == u.ref;
    }
  }

  lemma LatestHeads(polls: seq<Poll>)
    requires polls != []
    ensures After(polls).refHeads == Heads(polls[|polls| - 1].snapshot.refs, |polls[|polls| - 1].snapshot.refs|)
  {
    hide Heads, Reported;
  }

  /** A ref has a head exactly when it is listed with it. */
  lemma HeadIsListed(heads: map<string, string>, refs: seq<RefEntry>, u: Scheduler.ForkUpstream)
    requires UniqueNames(refs) && heads == Heads(refs, |refs|)
    ensures u.ref in heads && heads[u.ref] == u.head <==> RefEntry(u.ref, u.head) in refs
    ensures forall r | r in refs :: r.name == u.ref && r.head == u.head ==> r == RefEntry(u.ref, u.head)
  {
    HeadsAre(refs, |refs|);
    hide Heads;
  }
}
