/** The read side of the responder: `apps/spammer-worker/src/observer.ts` diffs a
    polled snapshot against a watermark, and `responder.ts` decides what to fetch
    and assembles the snapshot. A JavaScript record is modelled as a map. */
module Observer {
  import opened Option
  import Scheduler

  const RESPONDED_EVENT_ID_CAP := 512
  const MAX_ACCEPTED_COMMITS_PER_REF := 10
  const FORKS_PREFIX := "forks/"

  datatype CommitMeta = CommitMeta(hash: string, author: string)

  datatype RefEntry = RefEntry(name: string, head: string)

  datatype Snapshot = Snapshot(refs: seq<RefEntry>, commits: map<string, seq<CommitMeta>>)

  datatype Watermark = Watermark(
    refHeads: map<string, string>, knownForks: seq<string>, responded: seq<string>, initialized: bool)

  datatype Kind = CommitEvent | ForkEvent

  datatype RealEvent = RealEvent(kind: Kind, ref: string, target: string, author: string)

  /** `initialObserverWatermark()`. */
  const FRESH := Watermark(map[], [], [], false)

  /** `commit:<hash>` or `fork:<ref>`. */
  function EventId(e: RealEvent): (id: string) {
    match e.kind
    case CommitEvent => "commit:" + e.target
    case ForkEvent => "fork:" + e.ref
  }

  predicate IsFork(name: string) {
    FORKS_PREFIX <= name
  }

  function CommitsOf(snapshot: Snapshot, name: string): (commits: seq<CommitMeta>) {
    if name in snapshot.commits then snapshot.commits[name] else []
  }

  // -------------------------------------------------------- what a poll could report

  /** `commits.find((c) => c.hash === headHex)`. */
  function FindHash(commits: seq<CommitMeta>, hash: string): (c: Option<CommitMeta>) {
    if commits == [] then None
    else if commits[0].hash == hash then Some(commits[0])
    else FindHash(commits[1..], hash)
  }

  function HeadCommit(commits: seq<CommitMeta>, head: string): (c: Option<CommitMeta>) {
    var found := FindHash(commits, head);
    if found.Some? then found else if commits == [] then None else Some(commits[0])
  }

  function ForkCandidate(ref: RefEntry, commits: seq<CommitMeta>, synthetic: set<string>): (events: seq<RealEvent>) {
    var c := HeadCommit(commits, ref.head);
    if c.Some? && c.value.author !in synthetic then [RealEvent(ForkEvent, ref.name, ref.head, c.value.author)] else []
  }

  /** The real commits among the first `n`. */
  function CommitCandidates(ref: string, commits: seq<CommitMeta>, synthetic: set<string>, n: nat)
    : (events: seq<RealEvent>)
    requires n <= |commits|
  {
    if n == 0 then []
    else
      var c := commits[n - 1];
      CommitCandidates(ref, commits, synthetic, n - 1) +
      (if c.author in synthetic then [] else [RealEvent(CommitEvent, ref, c.hash, c.author)])
  }

  /** The fork refs known after the first `n` refs of a snapshot. */
  function Forks(known: seq<string>, refs: seq<RefEntry>, n: nat): (forks: seq<string>)
    requires n <= |refs|
  {
    if n == 0 then known
    else
      var before, name := Forks(known, refs, n - 1), refs[n - 1].name;
      if IsFork(name) && name !in before then before + [name] else before
  }

  function RefCandidates(forks: seq<string>, ref: RefEntry, commits: seq<CommitMeta>, synthetic: set<string>)
    : (events: seq<RealEvent>)
  {
    if IsFork(ref.name) && ref.name !in forks then ForkCandidate(ref, commits, synthetic)
    else CommitCandidates(ref.name, commits, synthetic, |commits|)
  }

  /** Everything the first `n` refs of a snapshot could report. */
  function Candidates(known: seq<string>, snapshot: Snapshot, synthetic: set<string>, n: nat): (events: seq<RealEvent>)
    requires n <= |snapshot.refs|
  {
    if n == 0 then []
    else
      var ref := snapshot.refs[n - 1];
      Candidates(known, snapshot, synthetic, n - 1) +
      RefCandidates(Forks(known, snapshot.refs, n - 1), ref, CommitsOf(snapshot, ref.name), synthetic)
  }

  /** The candidates not reported before, each id once. */
  function Dedupe(responded: seq<string>, candidates: seq<RealEvent>): (events: seq<RealEvent>) {
    if candidates == [] then []
    else
      var before, e := Dedupe(responded, candidates[..|candidates| - 1]), candidates[|candidates| - 1];
      if EventId(e) in responded || EventId(e) in Ids(before) then before else before + [e]
  }

  function Ids(events: seq<RealEvent>): (ids: seq<string>)
    ensures |ids| == |events|
  {
    seq(|events|, i requires 0 <= i < |events| => EventId(events[i]))
  }

  // ------------------------------------------------------------------- observe

  function Heads(refs: seq<RefEntry>, n: nat): (heads: map<string, string>)
    requires n <= |refs|
  {
    if n == 0 then map[] else Heads(refs, n - 1)[refs[n - 1].name := refs[n - 1].head]
  }

  function NamedForks(refs: seq<RefEntry>, n: nat): (forks: seq<string>)
    requires n <= |refs|
  {
    if n == 0 then []
    else NamedForks(refs, n - 1) + (if IsFork(refs[n - 1].name) then [refs[n - 1].name] else [])
  }

  function Capped(ids: seq<string>): (last: seq<string>) {
    if |ids| > RESPONDED_EVENT_ID_CAP then ids[|ids| - RESPONDED_EVENT_ID_CAP..] else ids
  }

  /** The events of one `observe`. */
  function Reported(w: Watermark, snapshot: Snapshot, synthetic: set<string>): (events: seq<RealEvent>) {
    if w.initialized
    then Dedupe(w.responded, Candidates(w.knownForks, snapshot, synthetic, |snapshot.refs|))
    else []
  }

  /** The watermark `observe` hands back. */
  function Advanced(w: Watermark, snapshot: Snapshot, synthetic: set<string>): (next: Watermark) {
    var n := |snapshot.refs|;
    if w.initialized
    then Watermark(Heads(snapshot.refs, n), Forks(w.knownForks, snapshot.refs, n),
                   Capped(w.responded + Ids(Reported(w, snapshot, synthetic))), true)
    else Watermark(Heads(snapshot.refs, n), NamedForks(snapshot.refs, n), w.responded, true)
  }

  lemma DedupeOneMore(responded: seq<string>, candidates: seq<RealEvent>, e: RealEvent)
    ensures var before := Dedupe(responded, candidates);
            Dedupe(responded, candidates + [e]) ==
            if EventId(e) in responded || EventId(e) in Ids(before) then before else before + [e]
  {
    assert (candidates + [e])[..|candidates|] == candidates;
  }

  /** The closure `emit`. */
  method Emit(responded: seq<string>, ghost candidates: seq<RealEvent>, events: seq<RealEvent>, seen: set<string>,
              e: RealEvent)
    returns (events': seq<RealEvent>, seen': set<string>)
    requires events == Dedupe(responded, candidates)
    requires seen == (set id | id in responded) + (set id | id in Ids(events))
    ensures events' == Dedupe(responded, candidates + [e])
    ensures seen' == (set id | id in responded) + (set id | id in Ids(events'))
  {
    DedupeOneMore(responded, candidates, e);
    hide Dedupe;
    if EventId(e) in seen {
      return events, seen;
    }
    events', seen' := events + [e], seen + {EventId(e)};
    assert Ids(events') == Ids(events) + [EventId(e)];
  }

  /** The loop over the new commits of one ref. */
  method EmitCommits(responded: seq<string>, ghost before: seq<RealEvent>, events: seq<RealEvent>, seen: set<string>,
                     name: string, commits: seq<CommitMeta>, synthetic: set<string>)
    returns (events': seq<RealEvent>, seen': set<string>)
    requires events == Dedupe(responded, before)
    requires seen == (set id | id in responded) + (set id | id in Ids(events))
    ensures events' == Dedupe(responded, before + CommitCandidates(name, commits, synthetic, |commits|))
    ensures seen' == (set id | id in responded) + (set id | id in Ids(events'))
  {
    hide Dedupe, EventId, Ids;
    events', seen' := events, seen;
    var i := 0;
    assert before + [] == before;
    while i < |commits|
      invariant i <= |commits|
      invariant events' == Dedupe(responded, before + CommitCandidates(name, commits, synthetic, i))
      invariant seen' == (set id | id in responded) + (set id | id in Ids(events'))
    {
      ghost var sofar := CommitCandidates(name, commits, synthetic, i);
      if commits[i].author !in synthetic {
        var e := RealEvent(CommitEvent, name, commits[i].hash, commits[i].author);
        assert before + sofar + [e] == before + (sofar + [e]);
        events', seen' := Emit(responded, before + sofar, events', seen', e);
      } else {
        assert before + (sofar + []) == before + sofar;
      }
      i := i + 1;
    }
  }

  /** The body of the loop over refs: a new fork is one event, any other ref its commits. */
  method EmitRef(responded: seq<string>, ghost before: seq<RealEvent>, events: seq<RealEvent>, seen: set<string>,
                 forks: seq<string>, ref: RefEntry, commits: seq<CommitMeta>, synthetic: set<string>)
    returns (events': seq<RealEvent>, seen': set<string>, forks': seq<string>)
    requires events == Dedupe(responded, before)
    requires seen == (set id | id in responded) + (set id | id in Ids(events))
    ensures events' == Dedupe(responded, before + RefCandidates(forks, ref, commits, synthetic))
    ensures seen' == (set id | id in responded) + (set id | id in Ids(events'))
    ensures forks' == if IsFork(ref.name) && ref.name !in forks then forks + [ref.name] else forks
  {
    hide Dedupe, EventId, Ids, IsFork, HeadCommit, CommitCandidates;
    forks' := forks;
    if IsFork(ref.name) && ref.name !in forks {
      forks' := forks + [ref.name];
      var head := HeadCommit(commits, ref.head);
      if head.Some? && head.value.author !in synthetic {
        events', seen' := Emit(responded, before, events, seen, RealEvent(ForkEvent, ref.name, ref.head, head.value.author));
      } else {
        events', seen' := events, seen;
        assert before + [] == before;
      }
    } else {
      events', seen' := EmitCommits(responded, before, events, seen, ref.name, commits, synthetic);
    }
  }

  lemma BeforeAnyRef(w: Watermark, snapshot: Snapshot, synthetic: set<string>)
    ensures Heads(snapshot.refs, 0) == map[] && Forks(w.knownForks, snapshot.refs, 0) == w.knownForks
    ensures Candidates(w.knownForks, snapshot, synthetic, 0) == []
  {
  }

  lemma OneMoreRef(w: Watermark, snapshot: Snapshot, synthetic: set<string>, n: nat)
    requires n < |snapshot.refs|
    ensures var ref, refs, forks := snapshot.refs[n], snapshot.refs, Forks(w.knownForks, snapshot.refs, n);
            && Heads(refs, n + 1) == Heads(refs, n)[ref.name := ref.head]
            && Forks(w.knownForks, refs, n + 1) == (if IsFork(ref.name) && ref.name !in forks then forks + [ref.name] else forks)
            && Candidates(w.knownForks, snapshot, synthetic, n + 1)
            == Candidates(w.knownForks, snapshot, synthetic, n) + RefCandidates(forks, ref, CommitsOf(snapshot, ref.name), synthetic)
  {
    hide IsFork, RefCandidates, CommitsOf;
  }

  /** `observe(watermark, snapshot, syntheticPubkeys)` on an initialized watermark: the
      loop over refs. */
  method ObserveRefs(w: Watermark, snapshot: Snapshot, synthetic: set<string>)
    returns (events: seq<RealEvent>, next: Watermark)
    requires w.initialized
    ensures events == Reported(w, snapshot, synthetic)
    ensures next == Advanced(w, snapshot, synthetic)
  {
    hide Dedupe, EventId, Ids, IsFork, RefCandidates, Heads, Forks, Candidates;
    BeforeAnyRef(w, snapshot, synthetic);
    var seen := set id | id in w.responded;
    var heads: map<string, string> := map[];
    var forks := w.knownForks;
    events := [];
    DedupeNothing(w.responded);
    var n := 0;
    while n < |snapshot.refs|
      invariant n <= |snapshot.refs|
      invariant heads == Heads(snapshot.refs, n)
      invariant forks == Forks(w.knownForks, snapshot.refs, n)
      invariant events == Dedupe(w.responded, Candidates(w.knownForks, snapshot, synthetic, n))
      invariant seen == (set id | id in w.responded) + (set id | id in Ids(events))
    {
      var ref := snapshot.refs[n];
      OneMoreRef(w, snapshot, synthetic, n);
      heads := heads[ref.name := ref.head];
      events, seen, forks := EmitRef(w.responded, Candidates(w.knownForks, snapshot, synthetic, n), events, seen, forks,
                                     ref, CommitsOf(snapshot, ref.name), synthetic);
      n := n + 1;
    }
    var merged := w.responded + Ids(events);
    var bounded :=
      if |merged| > RESPONDED_EVENT_ID_CAP then merged[|merged| - RESPONDED_EVENT_ID_CAP..] else merged;
    next := Watermark(heads, forks, bounded, true);
  }

  lemma DedupeNothing(responded: seq<string>)
    ensures Dedupe(responded, []) == []
    ensures (set id | id in Ids([])) == {}
  {
  }

  /** `initializeFreshWatermark(snapshot, watermark)`. */
  method InitializeFreshWatermark(w: Watermark, snapshot: Snapshot) returns (next: Watermark)
    requires !w.initialized
    ensures next == Advanced(w, snapshot, {})
  {
    var heads: map<string, string> := map[];
    var forks: seq<string> := [];
    var n := 0;
    while n < |snapshot.refs|
      invariant n <= |snapshot.refs|
      invariant heads == Heads(snapshot.refs, n)
      invariant forks == NamedForks(snapshot.refs, n)
    {
      var ref := snapshot.refs[n];
      heads := heads[ref.name := ref.head];
      if IsFork(ref.name) {
        forks := forks + [ref.name];
      }
      n := n + 1;
    }
    next := Watermark(heads, forks, w.responded, true);
  }

  method Observe(w: Watermark, snapshot: Snapshot, synthetic: set<string>)
    returns (events: seq<RealEvent>, next: Watermark)
    ensures events == Reported(w, snapshot, synthetic)
    ensures next == Advanced(w, snapshot, synthetic)
    ensures next.initialized && (!w.initialized ==> events == [] && next.responded == w.responded)
    ensures w.initialized ==>
              var all := w.responded + Ids(events);
              next.responded == if |all| > 512 then all[|all| - 512..] else all
  {
    if !w.initialized {
      next := InitializeFreshWatermark(w, snapshot);
      return [], next;
    }
    events, next := ObserveRefs(w, snapshot, synthetic);
  }

  // ------------------------------------------------------------------- responder

  predicate NeedsFetch(w: Watermark, ref: RefEntry) {
    w.initialized && !(ref.name in w.refHeads && w.refHeads[ref.name] == ref.head)
  }

  /** Where the walk down a page stops: at the watermark head, the cap or the end. */
  function StopsAt(page: seq<CommitMeta>, head: string, i: nat): (stop: nat)
    requires i <= |page| && i <= MAX_ACCEPTED_COMMITS_PER_REF
    ensures i <= stop <= |page| && stop <= MAX_ACCEPTED_COMMITS_PER_REF
    ensures forall k | i <= k < stop :: page[k].hash != head
    ensures stop < |page| && stop < MAX_ACCEPTED_COMMITS_PER_REF ==> page[stop].hash == head
    decreases |page| - i
  {
    if i == |page| || i == MAX_ACCEPTED_COMMITS_PER_REF || page[i].hash == head then i
    else StopsAt(page, head, i + 1)
  }

  /** The commits of a page newer than the watermark head, newest first. */
  function NewerThan(page: seq<CommitMeta>, head: string): (accepted: seq<CommitMeta>) {
    page[..StopsAt(page, head, 0)]
  }

  function Accepted(w: Watermark, name: string, page: seq<CommitMeta>): (accepted: seq<CommitMeta>) {
    if page == [] then []
    else if name in w.refHeads then NewerThan(page, w.refHeads[name])
    else [page[0]]
  }

  /** The commits `buildSnapshot` keeps for the first `n` refs. */
  function SnapshotCommits(refs: seq<RefEntry>, pages: map<string, seq<CommitMeta>>, w: Watermark, n: nat)
    : (commits: map<string, seq<CommitMeta>>)
    requires n <= |refs|
  {
    if n == 0 then map[]
    else
      var before, name := SnapshotCommits(refs, pages, w, n - 1), refs[n - 1].name;
      var accepted := Accepted(w, name, if name in pages then pages[name] else []);
      if accepted == [] then before else before[name := accepted]
  }

  /** The walk of `buildSnapshot` down one page. */
  method WalkPage(page: seq<CommitMeta>, head: string) returns (accepted: seq<CommitMeta>)
    ensures accepted == NewerThan(page, head)
  {
    accepted := [];
    var i := 0;
    while i < |page|
      invariant i <= |page| && i <= MAX_ACCEPTED_COMMITS_PER_REF
      invariant accepted == page[..i]
      invariant StopsAt(page, head, 0) == StopsAt(page, head, i)
    {
      if page[i].hash == head {
        return;
      }
      if |accepted| >= MAX_ACCEPTED_COMMITS_PER_REF {
        return;
      }
      accepted := accepted + [page[i]];
      i := i + 1;
    }
  }

  /** `buildSnapshot(refs, fetchedCommitPagesByRef, watermark)`: a loop with early exits. */
  method BuildSnapshot(refs: seq<RefEntry>, pages: map<string, seq<CommitMeta>>, w: Watermark)
    returns (snapshot: Snapshot)
    ensures snapshot == Snapshot(refs, SnapshotCommits(refs, pages, w, |refs|))
  {
    hide NewerThan;
    var commits: map<string, seq<CommitMeta>> := map[];
    var n := 0;
    while n < |refs|
      invariant n <= |refs|
      invariant commits == SnapshotCommits(refs, pages, w, n)
    {
      var name := refs[n].name;
      n := n + 1;
      if name !in pages || pages[name] == [] {
        continue;
      }
      var page := pages[name];
      var accepted: seq<CommitMeta> := [];
      if name !in w.refHeads {
        accepted := [page[0]];
      } else {
        accepted := WalkPage(page, w.refHeads[name]);
      }
      if |accepted| > 0 {
        commits := commits[name := accepted];
      }
    }
    snapshot := Snapshot(refs, commits);
  }

  function Upstreams(w: Watermark, n: nat): (upstreams: seq<Scheduler.ForkUpstream>)
    requires n <= |w.knownForks|
  {
    if n == 0 then []
    else
      var ref := w.knownForks[n - 1];
      Upstreams(w, n - 1) + (if ref in w.refHeads then [Scheduler.ForkUpstream(ref, w.refHeads[ref])] else [])
  }

  /** `forkUpstreamsFromWatermark(watermark)`. */
  method ForkUpstreamsFromWatermark(w: Watermark) returns (result: seq<Scheduler.ForkUpstream>)
    ensures result == Upstreams(w, |w.knownForks|)
  {
    result := [];
    var n := 0;
    while n < |w.knownForks|
      invariant n <= |w.knownForks|
      invariant result == Upstreams(w, n)
    {
      if w.knownForks[n] in w.refHeads {
        result := result + [Scheduler.ForkUpstream(w.knownForks[n], w.refHeads[w.knownForks[n]])];
      }
      n := n + 1;
    }
  }
}
