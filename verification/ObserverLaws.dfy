/** What one poll reports, place by place: which candidates there are and in what order,
    which of them are let through, and what the next watermark says. For every snapshot,
    whether or not refs, ids or commits repeat. */
module ObserverLaws {
  import opened Option
  import opened Observer
  import opened ObserverRuns

  // ------------------------------------------------------------------ commits of a ref

  /** How many of the first `n` commits are real. */
  function RealBefore(commits: seq<CommitMeta>, synthetic: set<string>, n: nat): (count: nat)
    requires n <= |commits|
  {
    if n == 0 then 0 else RealBefore(commits, synthetic, n - 1) + (if commits[n - 1].author in synthetic then 0 else 1)
  }

  lemma {:induction false} RealGrows(commits: seq<CommitMeta>, synthetic: set<string>, i: nat, n: nat)
    requires i < n <= |commits| && commits[i].author !in synthetic
    ensures RealBefore(commits, synthetic, i) < RealBefore(commits, synthetic, n)
    decreases n
  {
    if i < n - 1 {
      RealGrows(commits, synthetic, i, n - 1);
    }
  }

  /** Every real commit is a candidate, in the order of the page, and nothing else is. */
  lemma {:induction false} CommitsInOrder(ref: string, commits: seq<CommitMeta>, synthetic: set<string>, n: nat, i: nat)
    requires n <= |commits|
    ensures |CommitCandidates(ref, commits, synthetic, n)| == RealBefore(commits, synthetic, n)
    ensures i < n && commits[i].author !in synthetic ==>
              && RealBefore(commits, synthetic, i) < RealBefore(commits, synthetic, n)
              && CommitCandidates(ref, commits, synthetic, n)[RealBefore(commits, synthetic, i)]
              == RealEvent(CommitEvent, ref, commits[i].hash, commits[i].author)
  {
    if n > 0 {
      CommitsInOrder(ref, commits, synthetic, n - 1, i);
      if i < n && commits[i].author !in synthetic {
        RealGrows(commits, synthetic, i, n);
      }
    }
  }

  // ------------------------------------------------------------------------ a new fork

  /** The first commit with this hash. */
  predicate FirstWith(commits: seq<CommitMeta>, hash: string, i: nat) {
    i < |commits| && commits[i].hash == hash && forall j | 0 <= j < i :: commits[j].hash != hash
  }

  lemma {:induction false} FindFirst(commits: seq<CommitMeta>, hash: string)
    ensures forall i: nat | FirstWith(commits, hash, i) :: FindHash(commits, hash) == Some(commits[i])
    ensures (forall i | 0 <= i < |commits| :: commits[i].hash != hash) ==> FindHash(commits, hash) == None
  {
    if commits != [] {
      var rest := commits[1..];
      FindFirst(rest, hash);
      assert forall i | 0 < i < |commits| :: commits[i] == rest[i - 1];
      forall i: nat | FirstWith(commits, hash, i)
        ensures FindHash(commits, hash) == Some(commits[i])
      {
        if i > 0 {
          assert FirstWith(rest, hash, i - 1);
        }
      }
    }
  }

  /** The fork event of a ref, by the commit its author is taken from. */
  function ForkEventBy(ref: RefEntry, c: CommitMeta, synthetic: set<string>): (events: seq<RealEvent>) {
    if c.author in synthetic then [] else [RealEvent(ForkEvent, ref.name, ref.head, c.author)]
  }

  /** A new fork takes its author from its listed head where its commits have it, and else
      from the newest of them; without commits, or with a synthetic author, it is none. */
  lemma ForkIs(ref: RefEntry, commits: seq<CommitMeta>, synthetic: set<string>)
    ensures commits == [] ==> ForkCandidate(ref, commits, synthetic) == []
    ensures forall i: nat | FirstWith(commits, ref.head, i) ::
              ForkCandidate(ref, commits, synthetic) == ForkEventBy(ref, commits[i], synthetic)
    ensures commits != [] && (forall i | 0 <= i < |commits| :: commits[i].hash != ref.head) ==>
              ForkCandidate(ref, commits, synthetic) == ForkEventBy(ref, commits[0], synthetic)
  {
    FindFirst(commits, ref.head);
  }

  // -------------------------------------------------------------------------- the refs

  /** The ref is a fork not known before, named for the first time. */
  predicate NewFork(known: seq<string>, refs: seq<RefEntry>, m: nat)
    requires m < |refs|
  {
    && |refs[m].name| >= 6 && refs[m].name[..6] == "forks/"
    && refs[m].name !in known && forall j | 0 <= j < m :: refs[j].name != refs[m].name
  }

  lemma NewForkIs(known: seq<string>, refs: seq<RefEntry>, m: nat)
    requires m < |refs|
    ensures IsFork(refs[m].name) && refs[m].name !in Forks(known, refs, m) <==> NewFork(known, refs, m)
  {
    ForksGrow(known, refs, m);
    hide Forks;
  }

  /** What ref `m` of a snapshot adds: one fork event at most for a new fork, the real
      commits for any other. */
  function Own(known: seq<string>, snapshot: Snapshot, synthetic: set<string>, m: nat): (events: seq<RealEvent>)
    requires m < |snapshot.refs|
  {
    var ref := snapshot.refs[m];
    var commits := if ref.name in snapshot.commits then snapshot.commits[ref.name] else [];
    if NewFork(known, snapshot.refs, m) then ForkCandidate(ref, commits, synthetic)
    else CommitCandidates(ref.name, commits, synthetic, |commits|)
  }

  /** The candidates of a ref come right after those of the refs before it, and nothing else does. */
  lemma RefsInOrder(known: seq<string>, snapshot: Snapshot, synthetic: set<string>, m: nat)
    requires m < |snapshot.refs|
    ensures Candidates(known, snapshot, synthetic, 0) == []
    ensures Candidates(known, snapshot, synthetic, m + 1) == Candidates(known, snapshot, synthetic, m) + Own(known, snapshot, synthetic, m)
  {
    hide ForkCandidate, CommitCandidates, Forks, IsFork, NewFork;
    NewForkIs(known, snapshot.refs, m);
  }

  // ------------------------------------------------------------------- what is let through

  lemma {:induction false} IdsOfDedupe(responded: seq<string>, candidates: seq<RealEvent>, id: string)
    ensures id in Ids(Dedupe(responded, candidates)) <==>
              id !in responded && exists j :: 0 <= j < |candidates| && EventId(candidates[j]) == id
  {
    DedupeIds(responded, candidates, id);
    hide Dedupe, EventId;
    assert id in Ids(candidates) <==> exists j :: 0 <= j < |candidates| && EventId(candidates[j]) == id by { IdAt(candidates, id); }
  }

  lemma IdAt(events: seq<RealEvent>, id: string)
    ensures id in Ids(events) <==> exists j :: 0 <= j < |events| && EventId(events[j]) == id
  {
    hide EventId;
    if j :| 0 <= j < |events| && EventId(events[j]) == id {
      assert Ids(events)[j] == id;
    }
  }

  /** No earlier candidate has the id of candidate `i`, and it was not reported lately. */
  predicate FirstOfItsId(responded: seq<string>, candidates: seq<RealEvent>, i: nat)
    requires i < |candidates|
  {
    EventId(candidates[i]) !in responded && forall j | 0 <= j < i :: EventId(candidates[j]) != EventId(candidates[i])
  }

  /** A candidate is let through exactly when its id was not reported lately and no earlier
      candidate has it, in the order of the candidates. */
  lemma FirstOfEachId(responded: seq<string>, candidates: seq<RealEvent>, i: nat)
    requires i < |candidates|
    ensures Dedupe(responded, candidates[..i + 1])
         == Dedupe(responded, candidates[..i]) + (if FirstOfItsId(responded, candidates, i) then [candidates[i]] else [])
    ensures Dedupe(responded, candidates[..i + 1]) <= Dedupe(responded, candidates)
    ensures Dedupe(responded, []) == []
  {
    hide EventId, Dedupe;
    var init, e := candidates[..i], candidates[i];
    assert candidates[..i + 1] == init + [e];
    DedupeOneMore(responded, init, e);
    IdsOfDedupe(responded, init, EventId(e));
    assert forall j | 0 <= j < i :: init[j] == candidates[j];
    DedupePrefix(responded, candidates, i + 1);
    DedupeNothing(responded);
  }

  lemma {:induction false} DedupePrefix(responded: seq<string>, candidates: seq<RealEvent>, n: nat)
    requires n <= |candidates|
    ensures Dedupe(responded, candidates[..n]) <= Dedupe(responded, candidates)
    decreases |candidates|
  {
    hide EventId;
    if n == |candidates| {
      assert candidates[..n] == candidates;
    } else {
      var init := candidates[..|candidates| - 1];
      DedupePrefix(responded, init, n);
      assert init[..n] == candidates[..n];
    }
  }

  // ------------------------------------------------------------------ the next watermark

  /** The last entry of this name. */
  predicate LastNamed(refs: seq<RefEntry>, n: nat, name: string, i: nat)
    requires n <= |refs|
  {
    i < n && refs[i].name == name && forall j | i < j < n :: refs[j].name != name
  }

  /** Heads are what the refs were listed with last. */
  lemma {:induction false} HeadsAreLast(refs: seq<RefEntry>, n: nat, name: string)
    requires n <= |refs|
    ensures name in Heads(refs, n) <==> exists i :: 0 <= i < n && refs[i].name == name
    ensures forall i: nat | LastNamed(refs, n, name, i) :: name in Heads(refs, n) && Heads(refs, n)[name] == refs[i].head
  {
    if n > 0 {
      HeadsAreLast(refs, n - 1, name);
      if refs[n - 1].name != name {
        forall i: nat | LastNamed(refs, n, name, i)
          ensures LastNamed(refs, n - 1, name, i)
        {
        }
      }
    }
  }

  /** How many new forks the first `n` refs name. */
  function NewForksBefore(known: seq<string>, refs: seq<RefEntry>, n: nat): (count: nat)
    requires n <= |refs|
  {
    if n == 0 then 0 else NewForksBefore(known, refs, n - 1) + (if NewFork(known, refs, n - 1) then 1 else 0)
  }

  /** Known forks stay where they are, and new ones follow in the order they are listed. */
  lemma {:induction false} ForksInOrder(known: seq<string>, refs: seq<RefEntry>, n: nat, m: nat)
    requires n <= |refs|
    ensures known <= Forks(known, refs, n) && |Forks(known, refs, n)| == |known| + NewForksBefore(known, refs, n)
    ensures m < n && NewFork(known, refs, m) ==>
              var k := |known| + NewForksBefore(known, refs, m);
              k < |Forks(known, refs, n)| && Forks(known, refs, n)[k] == refs[m].name
  {
    hide IsFork, NewFork;
    if n > 0 {
      ForksInOrder(known, refs, n - 1, m);
      NewForkIs(known, refs, n - 1);
    }
  }

  /** How many of the first `n` known forks have a head. */
  function HeadedBefore(w: Watermark, n: nat): (count: nat)
    requires n <= |w.knownForks|
  {
    if n == 0 then 0 else HeadedBefore(w, n - 1) + (if w.knownForks[n - 1] in w.refHeads then 1 else 0)
  }

  /** The upstreams offered are the known forks that have a head, with it, in their order. */
  lemma {:induction false} UpstreamsInOrder(w: Watermark, n: nat, m: nat)
    requires n <= |w.knownForks|
    ensures |Upstreams(w, n)| == HeadedBefore(w, n)
    ensures m < n && w.knownForks[m] in w.refHeads ==>
              var k := HeadedBefore(w, m);
              k < |Upstreams(w, n)| && Upstreams(w, n)[k].ref == w.knownForks[m] &&
              Upstreams(w, n)[k].head == w.refHeads[w.knownForks[m]]
  {
    if n > 0 {
      UpstreamsInOrder(w, n - 1, m);
    }
  }
}
