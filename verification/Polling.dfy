/** One poll of the responder, as `pollAndEnqueueResponses` of
    `apps/spammer-worker/src/spammer.ts` sequences it: `list_refs`, then one later
    `list_commits` for every ref that moved, then `buildSnapshot` and `observe`. Pushes
    land between the two calls, and refs may share history. */
module Polling {
  import opened Option
  import opened Observer
  import opened ObserverRuns
  import opened Sequences

  const COMMIT_PAGE_SIZE := 20

  /** Every ref's commits, oldest first. */
  type Room = map<string, seq<CommitMeta>>

  predicate NoEmptyRef(room: Room) {
    forall name | name in room :: room[name] != []
  }

  predicate UniqueHashes(commits: seq<CommitMeta>) {
    forall i, j | 0 <= i < j < |commits| :: commits[i].hash != commits[j].hash
  }

  /** The history of a ref is a chain: it holds no commit twice. Two refs may hold the same. */
  predicate Chains(room: Room) {
    forall name | name in room :: UniqueHashes(room[name])
  }

  /** A hash stands for one commit wherever it occurs. */
  predicate HashesAgree(room: Room) {
    forall r, s, i, j | r in room && s in room && 0 <= i < |room[r]| && 0 <= j < |room[s]| &&
                        room[r][i].hash == room[s][j].hash :: room[r][i] == room[s][j]
  }

  /** Later: refs only grow. */
  predicate Extends(before: Room, after: Room) {
    forall name | name in before :: name in after && before[name] <= after[name]
  }

  /** The newest commit of a ref. */
  function Tip(room: Room, name: string): (c: CommitMeta)
    requires name in room && room[name] != []
  {
    room[name][|room[name]| - 1]
  }

  /** `list_refs`: the room's refs, in whatever order. */
  predicate Lists(refs: seq<RefEntry>, room: Room)
    requires NoEmptyRef(room)
  {
    && UniqueNames(refs)
    && (forall r | r in refs :: r.name in room && r.head == Tip(room, r.name).hash)
    && (forall name | name in room :: exists i :: 0 <= i < |refs| && refs[i].name == name)
  }

  /** `list_commits`: one page of a ref, newest first. */
  function PageOf(commits: seq<CommitMeta>): (page: seq<CommitMeta>)
    ensures |page| == if |commits| < COMMIT_PAGE_SIZE then |commits| else COMMIT_PAGE_SIZE
    ensures forall i | 0 <= i < |page| :: page[i] == commits[|commits| - 1 - i]
  {
    seq(if |commits| < COMMIT_PAGE_SIZE then |commits| else COMMIT_PAGE_SIZE,
        i requires 0 <= i < |commits| => commits[|commits| - 1 - i])
  }

  /** What one poll sees: the refs listed from one room, and for every ref its commits
      when its page was read, later, each at its own time. */
  datatype Sight = Sight(refs: seq<RefEntry>, listed: Room, paged: Room)

  predicate SeesWell(s: Sight) {
    && NoEmptyRef(s.listed) && Lists(s.refs, s.listed) && Extends(s.listed, s.paged)
    && NoEmptyRef(s.paged) && Chains(s.paged) && HashesAgree(s.paged)
  }

  /** The next poll: listed after the pages of the last one were read, and no ref that
      was listed then has gained more than ten commits when its page is read now. */
  predicate Follows(before: Sight, after: Sight) {
    && Extends(before.paged, after.listed)
    && forall name | name in before.listed && name in after.paged ::
         |after.paged[name]| - |before.listed[name]| <= 10
  }

  function FetchedPages(w: Watermark, s: Sight): (pages: map<string, seq<CommitMeta>>) {
    map name | name in s.paged && name in (set r | r in s.refs && NeedsFetch(w, r) :: r.name) :: PageOf(s.paged[name])
  }

  /** The snapshot one poll hands to `observe`. */
  function Polled(w: Watermark, s: Sight): (snapshot: Snapshot)
    ensures snapshot.refs == s.refs
  {
    Snapshot(s.refs, SnapshotCommits(s.refs, FetchedPages(w, s), w, |s.refs|))
  }

  /** The watermark is that of the last listing. */
  ghost predicate Marks(w: Watermark, listed: Room)
    requires NoEmptyRef(listed)
  {
    && w.initialized
    && (forall name :: name in w.refHeads <==> name in listed)
    && (forall name | name in listed :: w.refHeads[name] == Tip(listed, name).hash)
    && (forall f :: f in w.knownForks <==> f in listed && IsFork(f))
  }

  /** A poll of sight `after` by a watermark left by the poll of sight `before`. */
  ghost predicate Polls(w: Watermark, before: Sight, after: Sight) {
    SeesWell(before) && SeesWell(after) && Follows(before, after) && Marks(w, before.listed)
  }

  // ---------------------------------------------------------------------- one page

  /** Commits from `from` on, newest first. */
  function Newest(commits: seq<CommitMeta>, from: nat): (newest: seq<CommitMeta>)
    requires from <= |commits|
  {
    seq(|commits| - from, i requires 0 <= i < |commits| - from => commits[|commits| - 1 - i])
  }

  /** The walk down a page stops exactly at the last poll's head. */
  lemma WalkStopsAtOldHead(page: seq<CommitMeta>, seen: nat, commits: seq<CommitMeta>)
    requires 1 <= seen <= |commits| <= seen + MAX_ACCEPTED_COMMITS_PER_REF && page == PageOf(commits)
    requires UniqueHashes(commits)
    ensures NewerThan(page, commits[seen - 1].hash) == Newest(commits, seen)
  {
    var gained, head := |commits| - seen, commits[seen - 1].hash;
    var stop := StopsAt(page, head, 0);
    assert page[gained].hash == head;
    assert forall k | 0 <= k < gained :: page[k].hash != head;
    assert stop == gained;
  }

  /** The bound of ten is exact: a ref that gained more keeps only its ten newest. */
  lemma WalkKeepsAllIffAtMostTen(page: seq<CommitMeta>, seen: nat, commits: seq<CommitMeta>)
    requires 1 <= seen <= |commits| && page == PageOf(commits) && UniqueHashes(commits)
    ensures NewerThan(page, commits[seen - 1].hash) == Newest(commits, seen) <==>
            |commits| - seen <= 10
    ensures |commits| - seen > 10 ==>
            NewerThan(page, commits[seen - 1].hash) == Newest(commits, |commits| - 10)
  {
    if |commits| - seen <= MAX_ACCEPTED_COMMITS_PER_REF {
      WalkStopsAtOldHead(page, seen, commits);
    } else {
      var stop := StopsAt(page, commits[seen - 1].hash, 0);
      assert forall k | 0 <= k < MAX_ACCEPTED_COMMITS_PER_REF :: page[k].hash != commits[seen - 1].hash;
      assert stop == MAX_ACCEPTED_COMMITS_PER_REF;
      assert |Newest(commits, seen)| != stop;
    }
  }

  function PageIn(pages: map<string, seq<CommitMeta>>, name: string): (page: seq<CommitMeta>) {
    if name in pages then pages[name] else []
  }

  lemma {:induction false} SnapshotCommitsAt(
      refs: seq<RefEntry>, pages: map<string, seq<CommitMeta>>, w: Watermark, n: nat, name: string)
    requires n <= |refs| && UniqueNames(refs)
    ensures CommitsOf(Snapshot(refs, SnapshotCommits(refs, pages, w, n)), name)
         == if exists i :: 0 <= i < n && refs[i].name == name then Accepted(w, name, PageIn(pages, name)) else []
  {
    hide Accepted, PageIn, SnapshotCommits, CommitsOf;
    if n == 0 {
      NoSnapshotCommits(refs, pages, w, name);
    } else {
      SnapshotCommitsAt(refs, pages, w, n - 1, name);
      OneMoreRef(refs, pages, w, n, name);
    }
  }

  lemma NoSnapshotCommits(refs: seq<RefEntry>, pages: map<string, seq<CommitMeta>>, w: Watermark, name: string)
    ensures CommitsOf(Snapshot(refs, SnapshotCommits(refs, pages, w, 0)), name) == []
  {
  }

  lemma OneMoreRef(refs: seq<RefEntry>, pages: map<string, seq<CommitMeta>>, w: Watermark, n: nat, name: string)
    requires 0 < n <= |refs|
    ensures CommitsOf(Snapshot(refs, SnapshotCommits(refs, pages, w, n)), name) ==
            if refs[n - 1].name == name && Accepted(w, name, PageIn(pages, name)) != []
            then Accepted(w, name, PageIn(pages, name))
            else CommitsOf(Snapshot(refs, SnapshotCommits(refs, pages, w, n - 1)), name)
  {
    hide Accepted;
  }

  // ------------------------------------------------------------------ skipping pages

  /** Only the pages of the refs that `refsNeedingFetch` names. */
  function Needed(w: Watermark, refs: seq<RefEntry>, pages: map<string, seq<CommitMeta>>): (needed: map<string, seq<CommitMeta>>) {
    map name | name in pages && name in (set r | r in refs && NeedsFetch(w, r) :: r.name) :: pages[name]
  }

  function SnapshotOf(w: Watermark, refs: seq<RefEntry>, pages: map<string, seq<CommitMeta>>): (snapshot: Snapshot) {
    Snapshot(refs, SnapshotCommits(refs, pages, w, |refs|))
  }

  /** The page of every ref that has not moved starts at its listed head. */
  predicate UnmovedPagesStartAtHead(w: Watermark, refs: seq<RefEntry>, pages: map<string, seq<CommitMeta>>) {
    forall r | r in refs && !NeedsFetch(w, r) :: PageIn(pages, r.name) == [] || PageIn(pages, r.name)[0].hash == r.head
  }

  lemma {:induction false} NoEmptyCommits(refs: seq<RefEntry>, pages: map<string, seq<CommitMeta>>, w: Watermark, n: nat)
    requires n <= |refs|
    ensures forall name | name in SnapshotCommits(refs, pages, w, n) :: SnapshotCommits(refs, pages, w, n)[name] != []
  {
    if n > 0 {
      NoEmptyCommits(refs, pages, w, n - 1);
    }
  }

  lemma SameCommitsSameSnapshot(refs: seq<RefEntry>, a: map<string, seq<CommitMeta>>, b: map<string, seq<CommitMeta>>)
    requires (forall name | name in a :: a[name] != []) && (forall name | name in b :: b[name] != [])
    requires forall name :: CommitsOf(Snapshot(refs, a), name) == CommitsOf(Snapshot(refs, b), name)
    ensures a == b
  {
    forall name
      ensures name in a <==> name in b
      ensures name in a ==> a[name] == b[name]
    {
      assert CommitsOf(Snapshot(refs, a), name) == CommitsOf(Snapshot(refs, b), name);
    }
  }

  lemma NeededPage(w: Watermark, refs: seq<RefEntry>, pages: map<string, seq<CommitMeta>>, r: RefEntry)
    requires UniqueNames(refs) && r in refs
    ensures PageIn(Needed(w, refs, pages), r.name) == if NeedsFetch(w, r) then PageIn(pages, r.name) else []
  {
    forall q | q in refs && q.name == r.name
      ensures q == r
    {
      var i, j :| 0 <= i < |refs| && 0 <= j < |refs| && refs[i] == q && refs[j] == r;
    }
  }

  lemma CommitsOfRef(w: Watermark, refs: seq<RefEntry>, pages: map<string, seq<CommitMeta>>, r: RefEntry)
    requires UniqueNames(refs) && r in refs
    ensures CommitsOf(SnapshotOf(w, refs, pages), r.name) == Accepted(w, r.name, PageIn(pages, r.name))
  {
    SnapshotCommitsAt(refs, pages, w, |refs|, r.name);
    var i :| 0 <= i < |refs| && refs[i] == r;
    assert refs[i].name == r.name;
  }

  /** A page of a ref that has not moved adds nothing exactly when it starts at its head. */
  lemma UnmovedAccepts(w: Watermark, r: RefEntry, page: seq<CommitMeta>)
    requires w.initialized && !NeedsFetch(w, r)
    ensures Accepted(w, r.name, page) == [] <==> page == [] || page[0].hash == r.head
  {
  }

  lemma SkippedRef(w: Watermark, refs: seq<RefEntry>, pages: map<string, seq<CommitMeta>>, r: RefEntry)
    requires UniqueNames(refs) && w.initialized && r in refs
    ensures CommitsOf(SnapshotOf(w, refs, pages), r.name) == CommitsOf(SnapshotOf(w, refs, Needed(w, refs, pages)), r.name) <==>
              NeedsFetch(w, r) || PageIn(pages, r.name) == [] || PageIn(pages, r.name)[0].hash == r.head
  {
    hide SnapshotOf, CommitsOf, Accepted, PageIn, Needed;
    CommitsOfRef(w, refs, pages, r);
    CommitsOfRef(w, refs, Needed(w, refs, pages), r);
    NeededPage(w, refs, pages, r);
    if !NeedsFetch(w, r) {
      UnmovedAccepts(w, r, PageIn(pages, r.name));
      UnmovedAccepts(w, r, []);
    }
  }

  /** Skipping the refs that have not moved gives the snapshot of fetching every page exactly
      when every such page still starts at its listed head; then `observe` reports and
      remembers the same, as it always does on the first poll. */
  lemma SkippingUnmovedRefs(w: Watermark, refs: seq<RefEntry>, pages: map<string, seq<CommitMeta>>, synthetic: set<string>)
    requires UniqueNames(refs)
    ensures var all, some := SnapshotOf(w, refs, pages), SnapshotOf(w, refs, Needed(w, refs, pages));
            && (w.initialized ==> (all == some <==> UnmovedPagesStartAtHead(w, refs, pages)))
            && (!w.initialized || UnmovedPagesStartAtHead(w, refs, pages) ==>
                  Reported(w, all, synthetic) == Reported(w, some, synthetic) &&
                  Advanced(w, all, synthetic) == Advanced(w, some, synthetic))
  {
    if w.initialized {
      SameSnapshotIff(w, refs, pages);
    }
    hide Needed, SnapshotCommits, UnmovedPagesStartAtHead;
  }

  lemma SameSnapshotIff(w: Watermark, refs: seq<RefEntry>, pages: map<string, seq<CommitMeta>>)
    requires UniqueNames(refs) && w.initialized
    ensures SnapshotOf(w, refs, pages) == SnapshotOf(w, refs, Needed(w, refs, pages)) <==>
              UnmovedPagesStartAtHead(w, refs, pages)
  {
    var some := Needed(w, refs, pages);
    forall r | r in refs
      ensures CommitsOf(SnapshotOf(w, refs, pages), r.name) == CommitsOf(SnapshotOf(w, refs, some), r.name) <==>
                NeedsFetch(w, r) || PageIn(pages, r.name) == [] || PageIn(pages, r.name)[0].hash == r.head
    {
      SkippedRef(w, refs, pages, r);
    }
    NoEmptyCommits(refs, pages, w, |refs|);
    NoEmptyCommits(refs, some, w, |refs|);
    if UnmovedPagesStartAtHead(w, refs, pages) {
      forall name
        ensures CommitsOf(SnapshotOf(w, refs, pages), name) == CommitsOf(SnapshotOf(w, refs, some), name)
      {
        SnapshotCommitsAt(refs, pages, w, |refs|, name);
        SnapshotCommitsAt(refs, some, w, |refs|, name);
        if i :| 0 <= i < |refs| && refs[i].name == name {
          assert refs[i] in refs;
        }
      }
      SameCommitsSameSnapshot(refs, SnapshotCommits(refs, pages, w, |refs|), SnapshotCommits(refs, some, w, |refs|));
    }
    hide SnapshotCommits, Needed, CommitsOf, NeedsFetch;
  }

  // ------------------------------------------------------------------- one snapshot

  /** The page a ref gets: its newest commits if it moved, nothing if it was skipped. */
  lemma FetchedPage(w: Watermark, s: Sight, i: nat)
    requires UniqueNames(s.refs) && i < |s.refs| && s.refs[i].name in s.paged
    ensures PageIn(FetchedPages(w, s), s.refs[i].name)
         == if NeedsFetch(w, s.refs[i]) then PageOf(s.paged[s.refs[i].name]) else []
  {
    assert s.refs[i] in s.refs;
    forall r | r in s.refs && r.name == s.refs[i].name
      ensures r == s.refs[i]
    {
      var j :| 0 <= j < |s.refs| && s.refs[j] == r;
    }
  }

  lemma Listed(refs: seq<RefEntry>, room: Room, name: string) returns (i: nat)
    requires NoEmptyRef(room) && Lists(refs, room) && name in room
    ensures UniqueNames(refs) && i < |refs| && refs[i] == RefEntry(name, Tip(room, name).hash)
  {
    i :| 0 <= i < |refs| && refs[i].name == name;
    assert refs[i] in refs;
  }

  /** Whether a ref the last poll listed has moved since. */
  predicate Moved(before: Sight, after: Sight, name: string)
    requires name in before.listed && name in after.listed
  {
    |after.listed[name]| != |before.listed[name]|
  }

  /** The commits a poll accepts for one ref. */
  function NewCommits(before: Sight, after: Sight, name: string): (commits: seq<CommitMeta>)
    requires SeesWell(before) && SeesWell(after) && Follows(before, after) && name in after.listed
  {
    if name !in before.listed then [Tip(after.paged, name)]
    else if Moved(before, after, name) then Newest(after.paged[name], |before.listed[name]|)
    else []
  }

  /** What the rooms say of one ref over two polls. */
  lemma KnownRef(before: Sight, after: Sight, name: string)
    requires SeesWell(before) && SeesWell(after) && Follows(before, after) && name in after.listed
    ensures name in after.paged && UniqueHashes(after.paged[name]) && after.listed[name] <= after.paged[name]
    ensures 1 <= |after.listed[name]| <= |after.paged[name]|
    ensures name in before.listed ==>
              && name in before.paged && before.listed[name] <= before.paged[name] <= after.listed[name]
              && 1 <= |before.listed[name]| <= |after.listed[name]|
              && |after.paged[name]| <= |before.listed[name]| + MAX_ACCEPTED_COMMITS_PER_REF
  {
    hide HashesAgree, UniqueHashes, Lists;
  }

  /** An accepted page of a ref the last poll listed. */
  lemma AcceptedOfKnown(w: Watermark, ref: RefEntry, seen: nat, listed: nat, commits: seq<CommitMeta>)
    requires 1 <= seen <= listed <= |commits| <= seen + MAX_ACCEPTED_COMMITS_PER_REF && w.initialized
    requires UniqueHashes(commits) && ref.head == commits[listed - 1].hash
    requires ref.name in w.refHeads && w.refHeads[ref.name] == commits[seen - 1].hash
    ensures Accepted(w, ref.name, if NeedsFetch(w, ref) then PageOf(commits) else [])
         == if listed != seen then Newest(commits, seen) else []
  {
    if NeedsFetch(w, ref) {
      WalkStopsAtOldHead(PageOf(commits), seen, commits);
    }
  }

  /** The commits of a listed ref, by its entry and its page. */
  lemma AcceptedOfListed(w: Watermark, before: Sight, after: Sight, name: string) returns (ref: RefEntry)
    requires Polls(w, before, after) && name in after.listed && name in after.paged && after.listed[name] != []
    ensures ref.name == name && ref.head == Tip(after.listed, name).hash
    ensures CommitsOf(Polled(w, after), name)
         == Accepted(w, name, if NeedsFetch(w, ref) then PageOf(after.paged[name]) else [])
  {
    hide HashesAgree, Accepted, FetchedPages, SnapshotCommits, CommitsOf, UniqueNames, PageIn, Lists, Chains, Extends, Follows,
      Marks, NeedsFetch, PageOf, Tip;
    var i := Listed(after.refs, after.listed, name);
    SnapshotCommitsAt(after.refs, FetchedPages(w, after), w, |after.refs|, name);
    FetchedPage(w, after, i);
    ref := after.refs[i];
  }

  lemma MarkedHead(w: Watermark, before: Sight, after: Sight, name: string)
    requires Polls(w, before, after)
    ensures w.initialized && (name in w.refHeads <==> name in before.listed)
    ensures name in before.listed ==> before.listed[name] != [] && w.refHeads[name] == Tip(before.listed, name).hash
  {
    hide HashesAgree, Lists, Chains, Extends, Follows;
  }

  /** One poll accepts, for every ref, exactly what its page holds beyond the last
      listing, nothing for a ref that has not moved, and the top of a new ref's page. */
  lemma PolledCommits(w: Watermark, before: Sight, after: Sight, name: string)
    requires Polls(w, before, after) && name in after.listed
    ensures CommitsOf(Polled(w, after), name) == NewCommits(before, after, name)
  {
    hide SeesWell, Follows, Marks, Newest, Accepted, Polled, CommitsOf, UniqueHashes, NeedsFetch, PageOf;
    KnownRef(before, after, name);
    MarkedHead(w, before, after, name);
    var ref := AcceptedOfListed(w, before, after, name);
    if name in before.listed {
      AcceptedOfKnown(w, ref, |before.listed[name]|, |after.listed[name]|, after.paged[name]);
    } else {
      AcceptedOfNew(w, ref, after.paged[name]);
    }
  }

  /** Of a ref that was not there only the top of the page is accepted. */
  lemma AcceptedOfNew(w: Watermark, ref: RefEntry, commits: seq<CommitMeta>)
    requires commits != [] && w.initialized && ref.name !in w.refHeads
    ensures Accepted(w, ref.name, if NeedsFetch(w, ref) then PageOf(commits) else []) == [commits[|commits| - 1]]
  {
  }

  // ------------------------------------------------------------------- candidates

  lemma {:induction false} CommitCandidatesAre(
      ref: string, commits: seq<CommitMeta>, synthetic: set<string>, n: nat, e: RealEvent)
    requires n <= |commits|
    ensures e in CommitCandidates(ref, commits, synthetic, n) <==>
              exists k :: 0 <= k < n && commits[k].author !in synthetic &&
                          e == RealEvent(CommitEvent, ref, commits[k].hash, commits[k].author)
  {
    if n > 0 {
      CommitCandidatesAre(ref, commits, synthetic, n - 1, e);
    }
  }

  function CandidatesOf(known: seq<string>, snapshot: Snapshot, synthetic: set<string>, m: nat): (events: seq<RealEvent>)
    requires m < |snapshot.refs|
  {
    var ref := snapshot.refs[m];
    RefCandidates(Forks(known, snapshot.refs, m), ref, CommitsOf(snapshot, ref.name), synthetic)
  }

  lemma {:induction false} CandidatesAre(
      known: seq<string>, snapshot: Snapshot, synthetic: set<string>, n: nat, e: RealEvent)
    requires n <= |snapshot.refs|
    ensures e in Candidates(known, snapshot, synthetic, n) <==>
              exists m :: 0 <= m < n && e in CandidatesOf(known, snapshot, synthetic, m)
  {
    hide RefCandidates;
    if n > 0 {
      CandidatesAre(known, snapshot, synthetic, n - 1, e);
      assert Candidates(known, snapshot, synthetic, n)
          == Candidates(known, snapshot, synthetic, n - 1) + CandidatesOf(known, snapshot, synthetic, n - 1);
    }
  }

  predicate Says(e: RealEvent, c: CommitMeta) {
    c == CommitMeta(e.target, e.author)
  }

  /** A commit event of this poll: a real commit beyond the last listing of a ref that
      moved, or the top of a new ref's page. */
  ghost predicate IsNewCommit(e: RealEvent, before: Sight, after: Sight, synthetic: set<string>)
    requires SeesWell(before) && SeesWell(after)
  {
    && e.kind.CommitEvent? && e.ref in after.listed && e.author !in synthetic
    && if e.ref in before.listed
       then Moved(before, after, e.ref) &&
            exists i :: |before.listed[e.ref]| <= i < |after.paged[e.ref]| && Says(e, after.paged[e.ref][i])
       else !IsFork(e.ref) && Says(e, Tip(after.paged, e.ref))
  }

  /** A fork event of this poll: it names the listed head of a new fork ref, and takes
      its author from the top of the page read later. */
  predicate IsNewFork(e: RealEvent, before: Sight, after: Sight, synthetic: set<string>)
    requires SeesWell(before) && SeesWell(after)
  {
    && e.kind.ForkEvent? && e.ref in after.listed && e.ref !in before.listed && IsFork(e.ref)
    && e.target == Tip(after.listed, e.ref).hash && e.author == Tip(after.paged, e.ref).author && e.author !in synthetic
  }

  ghost predicate IsNew(e: RealEvent, before: Sight, after: Sight, synthetic: set<string>)
    requires SeesWell(before) && SeesWell(after)
  {
    IsNewCommit(e, before, after, synthetic) || IsNewFork(e, before, after, synthetic)
  }

  lemma ForkCandidateOfOne(ref: RefEntry, c: CommitMeta, synthetic: set<string>)
    ensures ForkCandidate(ref, [c], synthetic)
         == if c.author in synthetic then [] else [RealEvent(ForkEvent, ref.name, ref.head, c.author)]
  {
    assert [c][1..] == [];
    assert FindHash([c], ref.head) == if c.hash == ref.head then Some(c) else None;
  }

  /** The commit candidates of a ref that is not a new fork. */
  lemma NewestCandidates(name: string, commits: seq<CommitMeta>, from: nat, synthetic: set<string>, e: RealEvent)
    requires from <= |commits|
    ensures e in CommitCandidates(name, Newest(commits, from), synthetic, |Newest(commits, from)|) <==>
            (e.kind.CommitEvent? && e.ref == name && e.author !in synthetic &&
             exists i :: from <= i < |commits| && Says(e, commits[i]))
  {
    var newest := Newest(commits, from);
    CommitCandidatesAre(name, newest, synthetic, |newest|, e);
    if e in CommitCandidates(name, newest, synthetic, |newest|) {
      var k :| 0 <= k < |newest| && newest[k].author !in synthetic &&
               e == RealEvent(CommitEvent, name, newest[k].hash, newest[k].author);
      assert Says(e, commits[|commits| - 1 - k]);
    }
    if e.kind.CommitEvent? && e.ref == name && e.author !in synthetic &&
       exists i :: from <= i < |commits| && Says(e, commits[i]) {
      var i :| from <= i < |commits| && Says(e, commits[i]);
      assert newest[|commits| - 1 - i] == CommitMeta(e.target, e.author);
    }
  }

  /** A fork ref is new to `observe` exactly when the last poll did not list it. */
  lemma NewForkIsNewRef(w: Watermark, refs: seq<RefEntry>, listed: Room, m: nat)
    requires UniqueNames(refs) && m < |refs| && NoEmptyRef(listed) && Marks(w, listed)
    ensures IsFork(refs[m].name) ==> (refs[m].name in Forks(w.knownForks, refs, m) <==> refs[m].name in listed)
  {
    ForksGrow(w.knownForks, refs, m);
  }

  /** The candidates of one ref, by what the poll accepts for it. */
  lemma CandidatesByRef(w: Watermark, before: Sight, after: Sight, synthetic: set<string>, m: nat)
    requires Polls(w, before, after) && m < |after.refs|
    ensures after.refs[m].name in after.listed && after.refs[m].head == Tip(after.listed, after.refs[m].name).hash
    ensures var ref := after.refs[m];
            var commits := NewCommits(before, after, ref.name);
            CandidatesOf(w.knownForks, Polled(w, after), synthetic, m) ==
            (if IsFork(ref.name) && ref.name !in before.listed then ForkCandidate(ref, commits, synthetic)
             else CommitCandidates(ref.name, commits, synthetic, |commits|))
  {
    hide Polled, HashesAgree, Follows, Extends, Chains, CommitCandidates, ForkCandidate, Forks, NewCommits, Marks;
    assert after.refs[m] in after.refs;
    PolledCommits(w, before, after, after.refs[m].name);
    NewForkIsNewRef(w, after.refs, before.listed, m);
  }

  /** A ref the last poll listed. */
  lemma CandidatesOfKnown(before: Sight, after: Sight, synthetic: set<string>, e: RealEvent, name: string)
    requires SeesWell(before) && SeesWell(after) && Follows(before, after) && name in after.listed && name in before.listed
    ensures var commits := NewCommits(before, after, name);
            e in CommitCandidates(name, commits, synthetic, |commits|) <==> name == e.ref && IsNew(e, before, after, synthetic)
  {
    hide SeesWell, Follows, CommitCandidates, Newest, UniqueHashes, Says, IsFork;
    KnownRef(before, after, name);
    NewestCandidates(name, after.paged[name], |before.listed[name]|, synthetic, e);
    NoCandidates(name, synthetic);
  }

  /** What the candidates of one ref in one poll are. */
  lemma CandidatesOfRef(w: Watermark, before: Sight, after: Sight, synthetic: set<string>, e: RealEvent, m: nat)
    requires Polls(w, before, after) && m < |after.refs|
    ensures e in CandidatesOf(w.knownForks, Polled(w, after), synthetic, m) <==>
              after.refs[m].name == e.ref && IsNew(e, before, after, synthetic)
  {
    hide Polled, CandidatesOf, HashesAgree, Follows, Extends, Chains, CommitCandidates, ForkCandidate, Newest, Lists, Marks,
      NoEmptyRef;
    var ref := after.refs[m];
    CandidatesByRef(w, before, after, synthetic, m);
    KnownRef(before, after, ref.name);
    if ref.name in before.listed {
      CandidatesOfKnown(before, after, synthetic, e, ref.name);
    } else {
      var tip := Tip(after.paged, ref.name);
      ForkCandidateOfOne(ref, tip, synthetic);
      OneCandidate(ref.name, tip, synthetic, e);
    }
  }

  lemma NoCandidates(name: string, synthetic: set<string>)
    ensures CommitCandidates(name, [], synthetic, 0) == []
  {
  }

  lemma OneCandidate(name: string, c: CommitMeta, synthetic: set<string>, e: RealEvent)
    ensures e in CommitCandidates(name, [c], synthetic, 1) <==>
              e.kind.CommitEvent? && e.ref == name && e.author !in synthetic && Says(e, c)
  {
    CommitCandidatesAre(name, [c], synthetic, 1, e);
  }

  /** The candidates of one poll are exactly its new commits and forks. */
  lemma CandidatesOfPoll(w: Watermark, before: Sight, after: Sight, synthetic: set<string>, e: RealEvent)
    requires Polls(w, before, after)
    ensures e in Candidates(w.knownForks, Polled(w, after), synthetic, |after.refs|) <==> IsNew(e, before, after, synthetic)
  {
    hide Candidates, Polled, CandidatesOf, IsNew, Follows, Extends, Chains, HashesAgree, Marks;
    var snapshot := Polled(w, after);
    CandidatesAre(w.knownForks, snapshot, synthetic, |after.refs|, e);
    forall m | 0 <= m < |after.refs|
      ensures e in CandidatesOf(w.knownForks, snapshot, synthetic, m) <==>
                after.refs[m].name == e.ref && IsNew(e, before, after, synthetic)
    {
      CandidatesOfRef(w, before, after, synthetic, e, m);
    }
    if IsNew(e, before, after, synthetic) {
      NewIsListed(e, before, after, synthetic);
      var m := Listed(after.refs, after.listed, e.ref);
      assert e in CandidatesOf(w.knownForks, snapshot, synthetic, m);
    }
  }

  lemma NewIsListed(e: RealEvent, before: Sight, after: Sight, synthetic: set<string>)
    requires SeesWell(before) && SeesWell(after) && IsNew(e, before, after, synthetic)
    ensures e.ref in after.listed
  {
  }

  // ------------------------------------------------------------------ the dedup log

  lemma {:induction false} DedupeKeepsNew(responded: seq<string>, candidates: seq<RealEvent>, e: RealEvent)
    requires e in candidates && EventId(e) !in responded
    ensures EventId(e) in Ids(Dedupe(responded, candidates))
  {
    hide EventId;
    var init, last := candidates[..|candidates| - 1], candidates[|candidates| - 1];
    assert candidates == init + [last];
    var before, after := Dedupe(responded, init), Dedupe(responded, candidates);
    if e in init {
      DedupeKeepsNew(responded, init, e);
    }
    if after != before {
      assert Ids(after) == Ids(before) + [EventId(last)];
    }
  }

  lemma SameIdSameTarget(e: RealEvent, g: RealEvent)
    requires e.kind.CommitEvent? && EventId(e) == EventId(g)
    ensures g.kind.CommitEvent? && e.target == g.target
  {
    assert EventId(e)[0] == 'c';
    assert EventId(g)[|"commit:"|..] == g.target || g.kind.ForkEvent?;
    assert EventId(e)[|"commit:"|..] == e.target;
  }

  lemma SameIdSameRef(e: RealEvent, g: RealEvent)
    requires e.kind.ForkEvent? && EventId(e) == EventId(g)
    ensures g.kind.ForkEvent? && e.ref == g.ref
  {
    assert EventId(e)[0] == 'f';
    assert EventId(g)[|"fork:"|..] == g.ref || g.kind.CommitEvent?;
    assert EventId(e)[|"fork:"|..] == e.ref;
  }

  /** What a poll adds to the log: new events under distinct ids not reported lately, and
      every new id not reported lately. */
  ghost predicate Adds(more: seq<RealEvent>, responded: seq<string>, before: Sight, after: Sight, synthetic: set<string>)
    requires SeesWell(before) && SeesWell(after)
  {
    && Distinct(Ids(more))
    && (forall id | id in Ids(more) :: id !in responded)
    && (forall e | e in more :: IsNew(e, before, after, synthetic))
    && (forall e | IsNew(e, before, after, synthetic) && EventId(e) !in responded :: EventId(e) in Ids(more))
  }

  lemma PollAdds(w: Watermark, before: Sight, after: Sight, synthetic: set<string>)
    requires Polls(w, before, after)
    ensures Adds(Reported(w, Polled(w, after), synthetic), w.responded, before, after, synthetic)
  {
    assert w.initialized;
    hide Candidates, Polled, Polls, SeesWell, Dedupe, Ids, EventId, IsNew, Distinct;
    var candidates := Candidates(w.knownForks, Polled(w, after), synthetic, |after.refs|);
    DedupeIsNew(w.responded, candidates);
    forall e
      ensures e in candidates <==> IsNew(e, before, after, synthetic)
    {
      CandidatesOfPoll(w, before, after, synthetic, e);
    }
    forall e | IsNew(e, before, after, synthetic) && EventId(e) !in w.responded
      ensures EventId(e) in Ids(Dedupe(w.responded, candidates))
    {
      DedupeKeepsNew(w.responded, candidates, e);
    }
  }

  // ------------------------------------------------------------------ the watermark

  lemma HeadsOfRoom(refs: seq<RefEntry>, room: Room)
    requires NoEmptyRef(room) && Lists(refs, room)
    ensures forall name :: name in Heads(refs, |refs|) <==> name in room
    ensures forall name | name in room :: Heads(refs, |refs|)[name] == Tip(room, name).hash
  {
    HeadsAre(refs, |refs|);
    hide Heads, UniqueNames;
    forall name
      ensures name in Heads(refs, |refs|) <==> name in room
      ensures name in room ==> Heads(refs, |refs|)[name] == Tip(room, name).hash
    {
      if i :| 0 <= i < |refs| && refs[i].name == name {
        assert refs[i] in refs;
      }
    }
  }

  lemma ForksOfRoom(known: seq<string>, refs: seq<RefEntry>, before: Room, after: Room)
    requires NoEmptyRef(after) && Lists(refs, after) && forall name | name in before :: name in after
    requires forall f :: f in known <==> f in before && IsFork(f)
    ensures forall f :: f in Forks(known, refs, |refs|) <==> f in after && IsFork(f)
  {
    ForksGrow(known, refs, |refs|);
    hide Forks;
    forall f
      ensures f in Forks(known, refs, |refs|) <==> f in after && IsFork(f)
    {
      if i :| 0 <= i < |refs| && refs[i].name == f {
        assert refs[i] in refs;
      }
    }
  }

  lemma NamedForksOfRoom(refs: seq<RefEntry>, room: Room)
    requires NoEmptyRef(room) && Lists(refs, room)
    ensures forall f :: f in NamedForks(refs, |refs|) <==> f in room && IsFork(f)
  {
    NamedForksAre(refs, |refs|);
    hide NamedForks;
    forall f
      ensures f in NamedForks(refs, |refs|) <==> f in room && IsFork(f)
    {
      if i :| 0 <= i < |refs| && refs[i].name == f {
        assert refs[i] in refs;
      }
    }
  }

  lemma AdvancedFields(w: Watermark, s: Sight, synthetic: set<string>)
    ensures var next := Advanced(w, Polled(w, s), synthetic);
            && next.initialized
            && next.refHeads == Heads(s.refs, |s.refs|)
            && next.knownForks == (if w.initialized then Forks(w.knownForks, s.refs, |s.refs|) else NamedForks(s.refs, |s.refs|))
            && next.responded == (if w.initialized
                                  then Capped(w.responded + Ids(Reported(w, Polled(w, s), synthetic)))
                                  else w.responded)
  {
    hide Heads, Forks, NamedForks, Capped, Ids, Reported, SnapshotCommits;
  }

  lemma StillListed(before: Sight, after: Sight)
    requires SeesWell(before) && SeesWell(after) && Follows(before, after)
    ensures forall name | name in before.listed :: name in after.listed
  {
  }

  /** The watermark after a poll is that of its listing, not of its pages. */
  lemma PollMarks(w: Watermark, before: Sight, after: Sight, synthetic: set<string>)
    requires Polls(w, before, after)
    ensures Marks(Advanced(w, Polled(w, after), synthetic), after.listed)
  {
    hide Polled, Advanced, Reported, Heads, Forks, NamedForks, Capped, Ids, IsFork, Lists, HashesAgree, Chains, Extends,
      Follows, Tip;
    StillListed(before, after);
    AdvancedFields(w, after, synthetic);
    HeadsOfRoom(after.refs, after.listed);
    ForksOfRoom(w.knownForks, after.refs, before.listed, after.listed);
  }

  /** The first poll is the baseline: it marks what it lists and reports nothing. */
  lemma BaselineMarks(s: Sight, synthetic: set<string>)
    requires SeesWell(s)
    ensures Marks(Advanced(FRESH, Polled(FRESH, s), synthetic), s.listed)
    ensures Reported(FRESH, Polled(FRESH, s), synthetic) == []
    ensures Advanced(FRESH, Polled(FRESH, s), synthetic).responded == []
  {
    hide Polled, Advanced, Heads, NamedForks, IsFork, Lists, HashesAgree, Chains, Extends;
    AdvancedFields(FRESH, s, synthetic);
    HeadsOfRoom(s.refs, s.listed);
    NamedForksOfRoom(s.refs, s.listed);
  }

  // ------------------------------------------------------------------ a ref's first poll

  /** What a new ref should be reported with: its listed head, if a real author made it. */
  function Due(name: string, head: CommitMeta, synthetic: set<string>): (events: seq<RealEvent>) {
    if head.author in synthetic then []
    else [RealEvent(if IsFork(name) then ForkEvent else CommitEvent, name, head.hash, head.author)]
  }

  /** A new ref that is not a fork is reported correctly exactly when its page starts at
      its listed head, or when neither that head nor the top of the page is real. */
  lemma NewRefIsRightIff(name: string, listed: seq<CommitMeta>, paged: seq<CommitMeta>, synthetic: set<string>)
    requires listed != [] && listed <= paged && UniqueHashes(paged) && !IsFork(name)
    ensures var head, page := listed[|listed| - 1], PageOf(paged);
            CommitCandidates(name, [page[0]], synthetic, 1) == Due(name, head, synthetic) <==>
              page[0].hash == head.hash || (page[0].author in synthetic && head.author in synthetic)
  {
    var head, top := listed[|listed| - 1], PageOf(paged)[0];
    assert CommitCandidates(name, [top], synthetic, 0) == [];
    assert top.hash == head.hash ==> top == head;
  }

  /** A new fork ref is reported correctly exactly when the top of its page has the author
      of its listed head, or neither author is real: starting at that head is enough. */
  lemma NewForkIsRightIff(ref: RefEntry, listed: seq<CommitMeta>, paged: seq<CommitMeta>, synthetic: set<string>)
    requires listed != [] && listed <= paged && UniqueHashes(paged) && IsFork(ref.name)
    requires ref.head == listed[|listed| - 1].hash
    ensures var head, page := listed[|listed| - 1], PageOf(paged);
            && (ForkCandidate(ref, [page[0]], synthetic) == Due(ref.name, head, synthetic) <==>
                  page[0].author == head.author || (page[0].author in synthetic && head.author in synthetic))
            && (page[0].hash == ref.head ==> page[0].author == head.author)
  {
    var head, top := listed[|listed| - 1], PageOf(paged)[0];
    ForkCandidateOfOne(ref, top, synthetic);
    assert top.hash == head.hash ==> top == head;
  }
}
