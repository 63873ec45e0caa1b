/** The compare-and-swap protocol on refs: `evaluate_cas` of
    `apps/repo-worker/src/refs.rs`, and any number of concurrent runs of
    `emitCommit` and `emitRemix` (`apps/spammer-worker/src/events.ts`), interleaved
    at every remote call. A run that dies simply takes no further step. */
module RefCas {
  import opened Option

  /** An object id. Ids are content addresses: `hash` below is injective. */
  type Id = nat

  datatype RefExpectation = Unspecified | Any | Missing | Match

  datatype ConflictReason = Exists | Absent | Mismatch

  datatype CasDecision = Committed | Conflict(reason: ConflictReason) | Invalid(message: string)

  /** `evaluate_cas(current, expectation, expected)`. */
  function EvaluateCas(current: Option<Id>, expectation: RefExpectation, expected: Option<Id>): (d: CasDecision) {
    match expectation
    case Any => if expected.Some? then Invalid("expected_id must be empty for ANY") else Committed
    case Missing =>
      if expected.Some? then Invalid("expected_id must be empty for MISSING")
      else if current.None? then Committed
      else Conflict(Exists)
    case Match =>
      if expected.None? then Invalid("expected_id required for MATCH")
      else if current.None? then Conflict(Absent)
      else if current.value != expected.value then Conflict(Mismatch)
      else Committed
    case Unspecified => Invalid("expectation is UNSPECIFIED (protocol error)")
  }

  /** A request names an expected id exactly when it asks for a match. */
  predicate WellFormed(expectation: RefExpectation, expected: Option<Id>) {
    !expectation.Unspecified? && (expectation.Match? <==> expected.Some?)
  }

  /** The ref is what the caller expects it to be. */
  predicate Meets(current: Option<Id>, expectation: RefExpectation, expected: Option<Id>) {
    expectation.Any? || current == expected
  }

  /** A swap commits exactly when the request is well formed and the ref is what it
      expects; the conflict says what the ref was instead. */
  lemma CasIsExact(current: Option<Id>, expectation: RefExpectation, expected: Option<Id>)
    ensures var d := EvaluateCas(current, expectation, expected);
            && (d.Invalid? <==> !WellFormed(expectation, expected))
            && (d.Committed? <==> WellFormed(expectation, expected) && Meets(current, expectation, expected))
            && (d.Conflict? ==> (d.reason.Exists? <==> expected.None?) && (d.reason.Absent? <==> current.None?))
            && (d.Invalid? ==> d.message == match expectation {
                  case Unspecified => "expectation is UNSPECIFIED (protocol error)"
                  case Any => "expected_id must be empty for ANY"
                  case Missing => "expected_id must be empty for MISSING"
                  case Match => "expected_id required for MATCH"
                })
  {
  }

  // ------------------------------------------------------------------ the world

  /** A signed commit or remix: its parent and everything else it says. */
  datatype Object = Object(parent: Option<Id>, content: string)

  /** Where one run of `emitCommit` or `emitRemix` stands. `seen` counts the commits
      on its ref when it read the head. */
  datatype Phase =
    | Reading(attempt: nat)
    | Putting(attempt: nat, head: Option<Id>, seen: nat)
    | Updating(attempt: nat, head: Option<Id>, seen: nat, id: Id)
    | Won(id: Id, parent: Option<Id>)
    | Lost(id: Id)

  datatype Pusher = Pusher(ref: string, phase: Phase)

  /** One commit on a ref, and the run that made it. */
  datatype Commit = Commit(id: Id, author: nat)

  datatype World = World(
    objects: map<Id, Object>, refs: map<string, Id>, pushers: map<nat, Pusher>, log: map<string, seq<Commit>>)

  const EMPTY := World(map[], map[], map[], map[])

  function HeadOf(w: World, ref: string): (head: Option<Id>) {
    if ref in w.refs then Some(w.refs[ref]) else None
  }

  function Log(w: World, ref: string): (commits: seq<Commit>) {
    if ref in w.log then w.log[ref] else []
  }

  /** One remote call of one run, or a new run. `content` is what the run signs:
      message, author, time, upstream. */
  datatype Action =
    | Start(who: nat, ref: string)
    | Read(who: nat)
    | Put(who: nat, content: string)
    | Update(who: nat)

  function Moved(w: World, who: nat, phase: Phase): (next: World)
    requires who in w.pushers
  {
    w.(pushers := w.pushers[who := w.pushers[who].(phase := phase)])
  }

  /** The CAS request a run sends. */
  function Expectation(head: Option<Id>): (e: RefExpectation) {
    if head.Some? then Match else Missing
  }

  function Decision(w: World, p: Pusher): (d: CasDecision)
    requires p.phase.Updating?
  {
    EvaluateCas(HeadOf(w, p.ref), Expectation(p.phase.head), p.phase.head)
  }

  /** `update_ref`: commit, or read the head again once, or give up. */
  function Updated(w: World, who: nat): (next: World)
    requires who in w.pushers && w.pushers[who].phase.Updating?
  {
    var p := w.pushers[who];
    if Decision(w, p).Committed? then
      Moved(w, who, Won(p.phase.id, p.phase.head)).(
        refs := w.refs[p.ref := p.phase.id],
        log := w.log[p.ref := Log(w, p.ref) + [Commit(p.phase.id, who)]])
    else if p.phase.attempt == 0 then Moved(w, who, Reading(1))
    else Moved(w, who, Lost(p.phase.id))
  }

  /** One step. An action a run is not ready for changes nothing. */
  function Next(hash: Object -> Id, w: World, a: Action): (next: World) {
    match a
    case Start(who, ref) =>
      if who in w.pushers then w else w.(pushers := w.pushers[who := Pusher(ref, Reading(0))])
    case Read(who) =>
      if who in w.pushers && w.pushers[who].phase.Reading? then
        var p := w.pushers[who];
        Moved(w, who, Putting(p.phase.attempt, HeadOf(w, p.ref), |Log(w, p.ref)|))
      else w
    case Put(who, content) =>
      if who in w.pushers && w.pushers[who].phase.Putting? then
        var p := w.pushers[who];
        var signed := Object(p.phase.head, content);
        Moved(w, who, Updating(p.phase.attempt, p.phase.head, p.phase.seen, hash(signed))).(
          objects := w.objects[hash(signed) := signed])
      else w
    case Update(who) =>
      if who in w.pushers && w.pushers[who].phase.Updating? then Updated(w, who) else w
  }

  function Run(hash: Object -> Id, actions: seq<Action>): (w: World) {
    if actions == [] then EMPTY else Next(hash, Run(hash, actions[..|actions| - 1]), actions[|actions| - 1])
  }

  ghost predicate Injective(hash: Object -> Id) {
    forall a, b :: hash(a) == hash(b) ==> a == b
  }

  // ------------------------------------------------------------ what every step keeps

  function ParentAt(log: seq<Commit>, k: nat): (parent: Option<Id>)
    requires k <= |log|
  {
    if k == 0 then None else Some(log[k - 1].id)
  }

  /** Every commit was put, and its parent is the commit before it. */
  predicate Chained(objects: map<Id, Object>, log: seq<Commit>) {
    forall k | 0 <= k < |log| :: log[k].id in objects && objects[log[k].id].parent == ParentAt(log, k)
  }

  /** The ref names the newest commit, every commit was put, and each commit's
      parent is the value it replaced. */
  predicate Linear(w: World, ref: string) {
    var log := Log(w, ref);
    HeadOf(w, ref) == ParentAt(log, |log|) && Chained(w.objects, log)
  }

  /** A run between its read and its CAS carries a head its ref really had, and an
      object built on it. */
  predicate Prepared(w: World, p: Pusher) {
    var log := Log(w, p.ref);
    match p.phase
    case Putting(_, head, seen) => seen <= |log| && head == ParentAt(log, seen)
    case Updating(_, head, seen, id) =>
      seen <= |log| && head == ParentAt(log, seen) && id in w.objects && w.objects[id].parent == head
    case _ => true
  }

  /** Commit `k` of a ref was made by the run the log credits, which says so. */
  predicate CreditedAt(w: World, ref: string, k: nat)
    requires k < |Log(w, ref)|
  {
    var log := Log(w, ref);
    var who := log[k].author;
    who in w.pushers && w.pushers[who] == Pusher(ref, Won(log[k].id, ParentAt(log, k)))
  }

  predicate Credited(w: World, ref: string) {
    var log := Log(w, ref);
    && (forall k | 0 <= k < |log| :: CreditedAt(w, ref, k))
    && (forall j, k | 0 <= j < k < |log| :: log[j].author != log[k].author)
  }

  /** A run that says it committed is in the log of its ref. */
  ghost predicate Recorded(w: World, who: nat)
    requires who in w.pushers
  {
    var log := Log(w, w.pushers[who].ref);
    w.pushers[who].phase.Won? ==> exists k :: 0 <= k < |log| && log[k].author == who
  }

  ghost predicate Addressed(hash: Object -> Id, objects: map<Id, Object>) {
    forall id | id in objects :: hash(objects[id]) == id
  }

  ghost predicate Sound(hash: Object -> Id, w: World) {
    && Addressed(hash, w.objects)
    && (forall ref :: Linear(w, ref))
    && (forall ref :: Credited(w, ref))
    && (forall who | who in w.pushers :: Prepared(w, w.pushers[who]))
    && (forall who | who in w.pushers :: Recorded(w, who))
  }

  /** A step that changes no ref: one run moves, and objects may be added. */
  ghost predicate Quiet(w: World, next: World, who: nat) {
    && next.refs == w.refs && next.log == w.log
    && (forall id | id in w.objects :: id in next.objects && next.objects[id] == w.objects[id])
    && next.pushers.Keys == w.pushers.Keys + {who}
    && (forall q | q in w.pushers && q != who :: next.pushers[q] == w.pushers[q])
    && (who in w.pushers ==> !w.pushers[who].phase.Won?)
    && !next.pushers[who].phase.Won?
  }

  lemma QuietKeepsSound(hash: Object -> Id, w: World, next: World, who: nat)
    requires Sound(hash, w) && Quiet(w, next, who)
    requires Addressed(hash, next.objects) && Prepared(next, next.pushers[who])
    ensures Sound(hash, next)
  {
    forall ref
      ensures Linear(next, ref) && Credited(next, ref)
    {
      QuietKeepsRef(w, next, who, ref);
    }
    forall q | q in next.pushers
      ensures Prepared(next, next.pushers[q]) && Recorded(next, q)
    {
      if q != who {
        assert Prepared(w, w.pushers[q]) && Recorded(w, q);
      }
    }
  }

  lemma QuietKeepsRef(w: World, next: World, who: nat, ref: string)
    requires Quiet(w, next, who) && Linear(w, ref) && Credited(w, ref)
    ensures Linear(next, ref) && Credited(next, ref)
  {
    forall k | 0 <= k < |Log(next, ref)|
      ensures CreditedAt(next, ref, k)
    {
      assert CreditedAt(w, ref, k);
    }
  }

  /** A CAS commits on the very head the run read. */
  lemma CommitsOnItsHead(w: World, p: Pusher)
    requires p.phase.Updating? && Decision(w, p).Committed?
    ensures HeadOf(w, p.ref) == p.phase.head
  {
  }

  /** What a committed CAS does to the log of a ref. */
  lemma CommitLog(w: World, who: nat, ref: string)
    requires who in w.pushers && w.pushers[who].phase.Updating? && Decision(w, w.pushers[who]).Committed?
    ensures Log(Updated(w, who), ref)
         == Log(w, ref) + (if ref == w.pushers[who].ref then [Commit(w.pushers[who].phase.id, who)] else [])
    ensures HeadOf(Updated(w, who), ref)
         == if ref == w.pushers[who].ref then Some(w.pushers[who].phase.id) else HeadOf(w, ref)
    ensures Updated(w, who).objects == w.objects
    ensures Updated(w, who).pushers
         == w.pushers[who := Pusher(w.pushers[who].ref, Won(w.pushers[who].phase.id, w.pushers[who].phase.head))]
  {
  }

  lemma CommitKeepsLinear(w: World, who: nat, ref: string)
    requires who in w.pushers && w.pushers[who].phase.Updating? && Decision(w, w.pushers[who]).Committed?
    requires Prepared(w, w.pushers[who]) && Linear(w, ref)
    ensures Linear(Updated(w, who), ref)
  {
    CommitsOnItsHead(w, w.pushers[who]);
    CommitLog(w, who, ref);
    hide Decision, Log, Updated, HeadOf;
    var log, more := Log(w, ref), Log(Updated(w, who), ref);
    if ref == w.pushers[who].ref {
      ChainOneMore(w.objects, log, more[|log|]);
    } else {
      assert more == log;
    }
  }

  lemma ChainOneMore(objects: map<Id, Object>, log: seq<Commit>, c: Commit)
    requires Chained(objects, log) && c.id in objects && objects[c.id].parent == ParentAt(log, |log|)
    ensures Chained(objects, log + [c])
  {
    forall k | 0 <= k < |log + [c]|
      ensures (log + [c])[k].id in objects && objects[(log + [c])[k].id].parent == ParentAt(log + [c], k)
    {
      assert ParentAt(log + [c], k) == ParentAt(log, k);
    }
  }

  /** Credits given stay given: the run that just committed had none. */
  lemma CreditsKept(w: World, who: nat, ref: string, k: nat)
    requires who in w.pushers && w.pushers[who].phase.Updating? && Decision(w, w.pushers[who]).Committed?
    requires k < |Log(w, ref)| && CreditedAt(w, ref, k)
    ensures k < |Log(Updated(w, who), ref)| && Log(Updated(w, who), ref)[k] == Log(w, ref)[k]
    ensures CreditedAt(Updated(w, who), ref, k) && Log(w, ref)[k].author != who
  {
    CommitLog(w, who, ref);
    hide Decision, Log, Updated, HeadOf;
    var log, more := Log(w, ref), Log(Updated(w, who), ref);
    assert more[k] == log[k] && ParentAt(more, k) == ParentAt(log, k);
  }

  lemma NewCredit(w: World, who: nat)
    requires who in w.pushers && w.pushers[who].phase.Updating? && Decision(w, w.pushers[who]).Committed?
    requires Linear(w, w.pushers[who].ref)
    ensures var ref := w.pushers[who].ref;
            var n := |Log(w, ref)|;
            n < |Log(Updated(w, who), ref)| && CreditedAt(Updated(w, who), ref, n) &&
            Log(Updated(w, who), ref)[n].author == who
  {
    var ref := w.pushers[who].ref;
    CommitsOnItsHead(w, w.pushers[who]);
    CommitLog(w, who, ref);
    hide Decision, Log, Updated, HeadOf, Chained;
    var log, more := Log(w, ref), Log(Updated(w, who), ref);
    assert ParentAt(more, |log|) == ParentAt(log, |log|);
  }

  lemma CommitKeepsCredited(w: World, who: nat, ref: string)
    requires who in w.pushers && w.pushers[who].phase.Updating? && Decision(w, w.pushers[who]).Committed?
    requires Linear(w, ref) && Credited(w, ref)
    ensures Credited(Updated(w, who), ref)
  {
    hide Decision, Log, Updated, HeadOf, Linear, CreditedAt;
    CommitLog(w, who, ref);
    var log, more := Log(w, ref), Log(Updated(w, who), ref);
    forall k | 0 <= k < |log|
      ensures CreditedAt(Updated(w, who), ref, k) && log[k].author != who
    {
      CreditsKept(w, who, ref, k);
    }
    if ref == w.pushers[who].ref {
      NewCredit(w, who);
      AuthorsDiffer(log, Commit(w.pushers[who].phase.id, who));
    } else {
      assert more == log;
    }
  }

  lemma AuthorsDiffer(log: seq<Commit>, c: Commit)
    requires forall j, k | 0 <= j < k < |log| :: log[j].author != log[k].author
    requires forall k | 0 <= k < |log| :: log[k].author != c.author
    ensures forall j, k | 0 <= j < k < |log + [c]| :: (log + [c])[j].author != (log + [c])[k].author
  {
  }

  lemma CommitKeepsPusher(w: World, who: nat, q: nat)
    requires who in w.pushers && w.pushers[who].phase.Updating? && Decision(w, w.pushers[who]).Committed?
    requires q in w.pushers && Prepared(w, w.pushers[q]) && Recorded(w, q)
    ensures Prepared(Updated(w, who), Updated(w, who).pushers[q]) && Recorded(Updated(w, who), q)
  {
    var p, next := w.pushers[who], Updated(w, who);
    var log, more := Log(w, w.pushers[q].ref), Log(next, w.pushers[q].ref);
    assert forall k | 0 <= k < |log| :: more[k] == log[k];
    if q == who {
      assert more[|log|].author == who;
    } else if w.pushers[q].phase.Won? {
      var k :| 0 <= k < |log| && log[k].author == q;
      assert more[k].author == q;
    }
  }

  lemma UpdateKeepsSound(hash: Object -> Id, w: World, who: nat)
    requires Sound(hash, w) && who in w.pushers && w.pushers[who].phase.Updating?
    ensures Sound(hash, Updated(w, who))
  {
    hide Linear, Credited, Prepared, Recorded;
    var next := Updated(w, who);
    if Decision(w, w.pushers[who]).Committed? {
      forall ref
        ensures Linear(next, ref) && Credited(next, ref)
      {
        CommitKeepsLinear(w, who, ref);
        CommitKeepsCredited(w, who, ref);
      }
      forall q | q in next.pushers
        ensures Prepared(next, next.pushers[q]) && Recorded(next, q)
      {
        CommitKeepsPusher(w, who, q);
      }
    } else {
      ConflictIsPrepared(w, who);
      QuietKeepsSound(hash, w, next, who);
    }
  }

  lemma ConflictIsPrepared(w: World, who: nat)
    requires who in w.pushers && w.pushers[who].phase.Updating? && !Decision(w, w.pushers[who]).Committed?
    ensures Prepared(Updated(w, who), Updated(w, who).pushers[who]) && Quiet(w, Updated(w, who), who)
  {
  }

  lemma StartKeepsSound(hash: Object -> Id, w: World, who: nat, ref: string)
    requires Sound(hash, w)
    ensures Sound(hash, Next(hash, w, Start(who, ref)))
  {
    hide Sound;
    if who !in w.pushers {
      assert Addressed(hash, w.objects) by { AddressedOf(hash, w); }
      QuietKeepsSound(hash, w, Next(hash, w, Start(who, ref)), who);
    }
  }

  lemma AddressedOf(hash: Object -> Id, w: World)
    requires Sound(hash, w)
    ensures Addressed(hash, w.objects)
  {
  }

  lemma ReadKeepsSound(hash: Object -> Id, w: World, who: nat)
    requires Sound(hash, w)
    ensures Sound(hash, Next(hash, w, Read(who)))
  {
    if who in w.pushers && w.pushers[who].phase.Reading? {
      assert Linear(w, w.pushers[who].ref);
      QuietKeepsSound(hash, w, Next(hash, w, Read(who)), who);
    }
  }

  lemma PutKeepsSound(hash: Object -> Id, w: World, who: nat, content: string)
    requires Injective(hash) && Sound(hash, w)
    ensures Sound(hash, Next(hash, w, Put(who, content)))
  {
    if who in w.pushers && w.pushers[who].phase.Putting? {
      assert Prepared(w, w.pushers[who]);
      QuietKeepsSound(hash, w, Next(hash, w, Put(who, content)), who);
    }
  }

  lemma {:induction false} RunSound(hash: Object -> Id, actions: seq<Action>)
    requires Injective(hash)
    ensures Sound(hash, Run(hash, actions))
  {
    hide Sound, Injective, Updated;
    if actions == [] {
      EmptySound(hash);
    } else {
      var init, a := actions[..|actions| - 1], actions[|actions| - 1];
      RunSound(hash, init);
      var w := Run(hash, init);
      match a
      case Start(who, ref) => StartKeepsSound(hash, w, who, ref);
      case Read(who) => ReadKeepsSound(hash, w, who);
      case Put(who, content) => PutKeepsSound(hash, w, who, content);
      case Update(who) =>
        if who in w.pushers && w.pushers[who].phase.Updating? {
          UpdateKeepsSound(hash, w, who);
        }
    }
  }

  lemma EmptySound(hash: Object -> Id)
    ensures Sound(hash, EMPTY)
  {
  }

  // ------------------------------------------------------------------- the laws

  /** In every interleaving, each ref's history is a linear chain: the ref names its
      newest commit, each commit was put before the ref named it, and each commit's
      parent is the value it replaced. */
  lemma LinearHistory(hash: Object -> Id, actions: seq<Action>, ref: string)
    requires Injective(hash)
    ensures Linear(Run(hash, actions), ref)
  {
    RunSound(hash, actions);
  }

  /** Following parents from `from` for `steps` steps ends at `to`. */
  predicate Reaches(objects: map<Id, Object>, from: Id, to: Id, steps: nat)
    decreases steps
  {
    if steps == 0 then from == to
    else from in objects && objects[from].parent.Some? && Reaches(objects, objects[from].parent.value, to, steps - 1)
  }

  /** The number of objects from `id` back to its root. */
  predicate DepthIs(objects: map<Id, Object>, id: Id, depth: nat)
    decreases depth
  {
    && depth >= 1
    && id in objects
    && (match objects[id].parent
        case None => depth == 1
        case Some(parent) => DepthIs(objects, parent, depth - 1))
  }

  lemma ChainStep(w: World, ref: string, k: nat)
    requires Linear(w, ref) && 0 < k < |Log(w, ref)|
    ensures Log(w, ref)[k].id in w.objects && w.objects[Log(w, ref)[k].id].parent == Some(Log(w, ref)[k - 1].id)
  {
  }

  lemma {:induction false} ChainReaches(w: World, ref: string, j: nat, k: nat)
    requires Linear(w, ref) && j <= k < |Log(w, ref)|
    ensures Reaches(w.objects, Log(w, ref)[k].id, Log(w, ref)[j].id, k - j)
    decreases k
  {
    hide Linear, Log;
    if j < k {
      ChainReaches(w, ref, j, k - 1);
      ChainStep(w, ref, k);
    }
  }

  lemma {:induction false} ChainDepth(w: World, ref: string, k: nat)
    requires Linear(w, ref) && k < |Log(w, ref)|
    ensures DepthIs(w.objects, Log(w, ref)[k].id, k + 1)
  {
    if k > 0 {
      ChainDepth(w, ref, k - 1);
    }
  }

  lemma DepthUnique(objects: map<Id, Object>, id: Id, m: nat, n: nat)
    requires DepthIs(objects, id, m) && DepthIs(objects, id, n)
    ensures m == n
    decreases m
  {
    if objects[id].parent.Some? {
      DepthUnique(objects, objects[id].parent.value, m - 1, n - 1);
    }
  }

  lemma HeadIsLast(w: World, ref: string)
    requires Linear(w, ref) && Log(w, ref) != []
    ensures ref in w.refs && w.refs[ref] == Log(w, ref)[|Log(w, ref)| - 1].id
  {
  }

  lemma StepGrows(hash: Object -> Id, w: World, a: Action, ref: string)
    ensures Log(w, ref) <= Log(Next(hash, w, a), ref)
  {
  }

  /** A ref's log only ever grows. */
  lemma {:induction false} LogGrows(hash: Object -> Id, actions: seq<Action>, n: nat, ref: string)
    requires n <= |actions|
    ensures Log(Run(hash, actions[..n]), ref) <= Log(Run(hash, actions), ref)
    decreases |actions| - n
  {
    hide Next, Log;
    if n == |actions| {
      assert actions[..n] == actions;
    } else {
      LogGrows(hash, actions, n + 1, ref);
      assert actions[..n + 1][..n] == actions[..n];
      StepGrows(hash, Run(hash, actions[..n]), actions[n], ref);
    }
  }

  /** No commit is ever lost: every object ever committed to a ref stays reachable
      from its head, at every later moment of every interleaving, and the depth of
      the head is the number of commits made. */
  lemma CommitsStayReachable(hash: Object -> Id, actions: seq<Action>, n: nat, ref: string, j: nat)
    requires Injective(hash) && n <= |actions|
    requires j < |Log(Run(hash, actions[..n]), ref)|
    ensures var w := Run(hash, actions);
            && ref in w.refs
            && j < |Log(w, ref)|
            && Reaches(w.objects, w.refs[ref], Log(Run(hash, actions[..n]), ref)[j].id, |Log(w, ref)| - 1 - j)
            && DepthIs(w.objects, w.refs[ref], |Log(w, ref)|)
  {
    hide Run, Reaches, DepthIs, Sound, Injective, Log, Linear;
    LinearHistory(hash, actions, ref);
    LogGrows(hash, actions, n, ref);
    var w := Run(hash, actions);
    HeadIsLast(w, ref);
    ChainReaches(w, ref, j, |Log(w, ref)| - 1);
    ChainDepth(w, ref, |Log(w, ref)| - 1);
  }

  /** A ref never takes the same value twice, so a matching CAS really means that
      nothing happened in between. */
  lemma HeadsNeverRepeat(hash: Object -> Id, actions: seq<Action>, ref: string, j: nat, k: nat)
    requires Injective(hash)
    requires j < k < |Log(Run(hash, actions), ref)|
    ensures Log(Run(hash, actions), ref)[j].id != Log(Run(hash, actions), ref)[k].id
  {
    hide Run, DepthIs;
    var w := Run(hash, actions);
    LinearHistory(hash, actions, ref);
    ChainDepth(w, ref, j);
    ChainDepth(w, ref, k);
    if Log(w, ref)[j].id == Log(w, ref)[k].id {
      DepthUnique(w.objects, Log(w, ref)[j].id, j + 1, k + 1);
    }
  }

  /** A run's CAS is never malformed; it commits exactly when its ref has gained no
      commit since the run read it, so every conflict is another run's commit. */
  lemma CasDecides(hash: Object -> Id, actions: seq<Action>, who: nat)
    requires Injective(hash)
    requires var w := Run(hash, actions); who in w.pushers && w.pushers[who].phase.Updating?
    ensures var w := Run(hash, actions);
            var p := w.pushers[who];
            && !Decision(w, p).Invalid?
            && p.phase.seen <= |Log(w, p.ref)|
            && (Decision(w, p).Committed? <==> |Log(w, p.ref)| == p.phase.seen)
  {
    hide Run, Injective, Sound, Linear, Prepared, Decision, Log;
    SoundPusher(hash, actions, who);
    var w := Run(hash, actions);
    var p := w.pushers[who];
    SeenIsInLog(w, p);
    var seen, n := p.phase.seen, |Log(w, p.ref)|;
    if 0 < seen < n {
      HeadsNeverRepeat(hash, actions, p.ref, seen - 1, n - 1);
    }
    DecisionBySeen(w, p);
  }

  lemma SoundPusher(hash: Object -> Id, actions: seq<Action>, who: nat)
    requires Injective(hash) && who in Run(hash, actions).pushers
    ensures var w := Run(hash, actions);
            Linear(w, w.pushers[who].ref) && Prepared(w, w.pushers[who])
  {
    hide Run, Injective, Linear, Prepared;
    RunSound(hash, actions);
  }

  lemma SeenIsInLog(w: World, p: Pusher)
    requires Prepared(w, p) && p.phase.Updating?
    ensures p.phase.seen <= |Log(w, p.ref)|
  {
  }

  lemma DecisionBySeen(w: World, p: Pusher)
    requires Linear(w, p.ref) && Prepared(w, p) && p.phase.Updating?
    requires var log := Log(w, p.ref);
             0 < p.phase.seen < |log| ==> log[p.phase.seen - 1].id != log[|log| - 1].id
    ensures !Decision(w, p).Invalid?
    ensures Decision(w, p).Committed? <==> |Log(w, p.ref)| == p.phase.seen
  {
    hide Log, HeadOf, Chained;
  }

  /** The commits of a ref are exactly the runs that report success, one each, with
      the id and parent they report. */
  lemma WinnersAreTheHistory(hash: Object -> Id, actions: seq<Action>, who: nat) returns (k: nat)
    requires Injective(hash)
    requires var w := Run(hash, actions); who in w.pushers && w.pushers[who].phase.Won?
    ensures var w := Run(hash, actions);
            var log := Log(w, w.pushers[who].ref);
            && k < |log|
            && log[k] == Commit(w.pushers[who].phase.id, who)
            && w.pushers[who].phase.parent == ParentAt(log, k)
            && forall j | 0 <= j < |log| && log[j].author == who :: j == k
  {
    hide Run, Injective;
    RunSound(hash, actions);
    var w := Run(hash, actions);
    assert Recorded(w, who) && Credited(w, w.pushers[who].ref);
    hide Sound;
    var ref := w.pushers[who].ref;
    k :| 0 <= k < |Log(w, ref)| && Log(w, ref)[k].author == who;
    assert CreditedAt(w, ref, k);
  }

  // -------------------------------------------------------------------- fork refs

  function Slice12(hex: string): (s: string) {
    if |hex| <= 12 then hex else hex[..12]
  }

  /** `forkRefName(upstreamCommitHash, forkerPubkeyHex)`. */
  function ForkRefName(upstream: string, pubkey: string): (name: string) {
    "forks/" + Slice12(upstream) + "-" + Slice12(pubkey)
  }

  /** The name of a fork ref: twelve digits of the upstream and twelve of the forker's key. */
  lemma ForkRefNameIs(upstream: string, pubkey: string)
    requires |upstream| == |pubkey| == 64
    ensures var name := ForkRefName(upstream, pubkey);
            |name| == 31 && name[..6] == "forks/" && name[6..18] == upstream[..12] && name[18] == '-' && name[19..] == pubkey[..12]
  {
  }

  /** Two forks share a ref exactly when the first twelve digits of their upstreams
      and of their keys agree, not only when both are equal. */
  lemma ForkRefsShared(upstream: string, pubkey: string, upstream': string, pubkey': string)
    requires |upstream| == |upstream'| == |pubkey| == |pubkey'| == 64
    ensures ForkRefName(upstream, pubkey) == ForkRefName(upstream', pubkey')
       <==> upstream[..12] == upstream'[..12] && pubkey[..12] == pubkey'[..12]
  {
    var a, b := ForkRefName(upstream, pubkey), ForkRefName(upstream', pubkey');
    assert a[6..18] == upstream[..12] && b[6..18] == upstream'[..12];
    assert a[19..] == pubkey[..12] && b[19..] == pubkey'[..12];
  }
}
