/** Liveness of the response queue. With a pool of 64 and ticks at least a second
    apart no floor can saturate the pool, so every queued intent is emitted exactly
    once, unchanged, at the first tick at or after its time. */
module SchedulerDrain {
  import opened Option
  import opened Scheduler
  import opened SchedulerRuns

  const TICK_MS := 1000
  const POOL_SIZE := 64

  // ------------------------------------------------------------- counting picks

  /** The identities of a lane picked less than `k` ticks before `now`. */
  function Recent(lane: Lane, now: int, k: nat): (ids: set<nat>) {
    set i: nat | i < |lane.last| && lane.last[i].Some? && lane.last[i].value > now - TICK_MS * k
  }

  /** Responses of one category a bundle may hold. */
  function PerBundle(c: Category): (n: nat) {
    match c
    case Chat => 1
    case Push => 1
    case Reaction => 3
  }

  /** Picks of one category in `k` ticks: a bundle's responses and one ambient pick each. */
  function Budget(c: Category, k: nat): (n: nat) {
    match c
    case Chat => 2 * k
    case Push => 2 * k
    case Reaction => 4 * k
  }

  /** After `m` picks in the tick at `now`, the last `k` ticks hold at most
      `k - 1` budgets and those `m`. */
  ghost predicate Calm(lane: Lane, c: Category, now: int, m: nat) {
    && Recent(lane, now, 0) == {}
    && forall k: nat :: |Recent(lane, now, k + 1)| <= Budget(c, k) + m
  }

  /** The lanes a tick left behind, or fresh ones. */
  ghost predicate Quiet(lane: Lane, c: Category, last: Option<int>) {
    match last
    case None => forall i | 0 <= i < |lane.last| :: lane.last[i].None?
    case Some(t) => Calm(lane, c, t, Budget(c, 1))
  }

  lemma SubsetSize<T>(a: set<T>, b: set<T>)
    requires a <= b
    ensures |a| <= |b|
  {
    assert b == a + (b - a);
  }

  lemma TickStartsCalm(lane: Lane, c: Category, last: Option<int>, now: int)
    requires Quiet(lane, c, last)
    requires last.Some? ==> now >= last.value + TICK_MS
    ensures Calm(lane, c, now, 0)
  {
    if last.None? {
      assert forall k: nat :: Recent(lane, now, k) == {};
    } else {
      forall k: nat
        ensures |Recent(lane, now, k + 1)| <= Budget(c, k)
      {
        SubsetSize(Recent(lane, now, k + 1), Recent(lane, last.value, k));
        if k > 0 {
          assert |Recent(lane, last.value, (k - 1) + 1)| <= Budget(c, k - 1) + Budget(c, 1);
        }
      }
      SubsetSize(Recent(lane, now, 0), Recent(lane, last.value, 0));
    }
  }

  lemma PickKeepsCalm(lane: Lane, c: Category, now: int, m: nat, i: nat)
    requires Calm(lane, c, now, m) && i < |lane.last|
    ensures Calm(Spend(lane, i, now), c, now, m + 1)
  {
    var next := Spend(lane, i, now);
    assert Recent(next, now, 0) == {} by {
      assert Recent(next, now, 0) <= Recent(lane, now, 0);
    }
    forall k: nat
      ensures |Recent(next, now, k + 1)| <= Budget(c, k) + m + 1
    {
      SubsetSize(Recent(next, now, k + 1), Recent(lane, now, k + 1) + {i});
    }
  }

  /** Ticks that fit inside a floor. */
  function FloorTicks(c: Category): (k: nat) {
    match c
    case Chat => 3
    case Push => 30
    case Reaction => 1
  }

  function Pool(n: nat): (ids: set<nat>)
    ensures forall i: nat :: i in ids <==> i < n
    ensures |ids| == n
  {
    if n == 0 then {} else Pool(n - 1) + {n - 1}
  }

  function Listed(ids: seq<nat>): (listed: set<nat>)
    ensures forall i: nat :: i in listed <==> i in ids
    ensures |listed| <= |ids|
  {
    if ids == [] then {} else Listed(ids[1..]) + {ids[0]}
  }

  /** A scan that picks nobody found everyone excluded or inside the floor. */
  lemma NobodyFree(lane: Lane, floor: nat, now: int, excluded: seq<nat>, i: nat)
    requires Select(lane, floor, now, excluded).None? && i < |lane.last|
    ensures !Admits(lane, floor, now, excluded, i)
  {
    var size := |lane.last|;
    var c := Ring(lane.cursor, 0, size);
    var d := RingDistance(c, i, size);
    RingAdds(lane.cursor, 0, d, size);
    assert !Admits(lane, floor, now, excluded, Ring(lane.cursor, d, size));
  }

  /** The pool is never saturated: a calm lane always has somebody to pick. */
  lemma SomebodyFree(lane: Lane, c: Category, now: int, m: nat, excluded: seq<nat>)
    requires Calm(lane, c, now, m) && |lane.last| >= POOL_SIZE
    requires m < Budget(c, 1) && |excluded| < PerBundle(c)
    ensures Select(lane, Floor(c), now, excluded).Some?
  {
    hide Select, Pool, Listed;
    if Select(lane, Floor(c), now, excluded).None? {
      var k := FloorTicks(c);
      var busy, listed := Recent(lane, now, k), Listed(excluded);
      assert Floor(c) <= TICK_MS * k;
      forall i: nat | i < |lane.last|
        ensures i in busy + listed
      {
        NobodyFree(lane, Floor(c), now, excluded, i);
      }
      assert |Recent(lane, now, (k - 1) + 1)| <= Budget(c, k - 1) + m;
      SubsetSize(Pool(|lane.last|), busy + listed);
    }
  }

  // ------------------------------------------------------------------ the queue

  function Due(queue: seq<Intent>, now: int): (due: seq<Intent>) {
    if queue == [] then []
    else
      var x := queue[|queue| - 1];
      Due(queue[..|queue| - 1], now) + (if x.notBefore <= now then [x] else [])
  }

  function Pending(queue: seq<Intent>, now: int): (pending: seq<Intent>) {
    if queue == [] then []
    else
      var x := queue[|queue| - 1];
      Pending(queue[..|queue| - 1], now) + (if x.notBefore <= now then [] else [x])
  }

  function Count(queue: seq<Intent>, c: Category): (n: nat) {
    if queue == [] then 0
    else Count(queue[..|queue| - 1], c) + (if CategoryOf(queue[|queue| - 1].kind) == c then 1 else 0)
  }

  /** The due and the pending intents are the queue, each once. */
  lemma DueAndPending(queue: seq<Intent>, now: int)
    ensures multiset(Due(queue, now)) + multiset(Pending(queue, now)) == multiset(queue)
    ensures forall x | x in Due(queue, now) :: x in queue && x.notBefore <= now
    ensures forall x | x in Pending(queue, now) :: x in queue && x.notBefore > now
  {
    SplitExact(queue, now);
    SplitByTime(queue, now);
  }

  lemma SplitExact(queue: seq<Intent>, now: int)
    ensures multiset(Due(queue, now)) + multiset(Pending(queue, now)) == multiset(queue)
  {
    hide Due, Pending;
    forall y: Intent
      ensures multiset(Due(queue, now))[y] + multiset(Pending(queue, now))[y] == multiset(queue)[y]
    {
      SplitCount(queue, now, y);
    }
  }

  lemma {:induction false} SplitCount(queue: seq<Intent>, now: int, y: Intent)
    ensures multiset(Due(queue, now))[y] + multiset(Pending(queue, now))[y] == multiset(queue)[y]
  {
    if queue != [] {
      var init, x := queue[..|queue| - 1], queue[|queue| - 1];
      assert queue == init + [x];
      SplitCount(init, now, y);
      SnocCount(init, x, y);
      if x.notBefore <= now {
        SnocCount(Due(init, now), x, y);
        assert Pending(queue, now) == Pending(init, now);
      } else {
        SnocCount(Pending(init, now), x, y);
        assert Due(queue, now) == Due(init, now);
      }
    }
  }

  lemma SnocCount(queue: seq<Intent>, x: Intent, y: Intent)
    ensures multiset(queue + [x])[y] == multiset(queue)[y] + (if x == y then 1 else 0)
  {
  }

  lemma {:induction false} SplitByTime(queue: seq<Intent>, now: int)
    ensures forall x | x in Due(queue, now) :: x in queue && x.notBefore <= now
    ensures forall x | x in Pending(queue, now) :: x in queue && x.notBefore > now
  {
    if queue != [] {
      SplitByTime(queue[..|queue| - 1], now);
    }
  }

  lemma CountOneMore(queue: seq<Intent>, x: Intent, c: Category)
    ensures Count(queue + [x], c) == Count(queue, c) + (if CategoryOf(x.kind) == c then 1 else 0)
  {
    assert (queue + [x])[..|queue|] == queue;
  }

  lemma {:induction false} CountDue(queue: seq<Intent>, now: int, c: Category)
    ensures Count(Due(queue, now), c) + Count(Pending(queue, now), c) == Count(queue, c)
  {
    if queue != [] {
      var init, x := queue[..|queue| - 1], queue[|queue| - 1];
      CountDue(init, now, c);
      if x.notBefore <= now {
        CountOneMore(Due(init, now), x, c);
        assert Pending(queue, now) == Pending(init, now);
      } else {
        CountOneMore(Pending(init, now), x, c);
        assert Due(queue, now) == Due(init, now);
      }
    }
  }

  lemma {:induction false} CountPrefix(queue: seq<Intent>, n: nat, c: Category)
    requires n <= |queue|
    ensures Count(queue[..n], c) <= Count(queue, c)
    ensures n < |queue| && CategoryOf(queue[n].kind) == c ==> Count(queue[..n], c) < Count(queue, c)
    decreases |queue|
  {
    if n < |queue| {
      var init := queue[..|queue| - 1];
      CountPrefix(init, n, c);
      assert init[..n] == queue[..n];
    } else {
      assert queue[..n] == queue;
    }
  }

  /** At most one bundle is in the queue, with at most what a bundle holds. */
  ghost predicate OneBundle(queue: seq<Intent>) {
    && (forall x, y | x in queue && y in queue :: x.bundleId == y.bundleId)
    && (forall c :: Count(queue, c) <= PerBundle(c))
  }

  /** What every run keeps between its steps. */
  ghost predicate Steady(s: State, last: Option<int>) {
    && (forall c: Category :: |s.lanes.Get(c).last| >= POOL_SIZE && Quiet(s.lanes.Get(c), c, last))
    && OneBundle(s.queue)
    && s.reacted.Keys <= BundleIds(s.queue)
    && (forall x | x in s.queue :: |Used(s.reacted, x.bundleId)| + Count(s.queue, Reaction) <= PerBundle(Reaction))
  }

  function Intents(picks: seq<Pick>): (intents: seq<Intent>) {
    if picks == [] then []
    else
      var p := picks[|picks| - 1];
      Intents(picks[..|picks| - 1]) + (if p.intent.Some? then [p.intent.value] else [])
  }

  lemma IntentsOneMore(picks: seq<Pick>, p: Pick)
    ensures Intents(picks + [p]) == Intents(picks) + (if p.intent.Some? then [p.intent.value] else [])
  {
    assert (picks + [p])[..|picks|] == picks;
  }

  /** The drain after `n` intents: every due one has been picked for, in order. */
  ghost predicate Draining(s: State, now: int, n: nat, w: Work)
    requires n <= |s.queue|
  {
    var seen := s.queue[..n];
    && (forall c: Category ::
          && |w.lanes.Get(c).last| == |s.lanes.Get(c).last|
          && Calm(w.lanes.Get(c), c, now, Count(Due(seen, now), c)))
    && w.remaining == Pending(seen, now)
    && Intents(w.picks) == Due(seen, now)
    && (forall x | x in s.queue ::
          |Used(w.reacted, x.bundleId)| <= |Used(s.reacted, x.bundleId)| + Count(Due(seen, now), Reaction))
    && w.reacted.Keys <= BundleIds(s.queue)
  }

  /** An intent that is not due yet is kept. */
  lemma DrainOneKeeps(s: State, now: int, n: nat, w: Work)
    requires n < |s.queue| && s.queue[n].notBefore > now
    requires Draining(s, now, n, w)
    ensures Draining(s, now, n + 1, DrainOne(w, s.queue[n], now))
  {
    hide Select, Calm;
    assert s.queue[..n + 1][..n] == s.queue[..n];
    assert Due(s.queue[..n + 1], now) == Due(s.queue[..n], now);
  }

  /** A due intent finds an identity. */
  lemma DueIntentFindsSomebody(s: State, last: Option<int>, now: int, n: nat, w: Work)
    requires Steady(s, last) && n < |s.queue| && s.queue[n].notBefore <= now
    requires Draining(s, now, n, w)
    ensures var c := CategoryOf(s.queue[n].kind);
            Select(w.lanes.Get(c), Floor(c), now, Excluded(w, s.queue[n])).Some?
  {
    hide Select, Calm, Quiet;
    var x, seen := s.queue[n], s.queue[..n];
    var c := CategoryOf(x.kind);
    CountDue(seen, now, c);
    CountPrefix(s.queue, n, c);
    SomebodyFree(w.lanes.Get(c), c, now, Count(Due(seen, now), c), Excluded(w, x));
  }

  lemma OneMoreDue(queue: seq<Intent>, now: int, n: nat)
    requires n < |queue| && queue[n].notBefore <= now
    ensures Pending(queue[..n + 1], now) == Pending(queue[..n], now)
    ensures Due(queue[..n + 1], now) == Due(queue[..n], now) + [queue[n]]
    ensures forall d :: Count(Due(queue[..n + 1], now), d)
                     == Count(Due(queue[..n], now), d) + (if d == CategoryOf(queue[n].kind) then 1 else 0)
  {
    assert queue[..n + 1][..n] == queue[..n];
    forall d
      ensures Count(Due(queue[..n], now) + [queue[n]], d)
           == Count(Due(queue[..n], now), d) + (if d == CategoryOf(queue[n].kind) then 1 else 0)
    {
      CountOneMore(Due(queue[..n], now), queue[n], d);
    }
  }

  /** A due intent is picked for. */
  lemma DrainOnePicks(s: State, last: Option<int>, now: int, n: nat, w: Work)
    requires Steady(s, last) && n < |s.queue| && s.queue[n].notBefore <= now
    requires Draining(s, now, n, w)
    ensures Draining(s, now, n + 1, DrainOne(w, s.queue[n], now))
  {
    hide Select, Calm, Quiet, Steady, BundleIds, OneBundle, Due, Pending, Count;
    var x, seen := s.queue[n], s.queue[..n];
    var c := CategoryOf(x.kind);
    OneMoreDue(s.queue, now, n);
    DueIntentFindsSomebody(s, last, now, n, w);
    var i := Select(w.lanes.Get(c), Floor(c), now, Excluded(w, x)).value;
    PickKeepsCalm(w.lanes.Get(c), c, now, Count(Due(seen, now), c), i);
    var next := DrainOne(w, x, now);
    IntentsOneMore(w.picks, next.picks[|w.picks|]);
    InQueue(s.queue, n);
  }

  lemma InQueue(queue: seq<Intent>, n: nat)
    requires n < |queue|
    ensures queue[n].bundleId in BundleIds(queue)
  {
    assert queue[n] in queue;
  }

  lemma {:induction false} DrainDrains(s: State, last: Option<int>, now: int, n: nat)
    requires Steady(s, last) && n <= |s.queue|
    requires last.Some? ==> now >= last.value + TICK_MS
    ensures Draining(s, now, n, Drain(Start(s), s.queue, now, n))
  {
    hide DrainOne, Draining;
    if n == 0 {
      DrainStarts(s, last, now);
    } else {
      DrainDrains(s, last, now, n - 1);
      var w := Drain(Start(s), s.queue, now, n - 1);
      if s.queue[n - 1].notBefore > now {
        DrainOneKeeps(s, now, n - 1, w);
      } else {
        DrainOnePicks(s, last, now, n - 1, w);
      }
    }
  }

  lemma DrainStarts(s: State, last: Option<int>, now: int)
    requires Steady(s, last)
    requires last.Some? ==> now >= last.value + TICK_MS
    ensures Draining(s, now, 0, Start(s))
  {
    hide Calm, Quiet;
    forall c: Category
      ensures Calm(s.lanes.Get(c), c, now, 0)
    {
      TickStartsCalm(s.lanes.Get(c), c, last, now);
    }
    assert s.queue[..0] == [];
  }

  // ------------------------------------------------------------------- one tick

  lemma CalmMore(lane: Lane, c: Category, now: int, m: nat, more: nat)
    requires Calm(lane, c, now, m) && m <= more
    ensures Calm(lane, c, now, more)
  {
    forall k: nat
      ensures |Recent(lane, now, k + 1)| <= Budget(c, k) + more
    {
      assert |Recent(lane, now, k + 1)| <= Budget(c, k) + m;
    }
  }

  /** Phase 2: the categories in `done` have had their ambient pick. */
  ghost predicate Picking(w: Work, now: int, sizes: Lanes, done: set<Category>) {
    forall c: Category ::
      && |w.lanes.Get(c).last| == |sizes.Get(c).last|
      && Calm(w.lanes.Get(c), c, now, if c in done then Budget(c, 1) else PerBundle(c))
  }

  lemma AmbientPicks(
      w: Work, c: Category, fires: bool, kind: EventKind, upstream: Option<ForkUpstream>, now: int,
      sizes: Lanes, done: set<Category>)
    requires Picking(w, now, sizes, done) && c !in done
    ensures var next := Ambient(w, c, fires, kind, upstream, now);
            && Picking(next, now, sizes, done + {c})
            && next.reacted == w.reacted && next.remaining == w.remaining
            && Intents(next.picks) == Intents(w.picks)
  {
    hide Select, Calm;
    var next := Ambient(w, c, fires, kind, upstream, now);
    if next.picks != w.picks {
      IntentsOneMore(w.picks, next.picks[|w.picks|]);
      PickKeepsCalm(w.lanes.Get(c), c, now, PerBundle(c), next.picks[|w.picks|].event.identity);
    }
    CalmMore(w.lanes.Get(c), c, now, PerBundle(c), Budget(c, 1));
  }

  lemma DrainedIsPicking(s: State, last: Option<int>, now: int)
    requires Steady(s, last)
    requires last.Some? ==> now >= last.value + TICK_MS
    ensures Picking(Drained(s, now), now, s.lanes, {})
    ensures Drained(s, now).remaining == Pending(s.queue, now)
    ensures Intents(Drained(s, now).picks) == Due(s.queue, now)
  {
    hide Calm, Quiet, Drain;
    DrainDrains(s, last, now, |s.queue|);
    assert s.queue[..|s.queue|] == s.queue;
    forall c
      ensures Calm(Drained(s, now).lanes.Get(c), c, now, PerBundle(c))
    {
      CountDue(s.queue, now, c);
      CalmMore(Drained(s, now).lanes.Get(c), c, now, Count(Due(s.queue, now), c), PerBundle(c));
    }
  }

  /** The bookkeeping a drain leaves behind is for the bundle still queued. */
  lemma DrainedBookkeeping(s: State, last: Option<int>, now: int)
    requires Steady(s, last)
    requires last.Some? ==> now >= last.value + TICK_MS
    ensures var left, reacted := Pending(s.queue, now), Drained(s, now).reacted;
            && OneBundle(left)
            && reacted.Keys <= BundleIds(left)
            && forall x | x in left :: |Used(reacted, x.bundleId)| + Count(left, Reaction) <= PerBundle(Reaction)
  {
    hide Calm, Quiet, Drain;
    DrainDrains(s, last, now, |s.queue|);
    assert s.queue[..|s.queue|] == s.queue;
    DueAndPending(s.queue, now);
    forall c
      ensures Count(Pending(s.queue, now), c) <= PerBundle(c)
      ensures Count(Pending(s.queue, now), c) + Count(Due(s.queue, now), c) == Count(s.queue, c)
    {
      CountDue(s.queue, now, c);
    }
  }

  /** Every tick emits exactly the due intents, in queue order, and keeps the rest. */
  lemma TickDrains(s: State, last: Option<int>, now: int, forks: seq<ForkUpstream>)
    requires Steady(s, last)
    requires last.Some? ==> now >= last.value + TICK_MS
    ensures Intents(Planned(s, now, forks).picks) == Due(s.queue, now)
    ensures Ticked(s, now, forks).queue == Pending(s.queue, now)
    ensures Steady(Ticked(s, now, forks), Some(now))
  {
    hide Calm, Ambient, Drained, Due, Pending, Used, OneBundle, PushUpstream, PushKind, Count, BundleIds;
    DrainedIsPicking(s, last, now);
    DrainedBookkeeping(s, last, now);
    var drained := Drained(s, now);
    var chats, pushes := s.tick % CHAT_EVERY_N_TICKS == 0, s.tick % PUSH_EVERY_N_TICKS == 0;
    AmbientPicks(drained, Chat, chats, ChatEvent, None, now, s.lanes, {});
    var chat := Ambient(drained, Chat, chats, ChatEvent, None, now);
    var kind, upstream := PushKind(s.tick), PushUpstream(s.tick, forks);
    AmbientPicks(chat, Push, pushes, kind, upstream, now, s.lanes, {} + {Chat});
    var push := Ambient(chat, Push, pushes, kind, upstream, now);
    AmbientPicks(push, Reaction, s.tick % REACTION_EVERY_N_TICKS == 0, ReactionEvent, None, now,
                 s.lanes, {} + {Chat} + {Push});
    assert forall c: Category :: c in {} + {Chat} + {Push} + {Reaction};
  }

  // ----------------------------------------------------------------- one enqueue

  lemma {:induction false} CountReactions(e: RealEvent, now: int, n: nat, c: Category)
    ensures Count(Reactions(e, now, n), c) == if c.Reaction? then n else 0
  {
    hide ReactionCount;
    if n > 0 {
      CountReactions(e, now, n - 1, c);
      assert Reactions(e, now, n)[..n - 1] == Reactions(e, now, n - 1);
    }
  }

  lemma ReactionTimes(e: RealEvent, now: int)
    ensures forall x | x in Reactions(e, now, ReactionCount(e.target)) ::
              now <= x.notBefore <= now + RESPONSE_BUNDLE_SPREAD_MS
    ensures Reactions(e, now, ReactionCount(e.target))[1].notBefore > now
  {
    hide HashString, BundleId;
    if ReactionCount(e.target) == 2 {
    }
  }

  lemma PayloadFields(e: RealEvent)
    ensures PayloadOf(e).target == e.target && PayloadOf(e).ref == e.ref && PayloadOf(e).author == e.author
  {
  }

  /** What a bundle holds, and when: the event's own target, ref and author, everything
      within thirty seconds, and at least one reaction strictly after the enqueue. */
  lemma BundleShape(e: RealEvent, now: int)
    ensures forall x | x in Bundle(e, now) ::
              && x.bundleId == BundleId(e.target, now)
              && x.payload.target == e.target && x.payload.ref == e.ref && x.payload.author == e.author
              && now <= x.notBefore <= now + 30_000
    ensures exists x :: x in Bundle(e, now) && x.notBefore > now
  {
    hide ReactionCount, BundleId, PayloadOf, IncludesChat, IncludesRemix;
    PayloadFields(e);
    ReactionTimes(e, now);
    var second := Reactions(e, now, ReactionCount(e.target))[1];
    assert second in Bundle(e, now);
  }

  /** What a bundle is made of, and when each part is due: two or three reactions by the
      parity of one hash, spread evenly over thirty seconds, then a chat for 80 targets in
      100 after fifteen, then a remix for 20 in 100 after thirty. */
  lemma BundleComposition(e: RealEvent, now: int)
    ensures var bundle, n := Bundle(e, now), 2 + HashString(e.target + ":reactionCount") % 2;
            var chats := if HashString(e.target + ":chat") % 100 < 80 then 1 else 0;
            var remixes := if HashString(e.target + ":remix") % 100 < 20 then 1 else 0;
            && |bundle| == n + chats + remixes
            && (forall i | 0 <= i < n :: bundle[i].kind.ReactionIntent? && bundle[i].notBefore == now + i * 30_000 / n)
            && (chats == 1 ==> bundle[n].kind.ChatIntent? && bundle[n].notBefore == now + 15_000)
            && (remixes == 1 ==> bundle[n + chats].kind.RemixIntent? && bundle[n + chats].notBefore == now + 30_000)
  {
    hide HashString, BundleId, PayloadOf;
  }

  lemma BundleCounts(e: RealEvent, now: int)
    ensures OneBundle(Bundle(e, now))
  {
    hide ReactionCount, BundleId, Count, Reactions;
    var n := ReactionCount(e.target);
    var reactions := Reactions(e, now, n);
    var chat := Intent(ChatIntent, PayloadOf(e), now + RESPONSE_BUNDLE_SPREAD_MS / 2, BundleId(e.target, now));
    var remix := Intent(RemixIntent, PayloadOf(e), now + RESPONSE_BUNDLE_SPREAD_MS, BundleId(e.target, now));
    BundleShape(e, now);
    assert reactions + [] == reactions && reactions + [chat] + [] == reactions + [chat];
    forall c
      ensures Count(Bundle(e, now), c) <= PerBundle(c)
    {
      CountReactions(e, now, n, c);
      CountOneMore(reactions, chat, c);
      CountOneMore(reactions, remix, c);
      CountOneMore(reactions + [chat], remix, c);
    }
  }

  lemma NothingInFlight(queue: seq<Intent>)
    requires |BundleIds(queue)| < MAX_BUNDLES_IN_FLIGHT
    ensures queue == []
  {
    assert queue != [] ==> queue[0].bundleId in BundleIds(queue);
  }

  lemma EnqueueKeepsSteady(s: State, last: Option<int>, e: RealEvent, now: int)
    requires Steady(s, last)
    ensures Steady(Enqueued(s, e, now), last)
  {
    hide Quiet, Bundle, Count, Prune;
    if Accepts(s, e, now) {
      NothingInFlight(s.queue);
      BundleCounts(e, now);
      assert s.queue + Bundle(e, now) == Bundle(e, now);
    }
  }
}
