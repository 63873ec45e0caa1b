/** Whole runs with a pool of at least 64 and ticks at least a second apart: no
    response is lost, duplicated, altered or late. */
module SchedulerLiveness {
  import opened Option
  import opened Scheduler
  import opened SchedulerRuns
  import opened SchedulerDrain
  import Decimal

  predicate TicksApart(steps: seq<Step>) {
    forall i, j | 0 <= i < j < |steps| && steps[i].Tick? && steps[j].Tick? ::
      steps[j].now >= steps[i].now + TICK_MS
  }

  function LastTick(steps: seq<Step>): (last: Option<int>) {
    if steps == [] then None
    else if steps[|steps| - 1].Tick? then Some(steps[|steps| - 1].now)
    else LastTick(steps[..|steps| - 1])
  }

  lemma {:induction false} LastTickIsAStep(steps: seq<Step>)
    ensures LastTick(steps).Some? ==> exists i :: 0 <= i < |steps| && steps[i].Tick? && steps[i].now == LastTick(steps).value
  {
    if steps != [] && !steps[|steps| - 1].Tick? {
      var init := steps[..|steps| - 1];
      LastTickIsAStep(init);
      if LastTick(init).Some? {
        var i :| 0 <= i < |init| && init[i].Tick? && init[i].now == LastTick(init).value;
        assert steps[i] == init[i];
      }
    }
  }

  /** Every reachable state is steady: one bundle at most, and room in every lane. */
  lemma {:induction false} RunSteady(poolSize: nat, steps: seq<Step>)
    requires poolSize >= POOL_SIZE && TicksApart(steps)
    ensures Steady(After(Initial(poolSize), steps), LastTick(steps))
  {
    hide Ticked, Enqueued, Steady;
    if steps == [] {
      InitialSteady(poolSize);
    } else {
      var init, step := steps[..|steps| - 1], steps[|steps| - 1];
      RunSteady(poolSize, init);
      var s := After(Initial(poolSize), init);
      match step
      case Enqueue(e, now) => EnqueueKeepsSteady(s, LastTick(init), e, now);
      case Tick(now, forks) =>
        LastTickApart(steps);
        TickDrains(s, LastTick(init), now, forks);
    }
  }

  lemma InitialSteady(poolSize: nat)
    requires poolSize >= POOL_SIZE
    ensures Steady(Initial(poolSize), None)
  {
  }

  lemma LastTickApart(steps: seq<Step>)
    requires steps != [] && steps[|steps| - 1].Tick? && TicksApart(steps)
    ensures var last := LastTick(steps[..|steps| - 1]);
            last.Some? ==> steps[|steps| - 1].now >= last.value + TICK_MS
  {
    LastTickIsAStep(steps[..|steps| - 1]);
  }

  lemma PrefixApart(steps: seq<Step>, k: nat)
    requires k <= |steps| && TicksApart(steps)
    ensures TicksApart(steps[..k])
  {
  }

  /** The state before step `k`. */
  function At(poolSize: nat, steps: seq<Step>, k: nat): (s: State)
    requires k <= |steps|
  {
    After(Initial(poolSize), steps[..k])
  }

  /** The intents emitted by step `k`. */
  function EmittedAt(poolSize: nat, steps: seq<Step>, k: nat): (intents: seq<Intent>)
    requires k < |steps|
  {
    Intents(PicksOf(At(poolSize, steps, k), steps[k]))
  }

  lemma OneStep(poolSize: nat, steps: seq<Step>, k: nat)
    requires k < |steps|
    ensures At(poolSize, steps, k + 1) == Next(At(poolSize, steps, k), steps[k])
  {
    assert steps[..k + 1][..k] == steps[..k];
  }

  /** A tick emits exactly the due part of the queue and leaves the rest. */
  lemma TickAt(poolSize: nat, steps: seq<Step>, k: nat)
    requires poolSize >= POOL_SIZE && TicksApart(steps) && k < |steps| && steps[k].Tick?
    ensures EmittedAt(poolSize, steps, k) == Due(At(poolSize, steps, k).queue, steps[k].now)
    ensures At(poolSize, steps, k + 1).queue == Pending(At(poolSize, steps, k).queue, steps[k].now)
  {
    hide Ticked, Planned, After;
    PrefixApart(steps, k);
    PrefixApart(steps, k + 1);
    RunSteady(poolSize, steps[..k]);
    OneStep(poolSize, steps, k);
    assert steps[..k + 1][..k] == steps[..k];
    LastTickApart(steps[..k + 1]);
    TickDrains(At(poolSize, steps, k), LastTick(steps[..k]), steps[k].now, steps[k].forks);
  }

  lemma EnqueueAt(poolSize: nat, steps: seq<Step>, k: nat)
    requires k < |steps| && steps[k].Enqueue?
    ensures EmittedAt(poolSize, steps, k) == []
    ensures At(poolSize, steps, k + 1).queue
         == At(poolSize, steps, k).queue + OfferedAt(At(poolSize, steps, k), steps[k])
  {
    hide Bundle, After;
    OneStep(poolSize, steps, k);
    var queue := At(poolSize, steps, k).queue;
    assert queue + [] == queue;
  }

  /** A queued intent is emitted at the first tick at or after its time: it waits
      in the queue until then, no earlier step emits it, and it is gone afterwards. */
  lemma {:induction false} EmittedAtFirstTick(poolSize: nat, steps: seq<Step>, e: nat, t: nat, x: Intent)
    requires poolSize >= POOL_SIZE && TicksApart(steps)
    requires e <= t < |steps| && x in At(poolSize, steps, e).queue
    requires steps[t].Tick? && steps[t].now >= x.notBefore
    requires forall k | e <= k < t && steps[k].Tick? :: steps[k].now < x.notBefore
    ensures forall k | e <= k <= t :: x in At(poolSize, steps, k).queue
    ensures forall k | e <= k < t :: x !in EmittedAt(poolSize, steps, k)
    ensures x in EmittedAt(poolSize, steps, t)
    ensures x !in At(poolSize, steps, t + 1).queue
    decreases t - e
  {
    hide At, EmittedAt;
    if e < t {
      NotYet(poolSize, steps, e, x);
      EmittedAtFirstTick(poolSize, steps, e + 1, t, x);
    } else {
      Emits(poolSize, steps, t, x);
    }
  }

  lemma NotYet(poolSize: nat, steps: seq<Step>, k: nat, x: Intent)
    requires poolSize >= POOL_SIZE && TicksApart(steps)
    requires k < |steps| && x in At(poolSize, steps, k).queue
    requires steps[k].Tick? ==> steps[k].now < x.notBefore
    ensures x in At(poolSize, steps, k + 1).queue && x !in EmittedAt(poolSize, steps, k)
  {
    hide At, EmittedAt, Due, Pending;
    if steps[k].Tick? {
      TickAt(poolSize, steps, k);
      DueOrPending(At(poolSize, steps, k).queue, steps[k].now, x);
    } else {
      EnqueueAt(poolSize, steps, k);
    }
  }

  lemma Emits(poolSize: nat, steps: seq<Step>, k: nat, x: Intent)
    requires poolSize >= POOL_SIZE && TicksApart(steps)
    requires k < |steps| && x in At(poolSize, steps, k).queue
    requires steps[k].Tick? && steps[k].now >= x.notBefore
    ensures x !in At(poolSize, steps, k + 1).queue && x in EmittedAt(poolSize, steps, k)
  {
    hide At, EmittedAt, Due, Pending;
    TickAt(poolSize, steps, k);
    DueOrPending(At(poolSize, steps, k).queue, steps[k].now, x);
  }

  lemma DueOrPending(queue: seq<Intent>, now: int, x: Intent)
    requires x in queue
    ensures x in Due(queue, now) <==> x.notBefore <= now
    ensures x in Pending(queue, now) <==> x.notBefore > now
  {
    hide Due, Pending;
    DueAndPending(queue, now);
    assert x in multiset(queue);
    assert x in multiset(Due(queue, now)) || x in multiset(Pending(queue, now));
  }

  /** No tick leaves anything overdue, so a bundle is fully drained by the first
      tick thirty seconds after it was enqueued, and the in-flight cap is released. */
  lemma BundleReleased(poolSize: nat, steps: seq<Step>, event: RealEvent, enqueued: int, t: nat)
    requires poolSize >= POOL_SIZE && TicksApart(steps)
    requires t < |steps| && steps[t].Tick? && steps[t].now >= enqueued + RESPONSE_BUNDLE_SPREAD_MS
    ensures forall x | x in At(poolSize, steps, t + 1).queue :: x.notBefore > steps[t].now
    ensures forall x | x in Bundle(event, enqueued) :: x !in At(poolSize, steps, t + 1).queue
  {
    hide At, Bundle;
    TickAt(poolSize, steps, t);
    DueAndPending(At(poolSize, steps, t).queue, steps[t].now);
    BundleShape(event, enqueued);
  }

  // --------------------------------------------------------------- conservation

  /** The intents an enqueue adds. */
  function OfferedAt(s: State, step: Step): (intents: seq<Intent>) {
    if step.Enqueue? && Accepts(s, step.event, step.now) then Bundle(step.event, step.now) else []
  }

  /** Every intent ever enqueued. */
  function Offered(poolSize: nat, steps: seq<Step>): (intents: seq<Intent>) {
    if steps == [] then []
    else
      var init := steps[..|steps| - 1];
      Offered(poolSize, init) + OfferedAt(After(Initial(poolSize), init), steps[|steps| - 1])
  }

  lemma NoIntents()
    ensures Intents([]) == []
  {
  }

  lemma {:induction false} IntentsConcat(a: seq<Pick>, b: seq<Pick>)
    ensures Intents(a + b) == Intents(a) + Intents(b)
  {
    hide Intents;
    if b == [] {
      assert a + b == a;
      NoIntents();
    } else {
      var init, p := b[..|b| - 1], b[|b| - 1];
      IntentsConcat(a, init);
      IntentsOneMore(init, p);
      IntentsOneMore(a + init, p);
      assert b == init + [p] && a + b == a + init + [p];
    }
  }

  /** Exactly once: over a whole run the emitted intents and the queued ones are,
      counted with multiplicity, the intents that were enqueued. */
  lemma {:induction false} ExactlyOnce(poolSize: nat, steps: seq<Step>)
    requires poolSize >= POOL_SIZE && TicksApart(steps)
    ensures multiset(Intents(History(Initial(poolSize), steps))) + multiset(After(Initial(poolSize), steps).queue)
         == multiset(Offered(poolSize, steps))
  {
    if steps != [] {
      hide After, History, Intents, Due, Pending, OfferedAt, EmittedAt;
      var k := |steps| - 1;
      var init := steps[..k];
      PrefixApart(steps, k);
      ExactlyOnce(poolSize, init);
      HistoryStep(poolSize, steps);
      assert steps[..k + 1] == steps;
      var queue := At(poolSize, steps, k).queue;
      if steps[k].Tick? {
        TickAt(poolSize, steps, k);
        DueAndPending(queue, steps[k].now);
        NothingOffered(At(poolSize, steps, k), steps[k]);
        MovedOn(Intents(History(Initial(poolSize), init)), queue, Offered(poolSize, init), Due(queue, steps[k].now),
                Pending(queue, steps[k].now));
      } else {
        EnqueueAt(poolSize, steps, k);
        Joined(Intents(History(Initial(poolSize), init)), queue, Offered(poolSize, init),
               OfferedAt(At(poolSize, steps, k), steps[k]));
      }
    }
  }

  lemma MovedOn(emitted: seq<Intent>, queue: seq<Intent>, offered: seq<Intent>, due: seq<Intent>, pending: seq<Intent>)
    requires multiset(emitted) + multiset(queue) == multiset(offered)
    requires multiset(due) + multiset(pending) == multiset(queue)
    ensures multiset(emitted + due) + multiset(pending) == multiset(offered + [])
  {
    assert offered + [] == offered;
  }

  lemma Joined(emitted: seq<Intent>, queue: seq<Intent>, offered: seq<Intent>, more: seq<Intent>)
    requires multiset(emitted) + multiset(queue) == multiset(offered)
    ensures multiset(emitted + []) + multiset(queue + more) == multiset(offered + more)
  {
    assert emitted + [] == emitted;
  }

  lemma {:induction false} OfferedWithin(poolSize: nat, steps: seq<Step>, latest: int)
    requires forall k | 0 <= k < |steps| && OfferedAt(At(poolSize, steps, k), steps[k]) != [] :: steps[k].now <= latest
    ensures forall x | x in Offered(poolSize, steps) :: x.notBefore <= latest + RESPONSE_BUNDLE_SPREAD_MS
  {
    hide After, Bundle;
    if steps != [] {
      var n := |steps| - 1;
      var init, step := steps[..n], steps[n];
      forall k | 0 <= k < n
        ensures At(poolSize, init, k) == At(poolSize, steps, k)
      {
        assert init[..k] == steps[..k];
      }
      OfferedWithin(poolSize, init, latest);
      if OfferedAt(At(poolSize, steps, n), step) != [] {
        BundleShape(step.event, step.now);
      }
    }
  }

  /** The in-flight cap is always released: once every accepted bundle is thirty
      seconds old, a tick leaves the queue empty. */
  lemma CapReleased(poolSize: nat, steps: seq<Step>, t: nat)
    requires poolSize >= POOL_SIZE && TicksApart(steps) && t < |steps| && steps[t].Tick?
    requires forall k | 0 <= k < t && OfferedAt(At(poolSize, steps, k), steps[k]) != [] ::
               steps[k].now + RESPONSE_BUNDLE_SPREAD_MS <= steps[t].now
    ensures At(poolSize, steps, t + 1).queue == []
  {
    hide After, History, Intents, Due, Pending, Offered, OfferedAt;
    var before, now := steps[..t], steps[t].now;
    forall k | 0 <= k < t
      ensures At(poolSize, before, k) == At(poolSize, steps, k)
    {
      assert before[..k] == steps[..k];
    }
    PrefixApart(steps, t);
    ExactlyOnce(poolSize, before);
    OfferedWithin(poolSize, before, now - RESPONSE_BUNDLE_SPREAD_MS);
    TickAt(poolSize, steps, t);
    var queue := At(poolSize, steps, t).queue;
    forall x | x in queue
      ensures x.notBefore <= now
    {
      assert x in multiset(queue);
      assert x in multiset(Offered(poolSize, before));
    }
    AllDue(queue, now);
  }

  lemma {:induction false} AllDue(queue: seq<Intent>, now: int)
    requires forall x | x in queue :: x.notBefore <= now
    ensures Pending(queue, now) == []
  {
    if queue != [] {
      AllDue(queue[..|queue| - 1], now);
    }
  }

  lemma NothingOffered(s: State, step: Step)
    requires step.Tick?
    ensures OfferedAt(s, step) == []
  {
  }

  lemma HistoryStep(poolSize: nat, steps: seq<Step>)
    requires steps != []
    ensures Intents(History(Initial(poolSize), steps))
         == Intents(History(Initial(poolSize), steps[..|steps| - 1])) + EmittedAt(poolSize, steps, |steps| - 1)
  {
    hide Intents;
    var k := |steps| - 1;
    IntentsConcat(History(Initial(poolSize), steps[..k]), PicksOf(At(poolSize, steps, k), steps[k]));
  }

  // ------------------------------------------------------------------- the cadence

  /** The ambient picks tick `n` is to make: a chat every 5 ticks, a reaction every 10 and
      a push every 15, every eighth of those a remix. */
  function Cadence(c: Category, n: nat): (kinds: seq<EventKind>) {
    match c
    case Chat => if n % 5 == 0 then [ChatEvent] else []
    case Push => if n % 15 != 0 then [] else if n / 15 % 8 == 7 then [RemixEvent] else [CommitEvent]
    case Reaction => if n % 10 == 0 then [ReactionEvent] else []
  }

  /** The kinds of the ambient picks of one category, in order. */
  function AmbientKinds(picks: seq<Pick>, c: Category): (kinds: seq<EventKind>) {
    if picks == [] then []
    else
      var p := picks[|picks| - 1];
      AmbientKinds(picks[..|picks| - 1], c) + (if p.category == c && p.intent.None? then [p.event.kind] else [])
  }

  lemma AmbientKindsOneMore(picks: seq<Pick>, p: Pick, c: Category)
    ensures AmbientKinds(picks + [p], c)
         == AmbientKinds(picks, c) + (if p.category == c && p.intent.None? then [p.event.kind] else [])
  {
    assert (picks + [p])[..|picks|] == picks;
  }

  lemma {:induction false} DrainIsNotAmbient(s: State, now: int, n: nat, c: Category)
    requires n <= |s.queue|
    ensures AmbientKinds(Drain(Start(s), s.queue, now, n).picks, c) == []
  {
    hide Select;
    if n > 0 {
      DrainIsNotAmbient(s, now, n - 1, c);
      var w := Drain(Start(s), s.queue, now, n - 1);
      var next := DrainOne(w, s.queue[n - 1], now);
      if next.picks != w.picks {
        AmbientKindsOneMore(w.picks, next.picks[|w.picks|], c);
      }
    }
  }

  /** An ambient pick that is due finds somebody, and is the only change. */
  lemma AmbientFires(w: Work, c: Category, fires: bool, kind: EventKind, upstream: Option<ForkUpstream>, now: int,
                     sizes: Lanes, done: set<Category>, d: Category)
    requires Picking(w, now, sizes, done) && c !in done && |sizes.Get(c).last| >= POOL_SIZE
    ensures AmbientKinds(Ambient(w, c, fires, kind, upstream, now).picks, d)
         == AmbientKinds(w.picks, d) + (if fires && d == c then [kind] else [])
  {
    hide Select, Calm, AmbientKinds;
    var next := Ambient(w, c, fires, kind, upstream, now);
    if fires {
      SomebodyFree(w.lanes.Get(c), c, now, PerBundle(c), []);
      AmbientKindsOneMore(w.picks, next.picks[|w.picks|], d);
    }
    assert AmbientKinds(w.picks, d) + [] == AmbientKinds(w.picks, d);
  }

  /** Every tick has exactly the ambient picks its number calls for. */
  lemma TickKeepsCadence(s: State, last: Option<int>, now: int, forks: seq<ForkUpstream>, c: Category)
    requires Steady(s, last)
    requires last.Some? ==> now >= last.value + TICK_MS
    ensures AmbientKinds(Planned(s, now, forks).picks, c)
         == Cadence(c, s.tick)
  {
    hide Ambient, Drained, AmbientKinds, Picking, PushUpstream, Quiet, OneBundle, BundleIds, Count;
    DrainedIsPicking(s, last, now);
    DrainedIsNotAmbient(s, now, c);
    var drained := Drained(s, now);
    var chats, pushes := s.tick % CHAT_EVERY_N_TICKS == 0, s.tick % PUSH_EVERY_N_TICKS == 0;
    AmbientFires(drained, Chat, chats, ChatEvent, None, now, s.lanes, {}, c);
    AmbientPicks(drained, Chat, chats, ChatEvent, None, now, s.lanes, {});
    var chat := Ambient(drained, Chat, chats, ChatEvent, None, now);
    var kind, upstream := PushKind(s.tick), PushUpstream(s.tick, forks);
    AmbientFires(chat, Push, pushes, kind, upstream, now, s.lanes, {} + {Chat}, c);
    AmbientPicks(chat, Push, pushes, kind, upstream, now, s.lanes, {} + {Chat});
    var push := Ambient(chat, Push, pushes, kind, upstream, now);
    AmbientFires(push, Reaction, s.tick % REACTION_EVERY_N_TICKS == 0, ReactionEvent, None, now,
                 s.lanes, {} + {Chat} + {Push}, c);
  }

  lemma DrainedIsNotAmbient(s: State, now: int, c: Category)
    ensures AmbientKinds(Drained(s, now).picks, c) == []
  {
    hide Drain, AmbientKinds;
    DrainIsNotAmbient(s, now, |s.queue|, c);
  }

  /** How many ticks a run has made. */
  function Ticks(steps: seq<Step>): (n: nat) {
    if steps == [] then 0 else Ticks(steps[..|steps| - 1]) + (if steps[|steps| - 1].Tick? then 1 else 0)
  }

  lemma {:induction false} TickNumber(s: State, steps: seq<Step>)
    ensures After(s, steps).tick == s.tick + Ticks(steps)
  {
    hide Planned, Bundle, BundleIds, Prune;
    if steps != [] {
      TickNumber(s, steps[..|steps| - 1]);
    }
  }

  /** The room stays alive: in every run tick number n emits an ambient chat exactly when n
      is a multiple of 5, a reaction of 10 and a push of 15, the push a remix exactly when it
      is number 7, 15, 23 and so on, whatever responses it drains. */
  lemma CadenceKept(poolSize: nat, steps: seq<Step>, t: nat, c: Category)
    requires poolSize >= POOL_SIZE && TicksApart(steps) && t < |steps| && steps[t].Tick?
    ensures var n := Ticks(steps[..t]);
            AmbientKinds(PicksOf(At(poolSize, steps, t), steps[t]), c) == match c {
              case Chat => if n % 5 == 0 then [ChatEvent] else []
              case Reaction => if n % 10 == 0 then [ReactionEvent] else []
              case Push => if n % 15 != 0 then [] else if n / 15 % 8 == 7 then [RemixEvent] else [CommitEvent]
            }
  {
    hide Planned, After, AmbientKinds, Steady, Ticks;
    PrefixApart(steps, t);
    PrefixApart(steps, t + 1);
    RunSteady(poolSize, steps[..t]);
    TickNumber(Initial(poolSize), steps[..t]);
    assert steps[..t + 1][..t] == steps[..t];
    LastTickApart(steps[..t + 1]);
    TickKeepsCadence(At(poolSize, steps, t), LastTick(steps[..t]), steps[t].now, steps[t].forks, c);
  }

  // ------------------------------------------------------------ payload unchanged

  /** The event a response intent asks for, kind by kind. */
  predicate Answers(p: Pick, x: Intent) {
    match x.kind
    case ChatIntent => p.event.kind == ChatEvent && p.category == Chat
    case RemixIntent => p.event.kind == RemixEvent && p.category == Push
    case ReactionIntent => p.event.kind == ReactionEvent && p.category == Reaction
  }

  /** A response event carries its intent's kind and payload and is never early;
      an ambient event carries none. */
  predicate Carries(p: Pick) {
    match p.intent
    case None => p.event.response.None?
    case Some(x) =>
      && p.event.response == Some(x.payload)
      && Answers(p, x)
      && p.event.remixUpstream.None?
      && x.notBefore <= p.now
  }

  lemma {:induction false} DrainCarries(w: Work, queue: seq<Intent>, now: int, n: nat)
    requires n <= |queue| && forall p | p in w.picks :: Carries(p)
    ensures forall p | p in Drain(w, queue, now, n).picks :: Carries(p)
  {
    hide Select;
    if n > 0 {
      DrainCarries(w, queue, now, n - 1);
    }
  }

  lemma StepCarries(s: State, step: Step)
    ensures forall p | p in PicksOf(s, step) :: Carries(p)
  {
    hide Select, PushUpstream, PushKind, Drain;
    if step.Tick? {
      DrainCarries(Start(s), s.queue, step.now, |s.queue|);
    }
  }

  /** In every run, from any state, every emitted response is its intent, unchanged. */
  lemma {:induction false} PayloadUnchanged(s: State, steps: seq<Step>)
    ensures forall p | p in History(s, steps) :: Carries(p)
  {
    hide PicksOf, Carries;
    if steps != [] {
      PayloadUnchanged(s, steps[..|steps| - 1]);
      StepCarries(After(s, steps[..|steps| - 1]), steps[|steps| - 1]);
    }
  }

  // -------------------------------------------------------------- ambient picks, any pool

  /** What an ambient pick of tick `n` is: its category's turn, its kind, and for a remix
      perhaps one of the known forks, by two hashes of the tick's number. */
  predicate IsAmbient(p: Pick, n: nat, now: int, forks: seq<ForkUpstream>) {
    && p.now == now && p.event.response.None?
    && match p.category {
         case Chat => n % 5 == 0 && p.event.kind == ChatEvent && p.event.remixUpstream.None?
         case Reaction => n % 10 == 0 && p.event.kind == ReactionEvent && p.event.remixUpstream.None?
         case Push =>
           && n % 15 == 0
           && p.event.kind == (if n / 15 % 8 == 7 then RemixEvent else CommitEvent)
           && p.event.remixUpstream ==
              if n / 15 % 8 == 7 && forks != [] && HashString("fork-of-fork:fires:" + Decimal.Text(n)) % 100 < 25
              then Some(forks[HashString("fork-of-fork:pick:" + Decimal.Text(n)) % |forks|])
              else None
       }
  }

  /** Responses come first, then at most one ambient chat, push and reaction in this order. */
  predicate InOrder(picks: seq<Pick>) {
    forall i, j | 0 <= i < j < |picks| && picks[i].intent.None? ::
      picks[j].intent.None? && (picks[i].category.Chat? || picks[j].category.Reaction?) && picks[i].category != picks[j].category
  }

  /** The picks of a tick, up to a category of phase 2. */
  predicate Phase(picks: seq<Pick>, n: nat, now: int, forks: seq<ForkUpstream>, done: set<Category>) {
    && InOrder(picks)
    && forall p | p in picks && p.intent.None? :: p.category in done && IsAmbient(p, n, now, forks)
  }

  lemma {:induction false} DrainedAreResponses(w: Work, queue: seq<Intent>, now: int, n: nat)
    requires n <= |queue| && forall p | p in w.picks :: p.intent.Some?
    ensures forall p | p in Drain(w, queue, now, n).picks :: p.intent.Some?
  {
    hide Select;
    if n > 0 {
      DrainedAreResponses(w, queue, now, n - 1);
    }
  }

  lemma AmbientPhase(w: Work, c: Category, fires: bool, kind: EventKind, upstream: Option<ForkUpstream>, n: nat, now: int,
                     forks: seq<ForkUpstream>, done: set<Category>)
    requires Phase(w.picks, n, now, forks, done) && c !in done
    requires forall d | d in done :: d.Chat? || c.Reaction?
    requires fires ==> forall lane: Lane, i: nat ::
                         IsAmbient(Pick(c, now, PlannedEvent(i, kind, None, upstream), None, lane, []), n, now, forks)
    ensures Phase(Ambient(w, c, fires, kind, upstream, now).picks, n, now, forks, done + {c})
  {
    hide Select, IsAmbient, Spend;
    var next := Ambient(w, c, fires, kind, upstream, now);
    if next.picks != w.picks {
      var p := next.picks[|w.picks|];
      assert next.picks == w.picks + [p];
      assert forall q | q in w.picks && q.intent.None? :: q.category in done;
    }
  }

  lemma PushIsAmbient(n: nat, now: int, forks: seq<ForkUpstream>, lane: Lane, i: nat)
    requires n % 15 == 0
    ensures IsAmbient(Pick(Push, now, PlannedEvent(i, PushKind(n), None, PushUpstream(n, forks)), None, lane, []), n, now, forks)
  {
    hide HashString, Decimal.Text;
  }

  /** Every tick of every state: responses first and then the ambient picks its number calls
      for, whoever is picked. */
  lemma TickPhases(s: State, now: int, forks: seq<ForkUpstream>)
    ensures Phase(Planned(s, now, forks).picks, s.tick, now, forks, {Chat, Push, Reaction})
  {
    hide Drain, Ambient, PushKind, PushUpstream, IsAmbient;
    var n, drained := s.tick, Drained(s, now);
    DrainedAreResponses(Start(s), s.queue, now, |s.queue|);
    assert Phase(drained.picks, n, now, forks, {});
    PlainIsAmbient(n, now, forks);
    AmbientPhase(drained, Chat, n % CHAT_EVERY_N_TICKS == 0, ChatEvent, None, n, now, forks, {});
    var chat := Ambient(drained, Chat, n % CHAT_EVERY_N_TICKS == 0, ChatEvent, None, now);
    forall lane: Lane, i: nat | n % PUSH_EVERY_N_TICKS == 0
      ensures IsAmbient(Pick(Push, now, PlannedEvent(i, PushKind(n), None, PushUpstream(n, forks)), None, lane, []), n, now, forks)
    {
      PushIsAmbient(n, now, forks, lane, i);
    }
    AmbientPhase(chat, Push, n % PUSH_EVERY_N_TICKS == 0, PushKind(n), PushUpstream(n, forks), n, now, forks, {} + {Chat});
    var push := Ambient(chat, Push, n % PUSH_EVERY_N_TICKS == 0, PushKind(n), PushUpstream(n, forks), now);
    AmbientPhase(push, Reaction, n % REACTION_EVERY_N_TICKS == 0, ReactionEvent, None, n, now, forks, {} + {Chat} + {Push});
    assert {} + {Chat} + {Push} + {Reaction} == {Chat, Push, Reaction};
  }

  lemma PlainIsAmbient(n: nat, now: int, forks: seq<ForkUpstream>)
    ensures forall lane: Lane, i: nat | n % 5 == 0 ::
              IsAmbient(Pick(Chat, now, PlannedEvent(i, ChatEvent, None, None), None, lane, []), n, now, forks)
    ensures forall lane: Lane, i: nat | n % 10 == 0 ::
              IsAmbient(Pick(Reaction, now, PlannedEvent(i, ReactionEvent, None, None), None, lane, []), n, now, forks)
  {
  }

  /** In every run, for a pool of any size and any clock: the picks of tick number n are
      responses and then ambient picks, each of them what its number and the forks known at
      that tick say. */
  lemma AmbientPicksAre(s: State, steps: seq<Step>, t: nat)
    requires t < |steps| && steps[t].Tick?
    ensures var picks := PicksOf(After(s, steps[..t]), steps[t]);
            && InOrder(picks)
            && forall p | p in picks && p.intent.None? :: IsAmbient(p, s.tick + Ticks(steps[..t]), steps[t].now, steps[t].forks)
  {
    hide Planned, IsAmbient, InOrder, Ticks, After;
    TickNumber(s, steps[..t]);
    TickPhases(After(s, steps[..t]), steps[t].now, steps[t].forks);
  }
}
