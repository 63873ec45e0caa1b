/** Response bundles over whole runs with a nondecreasing clock: reactions of one
    bundle go to distinct identities even across ticks, and the pruned cooldown map
    decides exactly as one that never forgets. Both hold for a pool of any size. */
module SchedulerBundles {
  import opened Option
  import opened Scheduler
  import opened SchedulerRuns
  import opened SchedulerDrain
  import opened Sequences
  import Decimal

  predicate Monotone(steps: seq<Step>) {
    forall i, j | 0 <= i < j < |steps| :: steps[i].now <= steps[j].now
  }

  // ------------------------------------------------------- bundle ids are never reused

  lemma ClockTextPlain(now: int)
    ensures ':' !in ClockText(now)
  {
    hide Decimal.Text;
  }

  lemma ClockTextInjective(m: int, n: int)
    requires ClockText(m) == ClockText(n)
    ensures m == n
  {
    hide Decimal.Text;
    assert ClockText(m)[0] == ClockText(n)[0];
    if m < 0 {
      assert Decimal.Text(-m) == ClockText(m)[1..] == Decimal.Text(-n);
      Decimal.TextInjective(-m, -n);
    } else {
      Decimal.TextInjective(m, n);
    }
  }

  /** A bundle id says when its bundle was enqueued. */
  lemma BundleIdInjective(s: string, m: int, t: string, n: int)
    requires BundleId(s, m) == BundleId(t, n)
    ensures m == n
  {
    hide ClockText;
    ClockTextPlain(m);
    ClockTextPlain(n);
    LastColon(s, ClockText(m), t, ClockText(n));
    ClockTextInjective(m, n);
  }

  /** What follows the last colon of a text. */
  lemma LastColon(a: string, x: string, b: string, y: string)
    requires a + ":" + x == b + ":" + y
    requires ':' !in x && ':' !in y
    ensures x == y
  {
    var id := a + ":" + x;
    assert id[|a|] == ':' && id[|b|] == ':';
    assert |a| == |b|;
    assert x == id[|a| + 1..];
  }

  // --------------------------------------------------------------- distinctness

  predicate IsReactionFor(p: Pick, bundleId: string) {
    p.intent.Some? && p.intent.value.kind.ReactionIntent? && p.intent.value.bundleId == bundleId
  }

  /** The identities that reacted for a bundle, in order, over a whole history. */
  function ReactedFor(picks: seq<Pick>, bundleId: string): (ids: seq<nat>) {
    if picks == [] then []
    else
      var p := picks[|picks| - 1];
      ReactedFor(picks[..|picks| - 1], bundleId) + (if IsReactionFor(p, bundleId) then [p.event.identity] else [])
  }

  lemma ReactedOneMore(picks: seq<Pick>, p: Pick, b: string)
    ensures ReactedFor(picks + [p], b) == ReactedFor(picks, b) + (if IsReactionFor(p, b) then [p.event.identity] else [])
  {
    assert (picks + [p])[..|picks|] == picks;
  }

  /** When the bundle `b` was enqueued, and that it cannot be enqueued again: the
      clock has moved on, or a later intent of it is still queued. */
  ghost predicate Dated(b: string, queue: seq<Intent>, clock: int) {
    exists target, t: int ::
      b == BundleId(target, t) && t <= clock &&
      (t < clock || exists x :: x in queue && x.bundleId == b && x.notBefore > t)
  }

  /** What every run keeps: the bookkeeping is exactly the history of the one
      bundle in the queue. */
  ghost predicate Tracked(s: State, picks: seq<Pick>, clock: int) {
    && s.reacted.Keys <= BundleIds(s.queue)
    && (forall x, y | x in s.queue && y in s.queue :: x.bundleId == y.bundleId)
    && (forall x | x in s.queue :: Used(s.reacted, x.bundleId) == ReactedFor(picks, x.bundleId))
    && (forall b :: Distinct(ReactedFor(picks, b)))
    && (forall b | ReactedFor(picks, b) != [] :: Dated(b, s.queue, clock))
    && (forall x | x in s.queue :: Dated(x.bundleId, s.queue, clock))
  }

  lemma StillDistinct(ids: seq<nat>, i: nat)
    requires Distinct(ids)
    ensures Distinct(ids + []) && (i !in ids ==> Distinct(ids + [i]))
  {
    assert ids + [] == ids;
  }

  /** The same in the middle of a drain, after `n` intents. */
  ghost predicate Tracking(s: State, before: seq<Pick>, w: Work, now: int, n: nat)
    requires n <= |s.queue|
  {
    var picks := before + w.picks;
    && w.reacted.Keys <= BundleIds(s.queue)
    && (forall x | x in s.queue :: Used(w.reacted, x.bundleId) == ReactedFor(picks, x.bundleId))
    && (forall b :: Distinct(ReactedFor(picks, b)))
    && (forall b | ReactedFor(picks, b) != [] :: ReactedFor(before, b) != [] || b in BundleIds(s.queue))
    && (forall x | x in w.remaining :: x in s.queue)
    && (forall i | 0 <= i < n && s.queue[i].notBefore > now :: s.queue[i] in w.remaining)
  }

  lemma DrainOneTracks(s: State, before: seq<Pick>, w: Work, now: int, n: nat)
    requires n < |s.queue| && Tracking(s, before, w, now, n)
    ensures Tracking(s, before, DrainOne(w, s.queue[n], now), now, n + 1)
  {
    hide Skips, Spend, ReactedFor, BundleIds, Distinct;
    var x := s.queue[n];
    var next := DrainOne(w, x, now);
    if next.picks != w.picks {
      var p := next.picks[|w.picks|];
      assert before + next.picks == before + w.picks + [p];
      forall b
        ensures ReactedFor(before + next.picks, b)
             == ReactedFor(before + w.picks, b) + (if IsReactionFor(p, b) then [p.event.identity] else [])
      {
        ReactedOneMore(before + w.picks, p, b);
      }
      forall b
        ensures Distinct(ReactedFor(before + next.picks, b))
      {
        StillDistinct(ReactedFor(before + w.picks, b), p.event.identity);
      }
      InQueue(s.queue, n);
    }
  }

  lemma {:induction false} DrainTracks(s: State, before: seq<Pick>, clock: int, now: int, n: nat)
    requires n <= |s.queue| && Tracked(s, before, clock)
    ensures Tracking(s, before, Drain(Start(s), s.queue, now, n), now, n)
  {
    hide DrainOne, Tracking;
    if n == 0 {
      DrainStartsTracked(s, before, clock, now);
    } else {
      DrainTracks(s, before, clock, now, n - 1);
      DrainOneTracks(s, before, Drain(Start(s), s.queue, now, n - 1), now, n - 1);
    }
  }

  lemma DrainStartsTracked(s: State, before: seq<Pick>, clock: int, now: int)
    requires Tracked(s, before, clock)
    ensures Tracking(s, before, Start(s), now, 0)
  {
    hide ReactedFor, Dated;
    assert before + [] == before;
  }

  /** A bundle that was dated stays dated through a drain. */
  lemma DrainKeepsDated(s: State, before: seq<Pick>, w: Work, clock: int, now: int, b: string)
    requires Tracking(s, before, w, now, |s.queue|) && clock <= now
    requires Dated(b, s.queue, clock)
    ensures Dated(b, w.remaining, now)
  {
    hide BundleId, ReactedFor;
    var target, t :| b == BundleId(target, t) && t <= clock &&
      (t < clock || exists x :: x in s.queue && x.bundleId == b && x.notBefore > t);
    if t >= now {
      var x :| x in s.queue && x.bundleId == b && x.notBefore > t;
      var i :| 0 <= i < |s.queue| && s.queue[i] == x;
      assert s.queue[i] in w.remaining;
    }
  }

  lemma TickTracks(s: State, before: seq<Pick>, clock: int, now: int, forks: seq<ForkUpstream>)
    requires Tracked(s, before, clock) && clock <= now
    ensures Tracked(Ticked(s, now, forks), before + Planned(s, now, forks).picks, now)
  {
    hide Ambient, Drain, Dated, ReactedFor, PushUpstream, PushKind, Distinct;
    DrainTracks(s, before, clock, now, |s.queue|);
    var w := Drain(Start(s), s.queue, now, |s.queue|);
    forall b | Dated(b, s.queue, clock)
      ensures Dated(b, w.remaining, now)
    {
      DrainKeepsDated(s, before, w, clock, now, b);
    }
    AmbientReactsForNobody(s, before, now, forks);
  }

  /** Ambient picks leave the queue and its bookkeeping alone. */
  lemma AmbientReactsForNobody(s: State, before: seq<Pick>, now: int, forks: seq<ForkUpstream>)
    ensures Planned(s, now, forks).remaining == Drained(s, now).remaining
    ensures Planned(s, now, forks).reacted == Drained(s, now).reacted
    ensures forall b :: ReactedFor(before + Planned(s, now, forks).picks, b)
                     == ReactedFor(before + Drained(s, now).picks, b)
  {
    hide Ambient, Drained, PushUpstream, PushKind, ReactedFor;
    var drained := Drained(s, now);
    var chats, pushes := s.tick % CHAT_EVERY_N_TICKS == 0, s.tick % PUSH_EVERY_N_TICKS == 0;
    AmbientOne(before, drained, Chat, chats, ChatEvent, None, now);
    var chat := Ambient(drained, Chat, chats, ChatEvent, None, now);
    var kind, upstream := PushKind(s.tick), PushUpstream(s.tick, forks);
    AmbientOne(before, chat, Push, pushes, kind, upstream, now);
    var push := Ambient(chat, Push, pushes, kind, upstream, now);
    AmbientOne(before, push, Reaction, s.tick % REACTION_EVERY_N_TICKS == 0, ReactionEvent, None, now);
  }

  lemma AmbientOne(before: seq<Pick>, w: Work, c: Category, fires: bool, kind: EventKind,
                   upstream: Option<ForkUpstream>, now: int)
    ensures var next := Ambient(w, c, fires, kind, upstream, now);
            && next.remaining == w.remaining && next.reacted == w.reacted
            && forall b :: ReactedFor(before + next.picks, b) == ReactedFor(before + w.picks, b)
  {
    hide Select, ReactedFor;
    var next := Ambient(w, c, fires, kind, upstream, now);
    if next.picks != w.picks {
      var p := next.picks[|w.picks|];
      assert before + next.picks == before + w.picks + [p];
      forall b
        ensures ReactedFor(before + next.picks, b) == ReactedFor(before + w.picks, b)
      {
        ReactedOneMore(before + w.picks, p, b);
        assert ReactedFor(before + w.picks, b) + [] == ReactedFor(before + w.picks, b);
      }
    }
  }

  /** A new bundle gets an id the history has never seen. */
  lemma FreshBundleId(s: State, picks: seq<Pick>, clock: int, target: string, now: int)
    requires Tracked(s, picks, clock) && clock <= now && s.queue == []
    ensures ReactedFor(picks, BundleId(target, now)) == []
  {
    hide BundleId, ReactedFor;
    var b := BundleId(target, now);
    if ReactedFor(picks, b) != [] {
      var target', t :| b == BundleId(target', t) && t <= clock &&
        (t < clock || exists x :: x in s.queue && x.bundleId == b && x.notBefore > t);
      BundleIdInjective(target, now, target', t);
    }
  }

  lemma ClockMovesOn(s: State, picks: seq<Pick>, clock: int, now: int)
    requires Tracked(s, picks, clock) && clock <= now
    ensures Tracked(s, picks, now)
  {
    hide ReactedFor, BundleId;
    forall b | Dated(b, s.queue, clock)
      ensures Dated(b, s.queue, now)
    {
      var target, t :| b == BundleId(target, t) && t <= clock &&
        (t < clock || exists x :: x in s.queue && x.bundleId == b && x.notBefore > t);
      assert t <= now && (t < now || exists x :: x in s.queue && x.bundleId == b && x.notBefore > t);
    }
    hide Dated;
  }

  lemma EnqueueTracks(s: State, picks: seq<Pick>, clock: int, e: RealEvent, now: int)
    requires Tracked(s, picks, clock) && clock <= now
    ensures Tracked(Enqueued(s, e, now), picks, now)
  {
    hide ReactedFor, Bundle, BundleId, Distinct;
    ClockMovesOn(s, picks, clock, now);
    if Accepts(s, e, now) {
      NothingInFlight(s.queue);
      var next, b := Enqueued(s, e, now), BundleId(e.target, now);
      assert next.queue == Bundle(e, now);
      BundleShape(e, now);
      FreshBundleId(s, picks, clock, e.target, now);
      assert Dated(b, next.queue, now);
      forall b' | Dated(b', s.queue, now)
        ensures Dated(b', next.queue, now)
      {
        var target, t :| b' == BundleId(target, t) && t <= now &&
          (t < now || exists x :: x in s.queue && x.bundleId == b' && x.notBefore > t);
      }
      hide Dated;
    }
  }

  lemma {:induction false} RunTracks(poolSize: nat, steps: seq<Step>, clock: int)
    requires Monotone(steps) && forall i | 0 <= i < |steps| :: steps[i].now <= clock
    ensures Tracked(After(Initial(poolSize), steps), History(Initial(poolSize), steps), clock)
  {
    hide Tracked, Ticked, Enqueued, Planned;
    if steps == [] {
      InitialTracked(poolSize, clock);
    } else {
      var init, step := steps[..|steps| - 1], steps[|steps| - 1];
      var s, picks := After(Initial(poolSize), init), History(Initial(poolSize), init);
      RunTracks(poolSize, init, step.now);
      match step {
        case Tick(now, forks) => TickTracks(s, picks, now, now, forks);
        case Enqueue(e, now) =>
          EnqueueTracks(s, picks, now, e, now);
          assert picks + [] == picks;
      }
      ClockMovesOn(After(Initial(poolSize), steps), History(Initial(poolSize), steps), step.now, clock);
    }
  }

  lemma InitialTracked(poolSize: nat, clock: int)
    ensures Tracked(Initial(poolSize), [], clock)
  {
  }

  lemma OneBundleId(queue: seq<Intent>)
    requires forall x, y | x in queue && y in queue :: x.bundleId == y.bundleId
    ensures |BundleIds(queue)| <= MAX_BUNDLES_IN_FLIGHT
  {
    if queue != [] {
      assert BundleIds(queue) == {queue[0].bundleId};
    } else {
      assert BundleIds(queue) == {};
    }
  }

  lemma LastClock(steps: seq<Step>) returns (clock: int)
    requires Monotone(steps)
    ensures forall i | 0 <= i < |steps| :: steps[i].now <= clock
  {
    clock := if steps == [] then 0 else steps[|steps| - 1].now;
  }

  /** With a nondecreasing clock, all reactions ever drained under one bundle id go
      to pairwise distinct identities, even across ticks; the bookkeeping only ever
      holds bundles still queued, and at most one bundle is in flight. */
  lemma DistinctReactions(poolSize: nat, steps: seq<Step>, bundleId: string)
    requires Monotone(steps)
    ensures Distinct(ReactedFor(History(Initial(poolSize), steps), bundleId))
    ensures var s := After(Initial(poolSize), steps);
            s.reacted.Keys <= BundleIds(s.queue) && |BundleIds(s.queue)| <= MAX_BUNDLES_IN_FLIGHT
  {
    hide After, History, ReactedFor, BundleIds;
    var clock := LastClock(steps);
    RunTracks(poolSize, steps, clock);
    OneBundleId(After(Initial(poolSize), steps).queue);
  }

  // ------------------------------------------------------------------- cooldown

  /** `enqueueResponseBundle` if it never pruned. */
  function EnqueuedUnpruned(s: State, e: RealEvent, now: int): (next: State) {
    if Accepts(s, e, now)
    then s.(queue := s.queue + Bundle(e, now), lastBundle := s.lastBundle[e.author := now])
    else s
  }

  function AfterUnpruned(s: State, steps: seq<Step>): (last: State) {
    if steps == [] then s
    else
      var before := AfterUnpruned(s, steps[..|steps| - 1]);
      match steps[|steps| - 1]
      case Tick(now, forks) => Ticked(before, now, forks)
      case Enqueue(e, now) => EnqueuedUnpruned(before, e, now)
  }

  /** The pruned map is the full one without entries whose cooldown is over. */
  predicate PrunedOf(pruned: map<string, int>, full: map<string, int>, clock: int) {
    && (forall a | a in pruned :: a in full && pruned[a] == full[a])
    && (forall a | a in full && a !in pruned :: clock - full[a] >= RESPONSE_AUTHOR_COOLDOWN_MS)
  }

  /** Two states alike in everything but the cooldown map. */
  predicate Alike(s: State, full: State, clock: int) {
    full.(lastBundle := s.lastBundle) == s && PrunedOf(s.lastBundle, full.lastBundle, clock)
  }

  /** Pruning is invisible: at every step of every run with a nondecreasing clock the
      pruned map makes the same decision as one that never forgets, so the two runs
      agree on everything else. */
  lemma {:induction false} PruningInvisible(poolSize: nat, steps: seq<Step>, clock: int)
    requires Monotone(steps) && forall i | 0 <= i < |steps| :: steps[i].now <= clock
    ensures Alike(After(Initial(poolSize), steps), AfterUnpruned(Initial(poolSize), steps), clock)
    ensures forall e, now | now >= clock ::
              Accepts(After(Initial(poolSize), steps), e, now)
              <==> Accepts(AfterUnpruned(Initial(poolSize), steps), e, now)
  {
    hide Planned, Enqueued, EnqueuedUnpruned, Ticked, Alike, Accepts;
    if steps == [] {
      assert Alike(Initial(poolSize), Initial(poolSize), clock) by { AlikeSelf(Initial(poolSize), clock); }
    } else {
      var init, step := steps[..|steps| - 1], steps[|steps| - 1];
      PruningInvisible(poolSize, init, step.now);
      var s, full := After(Initial(poolSize), init), AfterUnpruned(Initial(poolSize), init);
      match step {
        case Tick(now, forks) => TickKeepsAlike(s, full, now, forks);
        case Enqueue(e, now) => EnqueueKeepsAlike(s, full, e, now);
      }
      AlikeLater(After(Initial(poolSize), steps), AfterUnpruned(Initial(poolSize), steps), step.now, clock);
    }
    AlikeDecides(After(Initial(poolSize), steps), AfterUnpruned(Initial(poolSize), steps), clock);
  }

  lemma AlikeSelf(s: State, clock: int)
    ensures Alike(s, s, clock)
  {
  }

  lemma AlikeLater(s: State, full: State, clock: int, later: int)
    requires Alike(s, full, clock) && clock <= later
    ensures Alike(s, full, later)
  {
  }

  lemma AlikeDecides(s: State, full: State, clock: int)
    requires Alike(s, full, clock)
    ensures forall e, now | now >= clock :: Accepts(s, e, now) <==> Accepts(full, e, now)
  {
    hide BundleIds;
  }

  lemma EnqueueKeepsAlike(s: State, full: State, e: RealEvent, now: int)
    requires Alike(s, full, now)
    ensures Alike(Enqueued(s, e, now), EnqueuedUnpruned(full, e, now), now)
  {
    hide BundleIds, Bundle;
    AlikeDecides(s, full, now);
  }

  lemma TickKeepsAlike(s: State, full: State, now: int, forks: seq<ForkUpstream>)
    requires Alike(s, full, now)
    ensures Alike(Ticked(s, now, forks), Ticked(full, now, forks), now)
  {
    hide Ticked;
    TickIgnoresCooldown(s, full, now, forks);
  }

  lemma TickIgnoresCooldown(s: State, full: State, now: int, forks: seq<ForkUpstream>)
    requires full.(lastBundle := s.lastBundle) == s
    ensures Ticked(full, now, forks).(lastBundle := s.lastBundle) == Ticked(s, now, forks)
    ensures Ticked(full, now, forks).lastBundle == full.lastBundle
    ensures Ticked(s, now, forks).lastBundle == s.lastBundle
  {
    hide Ambient, Drain, PushUpstream, PushKind;
    assert Start(s) == Start(full);
  }

  /** Step `k` of the run got a bundle for `author`. */
  predicate Answers(poolSize: nat, steps: seq<Step>, k: nat, author: string)
    requires k < |steps|
  {
    && steps[k].Enqueue?
    && steps[k].event.author == author
    && Accepts(After(Initial(poolSize), steps[..k]), steps[k].event, steps[k].now)
  }

  /** An answered author is remembered until the cooldown is over. */
  lemma {:induction false} AnswersRemembered(poolSize: nat, steps: seq<Step>, i: nat, clock: int)
    requires Monotone(steps) && i < |steps| && forall k | 0 <= k < |steps| :: steps[k].now <= clock
    requires steps[i].Enqueue? && Answers(poolSize, steps, i, steps[i].event.author)
    ensures var last, author := After(Initial(poolSize), steps).lastBundle, steps[i].event.author;
            || (author in last && last[author] >= steps[i].now)
            || clock >= steps[i].now + RESPONSE_AUTHOR_COOLDOWN_MS
    decreases |steps|
  {
    hide Planned, Bundle, BundleIds;
    var k := |steps| - 1;
    if i < k {
      assert steps[..k][..i] == steps[..i];
      AnswersRemembered(poolSize, steps[..k], i, steps[k].now);
    }
  }

  /** Two bundles for one author are always at least five minutes apart. */
  lemma CooldownSpacing(poolSize: nat, steps: seq<Step>, i: nat, j: nat, author: string)
    requires Monotone(steps) && i < j < |steps|
    requires Answers(poolSize, steps, i, author) && Answers(poolSize, steps, j, author)
    ensures steps[j].now - steps[i].now >= 300_000
  {
    hide After, BundleIds;
    assert steps[..j][..i] == steps[..i];
    AnswersRemembered(poolSize, steps[..j], i, steps[j].now);
  }

  /** An entry of the cooldown map is the time of an answer. */
  lemma {:induction false} EntriesAreAnswers(poolSize: nat, steps: seq<Step>, author: string)
    requires author in After(Initial(poolSize), steps).lastBundle
    ensures exists i :: 0 <= i < |steps| && Answers(poolSize, steps, i, author) &&
                        steps[i].now == After(Initial(poolSize), steps).lastBundle[author]
  {
    hide Planned, Bundle, Accepts;
    var k := |steps| - 1;
    var init := steps[..k];
    if steps[k].Enqueue? && Accepts(After(Initial(poolSize), init), steps[k].event, steps[k].now) &&
       steps[k].event.author == author {
      assert Answers(poolSize, steps, k, author);
    } else {
      EntriesAreAnswers(poolSize, init, author);
      var i :| 0 <= i < |init| && Answers(poolSize, init, i, author) &&
               init[i].now == After(Initial(poolSize), init).lastBundle[author];
      assert init[..i] == steps[..i];
      assert Answers(poolSize, steps, i, author);
    }
  }

  /** Exactly which events are answered: those that find the queue empty, when no event of
      the same author was answered less than five minutes before. */
  lemma AnsweredIff(poolSize: nat, steps: seq<Step>, k: nat)
    requires Monotone(steps) && k < |steps| && steps[k].Enqueue?
    ensures Answers(poolSize, steps, k, steps[k].event.author) <==>
              && After(Initial(poolSize), steps[..k]).queue == []
              && forall i | 0 <= i < k && Answers(poolSize, steps, i, steps[k].event.author) ::
                   steps[k].now - steps[i].now >= 300_000
  {
    hide After, BundleIds;
    var s, author := After(Initial(poolSize), steps[..k]), steps[k].event.author;
    QueueIsEmptyIff(s.queue);
    if Answers(poolSize, steps, k, author) {
      forall i | 0 <= i < k && Answers(poolSize, steps, i, author)
        ensures steps[k].now - steps[i].now >= 300_000
      {
        CooldownSpacing(poolSize, steps, i, k, author);
      }
    } else if s.queue == [] {
      EntriesAreAnswers(poolSize, steps[..k], author);
      var i :| 0 <= i < k && Answers(poolSize, steps[..k], i, author) && steps[..k][i].now == s.lastBundle[author];
      assert steps[..k][..i] == steps[..i];
      assert Answers(poolSize, steps, i, author);
    }
  }
}
