/** Whole runs of the scheduler: any interleaving of ticks and enqueues, with the
    history of every pick. The two laws here, per-identity floors and round-robin
    fairness, hold for any clock readings whatever. */
module SchedulerRuns {
  import opened Option
  import opened Scheduler
  import opened Arithmetic

  datatype Step = Tick(now: int, forks: seq<ForkUpstream>) | Enqueue(event: RealEvent, now: int)

  function Next(s: State, step: Step): (next: State) {
    match step
    case Tick(now, forks) => Ticked(s, now, forks)
    case Enqueue(e, now) => Enqueued(s, e, now)
  }

  function PicksOf(s: State, step: Step): (picks: seq<Pick>) {
    match step
    case Tick(now, forks) => Planned(s, now, forks).picks
    case Enqueue(_, _) => []
  }

  /** The state after a run. */
  function After(s: State, steps: seq<Step>): (last: State) {
    if steps == [] then s else Next(After(s, steps[..|steps| - 1]), steps[|steps| - 1])
  }

  /** Every pick of a run, in order. */
  function History(s: State, steps: seq<Step>): (picks: seq<Pick>) {
    if steps == [] then []
    else History(s, steps[..|steps| - 1]) + PicksOf(After(s, steps[..|steps| - 1]), steps[|steps| - 1])
  }

  // -------------------------------------------------- a history explains the lanes

  /** The lanes after a history of picks. */
  function Replay(lanes: Lanes, picks: seq<Pick>): (after: Lanes) {
    if picks == [] then lanes
    else
      var before := Replay(lanes, picks[..|picks| - 1]);
      var p := picks[|picks| - 1];
      var lane := before.Get(p.category);
      if p.event.identity < |lane.last| then before.Set(p.category, Spend(lane, p.event.identity, p.now)) else before
  }

  /** A pick is what a scan of the lane selects; only reactions exclude anyone. */
  predicate Selected(lanes: Lanes, p: Pick) {
    && p.lane == lanes.Get(p.category)
    && Select(p.lane, Floor(p.category), p.now, p.excluded) == Some(p.event.identity)
    && (p.category.Reaction? || p.excluded == [])
  }

  predicate Justified(lanes: Lanes, picks: seq<Pick>) {
    picks == [] ||
    (Justified(lanes, picks[..|picks| - 1]) &&
     Selected(Replay(lanes, picks[..|picks| - 1]), picks[|picks| - 1]))
  }

  ghost predicate Explains(lanes: Lanes, picks: seq<Pick>, after: Lanes) {
    Justified(lanes, picks) && Replay(lanes, picks) == after
  }

  lemma ExplainsOneMore(lanes: Lanes, picks: seq<Pick>, before: Lanes, p: Pick)
    requires Explains(lanes, picks, before) && Selected(before, p)
    ensures Explains(lanes, picks + [p],
                     before.Set(p.category, Spend(p.lane, p.event.identity, p.now)))
  {
    hide Select;
    assert (picks + [p])[..|picks|] == picks;
  }

  lemma {:induction false} ExplainsConcat(lanes: Lanes, picks: seq<Pick>, mid: Lanes, more: seq<Pick>, after: Lanes)
    requires Explains(lanes, picks, mid) && Explains(mid, more, after)
    ensures Explains(lanes, picks + more, after)
    decreases |more|
  {
    hide Select;
    if more == [] {
      assert picks + more == picks;
    } else {
      var init, p := more[..|more| - 1], more[|more| - 1];
      ExplainsConcat(lanes, picks, mid, init, Replay(mid, init));
      ExplainsOneMore(lanes, picks + init, Replay(mid, init), p);
      assert picks + more == picks + init + [p];
    }
  }

  lemma DrainOneExplained(lanes: Lanes, w: Work, intent: Intent, now: int)
    requires Explains(lanes, w.picks, w.lanes)
    ensures Explains(lanes, DrainOne(w, intent, now).picks, DrainOne(w, intent, now).lanes)
  {
    hide Explains;
    var next := DrainOne(w, intent, now);
    if next.picks != w.picks {
      ExplainsOneMore(lanes, w.picks, w.lanes, next.picks[|w.picks|]);
    }
  }

  lemma AmbientExplained(
      lanes: Lanes, w: Work, c: Category, fires: bool, kind: EventKind, upstream: Option<ForkUpstream>, now: int)
    requires Explains(lanes, w.picks, w.lanes)
    ensures var next := Ambient(w, c, fires, kind, upstream, now);
            Explains(lanes, next.picks, next.lanes)
  {
    hide Explains;
    var next := Ambient(w, c, fires, kind, upstream, now);
    if next.picks != w.picks {
      ExplainsOneMore(lanes, w.picks, w.lanes, next.picks[|w.picks|]);
    }
  }

  lemma {:induction false} DrainExplained(s: State, now: int, n: nat)
    requires n <= |s.queue|
    ensures var w := Drain(Start(s), s.queue, now, n);
            Explains(s.lanes, w.picks, w.lanes)
  {
    hide DrainOne;
    if n > 0 {
      DrainExplained(s, now, n - 1);
      DrainOneExplained(s.lanes, Drain(Start(s), s.queue, now, n - 1), s.queue[n - 1], now);
    }
  }

  /** The picks of one step account for every change to the lanes. */
  lemma StepExplained(s: State, step: Step)
    ensures Explains(s.lanes, PicksOf(s, step), Next(s, step).lanes)
  {
    hide Explains, Ambient, Drain, Enqueued, PushUpstream;
    match step
    case Enqueue(e, now) =>
      EnqueuedLanes(s, e, now);
    case Tick(now, forks) =>
      DrainExplained(s, now, |s.queue|);
      var drained := Drained(s, now);
      AmbientExplained(s.lanes, drained, Chat, s.tick % CHAT_EVERY_N_TICKS == 0, ChatEvent, None, now);
      var chat := Ambient(drained, Chat, s.tick % CHAT_EVERY_N_TICKS == 0, ChatEvent, None, now);
      var pushes := s.tick % PUSH_EVERY_N_TICKS == 0;
      AmbientExplained(s.lanes, chat, Push, pushes, PushKind(s.tick), PushUpstream(s.tick, forks), now);
      var push := Ambient(chat, Push, pushes, PushKind(s.tick), PushUpstream(s.tick, forks), now);
      AmbientExplained(s.lanes, push, Reaction, s.tick % REACTION_EVERY_N_TICKS == 0, ReactionEvent, None, now);
  }

  lemma EnqueuedLanes(s: State, e: RealEvent, now: int)
    ensures Enqueued(s, e, now).lanes == s.lanes
    ensures Explains(s.lanes, [], s.lanes)
  {
  }

  /** The history of a run accounts for the lanes it ends with. */
  lemma {:induction false} RunExplained(s: State, steps: seq<Step>)
    ensures Explains(s.lanes, History(s, steps), After(s, steps).lanes)
  {
    hide Explains, Next, PicksOf;
    if steps == [] {
      EmptyExplained(s.lanes);
    } else {
      var init, step := steps[..|steps| - 1], steps[|steps| - 1];
      RunExplained(s, init);
      StepExplained(After(s, init), step);
      ExplainsConcat(s.lanes, History(s, init), After(s, init).lanes,
                     PicksOf(After(s, init), step), After(s, steps).lanes);
    }
  }

  lemma EmptyExplained(lanes: Lanes)
    ensures Explains(lanes, [], lanes)
  {
  }

  // ----------------------------------------------------------------- floors

  predicate SameSpender(p: Pick, q: Pick) {
    p.category == q.category && p.event.identity == q.event.identity
  }

  /** Picks of one identity in one category are at least the floor apart. */
  predicate Spaced(picks: seq<Pick>) {
    forall a, b | 0 <= a < b < |picks| && SameSpender(picks[a], picks[b]) ::
      picks[b].now - picks[a].now >= Floor(picks[a].category)
  }

  /** The lanes remember a pick no earlier than any in the history. */
  predicate Remembered(picks: seq<Pick>, lanes: Lanes) {
    forall p | p in picks ::
      var last := lanes.Get(p.category).last;
      p.event.identity < |last| && last[p.event.identity].Some? && p.now <= last[p.event.identity].value
  }

  lemma {:induction false} JustifiedPicksAreSpaced(lanes: Lanes, picks: seq<Pick>)
    requires Justified(lanes, picks)
    ensures Spaced(picks) && Remembered(picks, Replay(lanes, picks))
  {
    hide Spaced, Remembered, Skips, Spend;
    if picks == [] {
      NothingSpaced(lanes);
    } else {
      var init, p := picks[..|picks| - 1], picks[|picks| - 1];
      JustifiedPicksAreSpaced(lanes, init);
      PickIsSpaced(init, Replay(lanes, init), p);
      assert picks == init + [p];
    }
  }

  lemma NothingSpaced(lanes: Lanes)
    ensures Spaced([]) && Remembered([], lanes)
  {
  }

  lemma PickIsSpaced(picks: seq<Pick>, lanes: Lanes, p: Pick)
    requires Spaced(picks) && Remembered(picks, lanes) && Selected(lanes, p)
    ensures Spaced(picks + [p])
    ensures Remembered(picks + [p], lanes.Set(p.category, Spend(p.lane, p.event.identity, p.now)))
  {
    hide Skips, Ring;
    var all := picks + [p];
    forall a, b | 0 <= a < b < |all| && SameSpender(all[a], all[b])
      ensures all[b].now - all[a].now >= Floor(all[a].category)
    {
      if b == |picks| {
        assert all[a] in picks;
      }
    }
    forall q | q in all
      ensures var last := lanes.Set(p.category, Spend(p.lane, p.event.identity, p.now)).Get(q.category).last;
              q.event.identity < |last| && last[q.event.identity].Some? && q.now <= last[q.event.identity].value
    {
      assert q in picks || q == p;
    }
  }

  /** In every run, whatever the clock reads, two picks of one identity in one
      category, ambient or response, are at least that category's floor apart. */
  lemma FloorSafety(s: State, steps: seq<Step>, a: nat, b: nat)
    requires a < b < |History(s, steps)|
    requires SameSpender(History(s, steps)[a], History(s, steps)[b])
    ensures History(s, steps)[b].now - History(s, steps)[a].now >= match History(s, steps)[a].category {
              case Chat => 2_500
              case Push => 30_000
              case Reaction => 200
            }
  {
    RunExplained(s, steps);
    JustifiedPicksAreSpaced(s.lanes, History(s, steps));
  }

  // --------------------------------------------------------------- fairness

  /** The picks of one category, in order. */
  function Only(picks: seq<Pick>, c: Category): (only: seq<Pick>) {
    if picks == [] then []
    else
      var p := picks[|picks| - 1];
      Only(picks[..|picks| - 1], c) + (if p.category == c then [p] else [])
  }

  /** Each scan starts right after the identity the one before it picked. */
  predicate Linked(picks: seq<Pick>, size: nat) {
    && (forall k | 0 <= k < |picks| :: |picks[k].lane.last| == size > 0 && picks[k].event.identity < size)
    && (forall k | 0 < k < |picks| :: picks[k].lane.cursor == Ring(picks[k - 1].event.identity, 1, size))
  }

  lemma {:induction false} PicksAreLinked(lanes: Lanes, picks: seq<Pick>, c: Category)
    requires Justified(lanes, picks)
    ensures var only, size := Only(picks, c), |lanes.Get(c).last|;
            && |Replay(lanes, picks).Get(c).last| == size
            && Linked(only, size)
            && (only != [] ==> Replay(lanes, picks).Get(c).cursor == Ring(only[|only| - 1].event.identity, 1, size))
  {
    hide Ring, Linked, Skips, Only, Replay, Selected;
    if picks == [] {
      NothingLinked(lanes, c);
    } else {
      var init, p := picks[..|picks| - 1], picks[|picks| - 1];
      PicksAreLinked(lanes, init, c);
      OneMoreLinked(lanes, Replay(lanes, init), init, p, c);
      assert picks == init + [p];
    }
  }

  lemma OneMoreLinked(lanes: Lanes, before: Lanes, init: seq<Pick>, p: Pick, c: Category)
    requires Selected(before, p) && before == Replay(lanes, init)
    requires var only, size := Only(init, c), |lanes.Get(c).last|;
             && |before.Get(c).last| == size
             && Linked(only, size)
             && (only != [] ==> before.Get(c).cursor == Ring(only[|only| - 1].event.identity, 1, size))
    ensures var only, size := Only(init + [p], c), |lanes.Get(c).last|;
            && |Replay(lanes, init + [p]).Get(c).last| == size
            && Linked(only, size)
            && (only != [] ==> Replay(lanes, init + [p]).Get(c).cursor == Ring(only[|only| - 1].event.identity, 1, size))
  {
    hide Ring, Linked, Skips, Only, Replay;
    ReplayOneMore(lanes, init, p);
    OnlyOneMore(init, p, c);
    if p.category == c {
      LinkedOneMore(Only(init, c), p, |lanes.Get(c).last|);
    }
  }

  lemma ReplayOneMore(lanes: Lanes, init: seq<Pick>, p: Pick)
    requires Selected(Replay(lanes, init), p)
    ensures Replay(lanes, init + [p])
         == Replay(lanes, init).Set(p.category, Spend(p.lane, p.event.identity, p.now))
  {
    hide Skips;
    assert (init + [p])[..|init|] == init;
  }

  lemma OnlyOneMore(init: seq<Pick>, p: Pick, c: Category)
    ensures Only(init + [p], c) == if p.category == c then Only(init, c) + [p] else Only(init, c)
  {
    assert (init + [p])[..|init|] == init;
  }

  lemma NothingLinked(lanes: Lanes, c: Category)
    ensures Only([], c) == [] && Replay(lanes, []) == lanes && Linked([], |lanes.Get(c).last|)
  {
  }

  lemma {:induction false} OnlyIsPart(picks: seq<Pick>, c: Category)
    ensures forall p | p in Only(picks, c) :: p in picks && p.category == c
  {
    if picks != [] {
      OnlyIsPart(picks[..|picks| - 1], c);
    }
  }

  lemma LinkedOneMore(only: seq<Pick>, p: Pick, size: nat)
    requires Linked(only, size)
    requires |p.lane.last| == size > 0 && p.event.identity < size
    requires only != [] ==> p.lane.cursor == Ring(only[|only| - 1].event.identity, 1, size)
    ensures Linked(only + [p], size)
  {
    hide Ring;
  }

  /** A successful scan went past `j` because `j` was still inside its floor. */
  ghost predicate PassedOver(p: Pick, j: nat) {
    && j < |p.lane.last|
    && (exists t :: 0 <= t < Skips(p.lane, Floor(p.category), p.now, [], 0) && Ring(p.lane.cursor, t, |p.lane.last|) == j)
    && p.lane.last[j].Some?
    && p.now - p.lane.last[j].value < Floor(p.category)
  }

  lemma RingAdds(i: nat, r: nat, t: nat, size: nat)
    requires size > 0
    ensures Ring(Ring(i, r, size), t, size) == Ring(i, r + t, size)
  {
    ModAdd(i + r, t, size);
  }

  lemma RingDistance(i: nat, j: nat, size: nat) returns (d: nat)
    requires i < size && j < size
    ensures d < size && Ring(i, d, size) == j
    ensures d == 0 <==> i == j
  {
    d := if i <= j then j - i else j + size - i;
    SmallMod(j, size);
    if i > j {
      DivStep(j, size);
    }
  }

  /** Follow the scans from `r` places past `i`: one of them meets the identity `d`
      places past `i` before `i` itself comes round again. */
  lemma {:induction false} ScansMeet(picks: seq<Pick>, size: nat, i: nat, r: nat, d: nat, k: nat, b: nat)
    returns (m: nat)
    requires Linked(picks, size) && i < size
    requires forall k | 0 <= k < |picks| :: FreeScan(picks[k])
    requires 0 < k <= b < |picks| && r < d < size
    requires picks[k - 1].event.identity == Ring(i, r, size)
    requires picks[b].event.identity == i
    ensures k <= m <= b
    ensures picks[m].event.identity == Ring(i, d, size) || PassedOver(picks[m], Ring(i, d, size))
    decreases b - k
  {
    var p := picks[k];
    var s := Skips(p.lane, Floor(p.category), p.now, [], 0);
    RingAdds(i, r, 1, size);
    assert p.lane.cursor == Ring(i, r + 1, size);
    RingAdds(i, r + 1, s, size);
    if d <= r + 1 + s {
      m := k;
      RingAdds(i, r + 1, d - r - 1, size);
      assert Ring(p.lane.cursor, d - r - 1, size) == Ring(i, d, size);
    } else {
      assert p.event.identity == Ring(i, r + 1 + s, size);
      if k == b {
        RingNotSelf(i, r + 1 + s, size);
        assert false;
      }
      m := ScansMeet(picks, size, i, r + 1 + s, d, k + 1, b);
    }
  }

  lemma RingNotSelf(i: nat, r: nat, size: nat)
    requires i < size && 0 < r < size
    ensures Ring(i, r, size) != i
  {
    if i + r < size {
      SmallMod(i + r, size);
    } else {
      SmallMod(i + r - size, size);
      DivStep(i + r - size, size);
    }
  }

  /** A chat or push pick: a scan that excluded nobody. */
  predicate FreeScan(p: Pick) {
    Select(p.lane, Floor(p.category), p.now, []) == Some(p.event.identity)
  }

  lemma {:induction false} JustifiedEach(lanes: Lanes, picks: seq<Pick>)
    requires Justified(lanes, picks)
    ensures forall p | p in picks :: p.category.Reaction? || FreeScan(p)
  {
    hide Select;
    if picks != [] {
      JustifiedEach(lanes, picks[..|picks| - 1]);
      assert picks == picks[..|picks| - 1] + [picks[|picks| - 1]];
    }
  }

  /** Round-robin fairness: between two chat (or push) picks of one identity, every
      other identity was picked in that category, or was inside its floor when a
      successful scan went past it. */
  lemma Fairness(s: State, steps: seq<Step>, c: Category, a: nat, b: nat, j: nat) returns (m: nat)
    requires c.Chat? || c.Push?
    requires a < b < |Only(History(s, steps), c)|
    requires Only(History(s, steps), c)[a].event.identity == Only(History(s, steps), c)[b].event.identity
    requires j < |s.lanes.Get(c).last| && j != Only(History(s, steps), c)[a].event.identity
    ensures a < m <= b
    ensures var p := Only(History(s, steps), c)[m];
            p.event.identity == j || PassedOver(p, j)
  {
    hide History, Only, FreeScan, PassedOver, Linked, Ring;
    var only, size := Only(History(s, steps), c), |s.lanes.Get(c).last|;
    OnlyScans(s, steps, c);
    var i := only[a].event.identity;
    assert i < size by { LinkedAt(only, size, a); }
    var d := RingDistance(i, j, size);
    RingStart(i, size);
    m := ScansMeet(only, size, i, 0, d, a + 1, b);
  }

  lemma LinkedAt(picks: seq<Pick>, size: nat, k: nat)
    requires Linked(picks, size) && k < |picks|
    ensures picks[k].event.identity < size
  {
  }

  lemma RingStart(i: nat, size: nat)
    requires i < size
    ensures Ring(i, 0, size) == i
  {
    SmallMod(i, size);
  }

  /** The chat (or push) picks of a run: each the pick of a scan that excluded nobody,
      from where the one before it stopped. */
  lemma OnlyScans(s: State, steps: seq<Step>, c: Category)
    requires c.Chat? || c.Push?
    ensures Linked(Only(History(s, steps), c), |s.lanes.Get(c).last|)
    ensures forall k | 0 <= k < |Only(History(s, steps), c)| :: FreeScan(Only(History(s, steps), c)[k])
  {
    hide FreeScan, History, Justified, Replay, Only, Linked;
    var picks := History(s, steps);
    RunExplained(s, steps);
    PicksAreLinked(s.lanes, picks, c);
    OnlyIsPart(picks, c);
    JustifiedEach(s.lanes, picks);
    var only := Only(picks, c);
    forall k | 0 <= k < |only|
      ensures FreeScan(only[k])
    {
      assert only[k] in only;
    }
  }
}
