/** The scheduler against the server rules it is paced for, on one shared clock:
    the chat interval of `chat.rs` and the write quota of `write_quota.rs`. */
module ServerFloors {
  import opened Option
  import opened Scheduler
  import opened SchedulerDrain
  import opened SchedulerRuns
  import opened WriteQuota

  const MIN_POST_INTERVAL_MS := 2_000
  const MIB := 1_048_576

  /** `is_rate_limited(last_created_at, now)`. */
  predicate IsRateLimited(last: Option<int>, now: int) {
    last.Some? && now - last.value < MIN_POST_INTERVAL_MS
  }

  predicate By(p: Pick, c: Category, identity: nat) {
    p.category == c && p.event.identity == identity
  }

  /** The author's newest stored post after the server handled a history of picks:
      a refused post is not stored. */
  function LastPost(picks: seq<Pick>, identity: nat): (last: Option<int>) {
    if picks == [] then None
    else
      var before, p := LastPost(picks[..|picks| - 1], identity), picks[|picks| - 1];
      if By(p, Chat, identity) && !IsRateLimited(before, p.now) then Some(p.now) else before
  }

  lemma {:induction false} LastPostIsAPick(picks: seq<Pick>, identity: nat)
    ensures LastPost(picks, identity).Some? ==>
              exists a :: 0 <= a < |picks| && By(picks[a], Chat, identity) && picks[a].now == LastPost(picks, identity).value
  {
    if picks != [] {
      var init := picks[..|picks| - 1];
      LastPostIsAPick(init, identity);
      if LastPost(init, identity).Some? {
        var a :| 0 <= a < |init| && By(init[a], Chat, identity) && init[a].now == LastPost(init, identity).value;
        assert picks[a] == init[a];
      }
    }
  }

  /** In every run, whatever the clock reads, the server never refuses a planned chat. */
  lemma ChatNeverRefused(s: State, steps: seq<Step>, identity: nat, b: nat)
    requires b < |History(s, steps)| && By(History(s, steps)[b], Chat, identity)
    ensures !IsRateLimited(LastPost(History(s, steps)[..b], identity), History(s, steps)[b].now)
  {
    hide History, LastPost;
    var picks := History(s, steps);
    LastPostIsAPick(picks[..b], identity);
    if LastPost(picks[..b], identity).Some? {
      var a :| 0 <= a < b && By(picks[..b][a], Chat, identity) && picks[..b][a].now == LastPost(picks[..b], identity).value;
      FloorSafety(s, steps, a, b);
    }
  }

  // ------------------------------------------------------------------- the write quota

  /** The pushes of one identity, in order. */
  function PushesOf(picks: seq<Pick>, identity: nat): (pushes: seq<Pick>) {
    if picks == [] then []
    else
      var p := picks[|picks| - 1];
      PushesOf(picks[..|picks| - 1], identity) + (if By(p, Push, identity) then [p] else [])
  }

  /** What a push costs its identity when it is picked: an object of `size(p)` bytes and a
      ref update, and both once more, with an object of `again(p)` bytes, when the first
      update meets a conflict. */
  function PushWrites(p: Pick, size: Pick -> nat, again: Pick -> Option<nat>): (writes: seq<Write>) {
    [Write(p.now, size(p)), Write(p.now, 0)] +
    (if again(p).Some? then [Write(p.now, again(p).value), Write(p.now, 0)] else [])
  }

  function PushBytes(p: Pick, size: Pick -> nat, again: Pick -> Option<nat>): (bytes: nat) {
    size(p) + (if again(p).Some? then again(p).value else 0)
  }

  function Writes(pushes: seq<Pick>, size: Pick -> nat, again: Pick -> Option<nat>): (writes: seq<Write>) {
    if pushes == [] then []
    else Writes(pushes[..|pushes| - 1], size, again) + PushWrites(pushes[|pushes| - 1], size, again)
  }

  /** How many of the pushes in the window from `from` on met a conflict. */
  function Retries(pushes: seq<Pick>, again: Pick -> Option<nat>, from: int): (n: nat) {
    if pushes == [] then 0
    else
      var p := pushes[|pushes| - 1];
      Retries(pushes[..|pushes| - 1], again, from) + (if again(p).Some? && from <= p.now < from + WINDOW_MS then 1 else 0)
  }

  /** Every write was accepted, and no window ever held more than `ops` ops and 120 MiB. */
  predicate NeverExhausted(writes: seq<Write>, ops: nat) {
    writes == [] ||
    (LastAccepted(writes) && NeverExhausted(writes[..|writes| - 1], ops) &&
     Row(writes).value.ops <= ops && Row(writes).value.bytes <= 120 * MIB)
  }

  /** Each push comes at least the floor after every earlier one. */
  predicate Apart(pushes: seq<Pick>) {
    forall a, b | 0 <= a < b < |pushes| :: pushes[b].now - pushes[a].now >= Floor(Push)
  }

  lemma {:induction false} PushesAreApart(picks: seq<Pick>, identity: nat)
    requires Spaced(picks)
    ensures Apart(PushesOf(picks, identity))
    ensures forall p | p in PushesOf(picks, identity) :: By(p, Push, identity) && p in picks
  {
    hide SameSpender;
    if picks != [] {
      var init, p := picks[..|picks| - 1], picks[|picks| - 1];
      PushesAreApart(init, identity);
      assert picks == init + [p];
      forall q | q in PushesOf(init, identity) && By(p, Push, identity)
        ensures p.now - q.now >= Floor(Push)
      {
        var a :| 0 <= a < |init| && init[a] == q;
        LastIsSpaced(picks, a, Push, identity);
      }
    }
  }

  lemma LastIsSpaced(picks: seq<Pick>, a: nat, c: Category, identity: nat)
    requires Spaced(picks) && a < |picks| - 1
    requires By(picks[a], c, identity) && By(picks[|picks| - 1], c, identity)
    ensures picks[|picks| - 1].now - picks[a].now >= Floor(c)
  {
    assert SameSpender(picks[a], picks[|picks| - 1]);
  }

  /** The window a write at `now` falls in, before that write. */
  function WindowAt(row: Option<QuotaState>, now: int): (q: QuotaState)
    ensures now - q.windowStart < WINDOW_MS
  {
    if row.Some? && now - row.value.windowStart < WINDOW_MS then row.value else QuotaState(now, 0, 0)
  }

  lemma OneMoreWrite(writes: seq<Write>, w: Write, ops: nat)
    requires NeverExhausted(writes, ops) && ops <= MAX_OPS
    requires WindowAt(Row(writes), w.now).ops + 1 <= ops && WindowAt(Row(writes), w.now).bytes + w.bytes <= 120 * MIB
    ensures NeverExhausted(writes + [w], ops)
    ensures var q := WindowAt(Row(writes), w.now);
            Row(writes + [w]) == Some(QuotaState(q.windowStart, q.ops + 1, q.bytes + w.bytes))
  {
    hide EvaluateQuota, WindowAt, Row;
    var all := writes + [w];
    assert all[..|all| - 1] == writes && all[|all| - 1] == w;
    Room(Row(writes), w);
    AppendWrite(writes, w, 0, 0);
  }

  /** A write that its window has room for is accepted. */
  lemma Room(row: Option<QuotaState>, w: Write)
    requires WindowAt(row, w.now).ops < MAX_OPS && WindowAt(row, w.now).bytes + w.bytes <= MAX_BYTES
    ensures var q := WindowAt(row, w.now);
            EvaluateQuota(row, w.now, w.bytes) == Allowed(QuotaState(q.windowStart, q.ops + 1, q.bytes + w.bytes))
  {
  }

  lemma PutAndUpdate(writes: seq<Write>, now: int, bytes: nat, ops: nat)
    requires NeverExhausted(writes, ops) && ops <= MAX_OPS
    requires WindowAt(Row(writes), now).ops + 2 <= ops && WindowAt(Row(writes), now).bytes + bytes <= 120 * MIB
    ensures var q, all := WindowAt(Row(writes), now), writes + [Write(now, bytes), Write(now, 0)];
            NeverExhausted(all, ops) && Row(all) == Some(QuotaState(q.windowStart, q.ops + 2, q.bytes + bytes))
  {
    hide Row, NeverExhausted;
    OneMoreWrite(writes, Write(now, bytes), ops);
    OneMoreWrite(writes + [Write(now, bytes)], Write(now, 0), ops);
    assert writes + [Write(now, bytes), Write(now, 0)] == writes + [Write(now, bytes)] + [Write(now, 0)];
  }

  /** A push that the window has room for is accepted in full. */
  lemma PushAccepted(writes: seq<Write>, p: Pick, size: Pick -> nat, again: Pick -> Option<nat>, ops: nat)
    requires NeverExhausted(writes, ops) && ops <= MAX_OPS
    requires WindowAt(Row(writes), p.now).ops + (if again(p).Some? then 4 else 2) <= ops
    requires WindowAt(Row(writes), p.now).bytes + PushBytes(p, size, again) <= 120 * MIB
    ensures var q, all := WindowAt(Row(writes), p.now), writes + PushWrites(p, size, again);
            && NeverExhausted(all, ops)
            && Row(all) == Some(QuotaState(q.windowStart, q.ops + (if again(p).Some? then 4 else 2),
                                           q.bytes + PushBytes(p, size, again)))
  {
    hide Row, NeverExhausted;
    var first := [Write(p.now, size(p)), Write(p.now, 0)];
    PutAndUpdate(writes, p.now, size(p), ops);
    if again(p).Some? {
      PutAndUpdate(writes + first, p.now, again(p).value, ops);
      assert writes + PushWrites(p, size, again) == writes + first + [Write(p.now, again(p).value), Write(p.now, 0)];
    } else {
      assert PushWrites(p, size, again) == first;
    }
  }

  /** The row while pushes come at least 30 s apart, `r` of them with a retry: two ops per
      push and two per retry, and no more pushes than fit since the window started. */
  predicate PacedRow(q: QuotaState, r: nat, last: int) {
    && (q.ops - 2 * r) % 2 == 0
    && 15_000 * (q.ops - 2 * r) <= last - q.windowStart + 30_000
    && 2 * q.bytes <= (q.ops - 2 * r) * MIB
  }

  /** The same after one more push, and the room that is left for it. */
  lemma OneMorePush(q: QuotaState, r: nat, last: int, now: int, bytes: nat, retried: bool)
    requires PacedRow(q, r, last) && now - last >= Floor(Push) && now - q.windowStart < WINDOW_MS && bytes <= MIB
    ensures q.ops - 2 * r + 2 <= 240 && q.bytes + bytes <= 120 * MIB
    ensures PacedRow(QuotaState(q.windowStart, q.ops + (if retried then 4 else 2), q.bytes + bytes),
                     r + (if retried then 1 else 0), now)
  {
  }

  lemma {:induction false} EarlierDoNotCount(pushes: seq<Pick>, again: Pick -> Option<nat>, from: int)
    requires forall p | p in pushes :: p.now < from
    ensures Retries(pushes, again, from) == 0
  {
    if pushes != [] {
      EarlierDoNotCount(pushes[..|pushes| - 1], again, from);
    }
  }

  ghost predicate PacedRun(pushes: seq<Pick>, size: Pick -> nat, again: Pick -> Option<nat>, ops: nat) {
    var row := Row(Writes(pushes, size, again));
    && NeverExhausted(Writes(pushes, size, again), ops)
    && (row.Some? <==> pushes != [])
    && (row.Some? ==> row.value.windowStart <= pushes[|pushes| - 1].now)
    && (row.Some? ==> PacedRow(row.value, Retries(pushes, again, row.value.windowStart), pushes[|pushes| - 1].now))
  }

  lemma {:induction false} PushesPaced(pushes: seq<Pick>, size: Pick -> nat, again: Pick -> Option<nat>, retries: nat)
    requires Apart(pushes) && forall p | p in pushes :: PushBytes(p, size, again) <= MIB
    requires retries <= 30 && forall from :: Retries(pushes, again, from) <= retries
    ensures PacedRun(pushes, size, again, 240 + 2 * retries)
  {
    hide PushBytes, Retries, PacedRun;
    if pushes == [] {
      NoWrites(size, again, 240 + 2 * retries);
    } else {
      var init, p := pushes[..|pushes| - 1], pushes[|pushes| - 1];
      assert pushes == init + [p];
      FewerRetries(init, p, again, retries);
      PushesPaced(init, size, again, retries);
      OnePushPaced(init, p, size, again, retries);
    }
  }

  /** One more push, 30 s after the last, has room: it falls in the window of the last or
      opens one. */
  lemma RoomForPush(init: seq<Pick>, p: Pick, size: Pick -> nat, again: Pick -> Option<nat>, ops: nat)
    requires PacedRun(init, size, again, ops) && Apart(init + [p]) && PushBytes(p, size, again) <= MIB
    ensures var q, bytes, retried :=
              WindowAt(Row(Writes(init, size, again)), p.now), PushBytes(p, size, again), again(p).Some?;
            var r := Retries(init, again, q.windowStart);
            && q.windowStart <= p.now && q.ops - 2 * r + 2 <= 240 && q.bytes + bytes <= 120 * MIB
            && PacedRow(QuotaState(q.windowStart, q.ops + (if retried then 4 else 2), q.bytes + bytes),
                        r + (if retried then 1 else 0), p.now)
  {
    hide Row, Writes, NeverExhausted, PacedRow, PushBytes;
    var row := Row(Writes(init, size, again));
    var q := WindowAt(row, p.now);
    assert init + [p] != [] && (init + [p])[|init|] == p;
    assert forall k | 0 <= k < |init| :: (init + [p])[k] == init[k] && p.now - init[k].now >= Floor(Push);
    if row.Some? && q == row.value {
      OneMorePush(q, Retries(init, again, q.windowStart), init[|init| - 1].now, p.now, PushBytes(p, size, again), again(p).Some?);
    } else {
      EarlierDoNotCount(init, again, p.now);
      NewWindowPaced(p.now);
      OneMorePush(q, 0, p.now - Floor(Push), p.now, PushBytes(p, size, again), again(p).Some?);
    }
  }

  lemma AppendPush(init: seq<Pick>, p: Pick, size: Pick -> nat, again: Pick -> Option<nat>)
    ensures Writes(init + [p], size, again) == Writes(init, size, again) + PushWrites(p, size, again)
    ensures forall from | from <= p.now < from + WINDOW_MS ::
              Retries(init + [p], again, from) == Retries(init, again, from) + (if again(p).Some? then 1 else 0)
  {
    assert (init + [p])[..|init|] == init;
  }

  lemma OnePushPaced(init: seq<Pick>, p: Pick, size: Pick -> nat, again: Pick -> Option<nat>, retries: nat)
    requires PacedRun(init, size, again, 240 + 2 * retries) && Apart(init + [p]) && PushBytes(p, size, again) <= MIB
    requires retries <= 30 && forall from :: Retries(init + [p], again, from) <= retries
    ensures PacedRun(init + [p], size, again, 240 + 2 * retries)
  {
    hide Row, Writes, Retries, NeverExhausted, PacedRow, PushBytes, PushWrites, WindowAt, Apart;
    var writes := Writes(init, size, again);
    var q := WindowAt(Row(writes), p.now);
    RoomForPush(init, p, size, again, 240 + 2 * retries);
    AppendPush(init, p, size, again);
    assert Retries(init + [p], again, q.windowStart) <= retries;
    PushAccepted(writes, p, size, again, 240 + 2 * retries);
  }

  lemma NewWindowPaced(now: int)
    ensures PacedRow(QuotaState(now, 0, 0), 0, now - Floor(Push))
  {
  }

  lemma NoWrites(size: Pick -> nat, again: Pick -> Option<nat>, ops: nat)
    ensures NeverExhausted([], ops) && Row([]).None? && Writes([], size, again) == [] && PacedRun([], size, again, ops)
  {
  }

  lemma FewerRetries(init: seq<Pick>, p: Pick, again: Pick -> Option<nat>, retries: nat)
    requires forall from :: Retries(init + [p], again, from) <= retries
    ensures forall from :: Retries(init, again, from) <= retries
  {
    assert (init + [p])[..|init|] == init;
    assert forall from :: Retries(init, again, from) <= Retries(init + [p], again, from) <= retries;
  }

  /** In every run, whatever the clock reads: when a push and its retry bring at most
      1 MiB, and at most `retries` of the pushes in any window are retried, up to 30, the
      server never refuses a synthetic identity's write. */
  lemma PushNeverExhausted(s: State, steps: seq<Step>, identity: nat, size: Pick -> nat, again: Pick -> Option<nat>,
                           retries: nat)
    requires forall p | p in PushesOf(History(s, steps), identity) :: PushBytes(p, size, again) <= MIB
    requires retries <= 30 && forall from :: Retries(PushesOf(History(s, steps), identity), again, from) <= retries
    ensures NeverExhausted(Writes(PushesOf(History(s, steps), identity), size, again), 240 + 2 * retries)
  {
    hide History, PushesOf, Writes, NeverExhausted, Retries, PushBytes;
    RunExplained(s, steps);
    JustifiedPicksAreSpaced(s.lanes, History(s, steps));
    PushesAreApart(History(s, steps), identity);
    PushesPaced(PushesOf(History(s, steps), identity), size, again, retries);
  }

  // ---------------------------------------------------------- one retry more is too many

  /** One ambient push and the ticks until the next, all at one time. */
  function Cycle(now: int): (steps: seq<Step>)
    ensures |steps| == PUSH_EVERY_N_TICKS && forall i | 0 <= i < |steps| :: steps[i] == Tick(now, [])
  {
    seq(PUSH_EVERY_N_TICKS, _ => Tick(now, []))
  }

  /** The `m`-th push when the whole pool pushes every half minute. */
  function TimeOf(m: nat): (now: nat) {
    Floor(Push) * (m / POOL_SIZE)
  }

  function Rounds(m: nat): (steps: seq<Step>) {
    if m == 0 then [] else Rounds(m - 1) + Cycle(TimeOf(m - 1))
  }

  /** What a scan for a push does to the lane and to the pushes. */
  predicate Scanned(lane: Lane, i: Option<nat>, now: int, next: Lane, pushes: seq<Pick>) {
    match i
    case None => next == lane && pushes == []
    case Some(k) =>
      k < |lane.last| && next == Spend(lane, k, now) && |pushes| == 1 && By(pushes[0], Push, k) && pushes[0].now == now
  }

  lemma AmbientElsewhere(w: Work, c: Category, fires: bool, kind: EventKind, now: int)
    requires c != Push
    ensures var next := Ambient(w, c, fires, kind, None, now);
            next.lanes.push == w.lanes.push && next.remaining == w.remaining && Only(next.picks, Push) == Only(w.picks, Push)
  {
    hide Select, Only, Spend;
    var next := Ambient(w, c, fires, kind, None, now);
    if next.picks != w.picks {
      OnlyOneMore(w.picks, next.picks[|w.picks|], Push);
    }
  }

  lemma AmbientPush(w: Work, fires: bool, kind: EventKind, upstream: Option<ForkUpstream>, now: int)
    requires Only(w.picks, Push) == []
    ensures var next := Ambient(w, Push, fires, kind, upstream, now);
            && next.remaining == w.remaining
            && Scanned(w.lanes.push, if fires then Select(w.lanes.push, Floor(Push), now, []) else None, now,
                       next.lanes.push, Only(next.picks, Push))
  {
    hide Skips, Ring, Only, Spend;
    var next := Ambient(w, Push, fires, kind, upstream, now);
    if next.picks != w.picks {
      OnlyOneMore(w.picks, next.picks[|w.picks|], Push);
    }
  }

  /** What a tick without responses does to the pushes. */
  lemma PushOfTick(s: State, now: int)
    requires s.queue == []
    ensures Ticked(s, now, []).queue == [] && Ticked(s, now, []).tick == s.tick + 1
    ensures Scanned(s.lanes.push,
                    if s.tick % PUSH_EVERY_N_TICKS == 0 then Select(s.lanes.push, Floor(Push), now, []) else None, now,
                    Ticked(s, now, []).lanes.push, Only(Planned(s, now, []).picks, Push))
  {
    hide Select, Ambient, Scanned, PushUpstream, Only;
    var drained := Drained(s, now);
    var chats, pushes := s.tick % CHAT_EVERY_N_TICKS == 0, s.tick % PUSH_EVERY_N_TICKS == 0;
    AmbientElsewhere(drained, Chat, chats, ChatEvent, now);
    var chat := Ambient(drained, Chat, chats, ChatEvent, None, now);
    OnlyNothing(Push);
    AmbientPush(chat, pushes, PushKind(s.tick), PushUpstream(s.tick, []), now);
    var push := Ambient(chat, Push, pushes, PushKind(s.tick), PushUpstream(s.tick, []), now);
    AmbientElsewhere(push, Reaction, s.tick % REACTION_EVERY_N_TICKS == 0, ReactionEvent, now);
  }

  lemma OnlyNothing(c: Category)
    ensures Only([], c) == []
  {
  }

  lemma {:induction false} OnlyConcat(a: seq<Pick>, b: seq<Pick>, c: Category)
    ensures Only(a + b, c) == Only(a, c) + Only(b, c)
  {
    hide Only;
    if b == [] {
      assert a + b == a;
      OnlyNothing(c);
    } else {
      var init, p := b[..|b| - 1], b[|b| - 1];
      OnlyConcat(a, init, c);
      OnlyOneMore(init, p, c);
      OnlyOneMore(a + init, p, c);
      assert b == init + [p] && a + b == a + init + [p];
    }
  }

  /** The pushes of a run and the lane they leave. */
  lemma OneMoreTick(s: State, steps: seq<Step>, now: int)
    ensures After(s, steps + [Tick(now, [])]) == Ticked(After(s, steps), now, [])
    ensures Only(History(s, steps + [Tick(now, [])]), Push)
         == Only(History(s, steps), Push) + Only(Planned(After(s, steps), now, []).picks, Push)
  {
    hide Ticked, Planned, Only;
    var all := steps + [Tick(now, [])];
    assert all[..|all| - 1] == steps;
    OnlyConcat(History(s, steps), Planned(After(s, steps), now, []).picks, Push);
  }

  /** `n` ticks of a cycle: the first one scans for a push, the others do nothing to the pushes. */
  lemma {:induction false} CycleScans(s: State, steps: seq<Step>, now: int, n: nat)
    requires After(s, steps).queue == [] && After(s, steps).tick % PUSH_EVERY_N_TICKS == 0 && 0 < n <= PUSH_EVERY_N_TICKS
    ensures var before, all := After(s, steps), steps + Cycle(now)[..n];
            var more := Only(History(s, all), Push);
            && After(s, all).queue == [] && After(s, all).tick == before.tick + n
            && Only(History(s, steps), Push) <= more
            && Scanned(before.lanes.push, Select(before.lanes.push, Floor(Push), now, []), now,
                       After(s, all).lanes.push, more[|Only(History(s, steps), Push)|..])
  {
    hide Select, After, History, Only, Ticked, Planned;
    var most := steps + Cycle(now)[..n - 1];
    assert steps + Cycle(now)[..n] == most + [Tick(now, [])];
    OneMoreTick(s, most, now);
    if n == 1 {
      assert most == steps;
      PushOfTick(After(s, steps), now);
    } else {
      CycleScans(s, steps, now, n - 1);
      assert After(s, most).tick % PUSH_EVERY_N_TICKS == n - 1;
      PushOfTick(After(s, most), now);
      assert Only(Planned(After(s, most), now, []).picks, Push) == [];
    }
  }

  /** Round robin: after `m` pushes it is identity `m % 64`'s turn, and everyone's last push
      was in this round or the one before. */
  predicate InTurn(s: State, m: nat) {
    var lane := s.lanes.push;
    && s.queue == [] && s.tick == PUSH_EVERY_N_TICKS * m
    && |lane.last| == POOL_SIZE && lane.cursor == m % POOL_SIZE
    && forall i | 0 <= i < POOL_SIZE && lane.last[i].Some? ::
         lane.last[i].value <= Floor(Push) * (if i < m % POOL_SIZE then m / POOL_SIZE else m / POOL_SIZE - 1)
  }

  lemma NextInTurn(lane: Lane, m: nat)
    requires |lane.last| == POOL_SIZE && lane.cursor == m % POOL_SIZE
    requires lane.last[m % POOL_SIZE].Some? ==> lane.last[m % POOL_SIZE].value <= Floor(Push) * (m / POOL_SIZE - 1)
    ensures Select(lane, Floor(Push), TimeOf(m), []) == Some(m % POOL_SIZE)
  {
    assert Ring(lane.cursor, 0, POOL_SIZE) == m % POOL_SIZE;
    assert Admits(lane, Floor(Push), TimeOf(m), [], m % POOL_SIZE);
    assert Skips(lane, Floor(Push), TimeOf(m), [], 0) == 0;
  }

  lemma OneMoreTurn(s: State, next: State, m: nat)
    requires InTurn(s, m) && next.queue == [] && next.tick == s.tick + PUSH_EVERY_N_TICKS
    requires next.lanes.push == Spend(s.lanes.push, m % POOL_SIZE, TimeOf(m))
    ensures InTurn(next, m + 1)
  {
    if m % POOL_SIZE == POOL_SIZE - 1 {
      assert (m + 1) / POOL_SIZE == m / POOL_SIZE + 1 && (m + 1) % POOL_SIZE == 0;
    } else {
      assert (m + 1) / POOL_SIZE == m / POOL_SIZE && (m + 1) % POOL_SIZE == m % POOL_SIZE + 1;
    }
  }

  /** The `k`-th push comes from identity `k % 64`, half a minute after its last. */
  predicate EveryHalfMinute(pushes: seq<Pick>) {
    forall k | 0 <= k < |pushes| :: By(pushes[k], Push, k % POOL_SIZE) && pushes[k].now == TimeOf(k)
  }

  lemma {:induction false} RoundsGoRound(m: nat)
    ensures InTurn(After(Initial(POOL_SIZE), Rounds(m)), m)
    ensures var pushes := Only(History(Initial(POOL_SIZE), Rounds(m)), Push);
            |pushes| == m && EveryHalfMinute(pushes)
  {
    hide After, History, Only, Initial, InTurn, EveryHalfMinute, Cycle;
    if m == 0 {
      NobodyYet();
    } else {
      RoundsGoRound(m - 1);
      OneMoreRound(Initial(POOL_SIZE), Rounds(m - 1), m - 1);
    }
  }

  lemma NobodyYet()
    ensures InTurn(After(Initial(POOL_SIZE), []), 0) && Only(History(Initial(POOL_SIZE), []), Push) == [] && EveryHalfMinute([])
  {
  }

  lemma OneMoreRound(s: State, steps: seq<Step>, m: nat)
    requires InTurn(After(s, steps), m) && |Only(History(s, steps), Push)| == m && EveryHalfMinute(Only(History(s, steps), Push))
    ensures InTurn(After(s, steps + Cycle(TimeOf(m))), m + 1)
    ensures var pushes := Only(History(s, steps + Cycle(TimeOf(m))), Push);
            |pushes| == m + 1 && EveryHalfMinute(pushes)
  {
    hide After, History, Only, Select, TimeOf, Spend;
    var before, all := After(s, steps), steps + Cycle(TimeOf(m));
    assert Cycle(TimeOf(m))[..PUSH_EVERY_N_TICKS] == Cycle(TimeOf(m));
    CycleScans(s, steps, TimeOf(m), PUSH_EVERY_N_TICKS);
    NextInTurn(before.lanes.push, m);
    OneMoreTurn(before, After(s, all), m);
    var pushes, more := Only(History(s, steps), Push), Only(History(s, all), Push);
    assert more == pushes + more[m..];
  }

  lemma PushesOneMore(picks: seq<Pick>, p: Pick, identity: nat)
    ensures PushesOf(picks + [p], identity) == PushesOf(picks, identity) + (if By(p, Push, identity) then [p] else [])
  {
    assert (picks + [p])[..|picks|] == picks;
  }

  lemma {:induction false} PushesOfOnly(picks: seq<Pick>, identity: nat)
    ensures PushesOf(Only(picks, Push), identity) == PushesOf(picks, identity)
  {
    if picks != [] {
      var init, p := picks[..|picks| - 1], picks[|picks| - 1];
      PushesOfOnly(init, identity);
      if p.category.Push? {
        PushesOneMore(Only(init, Push), p, identity);
        assert Only(picks, Push) == Only(init, Push) + [p];
      } else {
        assert Only(picks, Push) == Only(init, Push) && PushesOf(picks, identity) == PushesOf(init, identity);
      }
    }
  }

  /** The pushes of the first identity: one every half minute. */
  lemma {:induction false} FirstIdentity(pushes: seq<Pick>)
    requires EveryHalfMinute(pushes)
    ensures |PushesOf(pushes, 0)| == (|pushes| + POOL_SIZE - 1) / POOL_SIZE
    ensures forall k | 0 <= k < |PushesOf(pushes, 0)| :: PushesOf(pushes, 0)[k].now == Floor(Push) * k
  {
    if pushes != [] {
      var m := |pushes| - 1;
      FirstIdentity(pushes[..m]);
      assert By(pushes[m], Push, m % POOL_SIZE) && pushes[m].now == TimeOf(m);
      if m % POOL_SIZE == 0 {
        assert (m + POOL_SIZE - 1) / POOL_SIZE == m / POOL_SIZE && (m + POOL_SIZE) / POOL_SIZE == m / POOL_SIZE + 1;
      } else {
        assert (m + POOL_SIZE) / POOL_SIZE == (m + POOL_SIZE - 1) / POOL_SIZE;
      }
    }
  }

  function NoBytes(p: Pick): (bytes: nat) {
    0
  }

  /** A conflict on each of the first 31 pushes. */
  function Conflicts(p: Pick): (again: Option<nat>) {
    if p.now < 31 * Floor(Push) then Some(0) else None
  }

  function Least(a: nat, b: nat): (c: nat) {
    if a < b then a else b
  }

  lemma {:induction false} FirstRetries(pushes: seq<Pick>, from: int)
    requires forall k | 0 <= k < |pushes| :: pushes[k].now == Floor(Push) * k
    ensures Retries(pushes, Conflicts, from) <= Least(|pushes|, 31)
  {
    if pushes != [] {
      FirstRetries(pushes[..|pushes| - 1], from);
    }
  }

  /** All goes well until the 300th write. */
  lemma {:induction false} FirstWrites(pushes: seq<Pick>)
    requires 0 < |pushes| < 120 && forall k | 0 <= k < |pushes| :: pushes[k].now == Floor(Push) * k
    ensures var writes, n := Writes(pushes, NoBytes, Conflicts), 2 * |pushes| + 2 * Least(|pushes|, 31);
            NeverExhausted(writes, MAX_OPS) && |writes| == n && Row(writes) == Some(QuotaState(0, n, 0))
  {
    hide Row, NeverExhausted;
    var init, p := pushes[..|pushes| - 1], pushes[|pushes| - 1];
    if init == [] {
      NoWrites(NoBytes, Conflicts, MAX_OPS);
    } else {
      FirstWrites(init);
    }
    PushAccepted(Writes(init, NoBytes, Conflicts), p, NoBytes, Conflicts, MAX_OPS);
  }

  /** And 30 is the most: the pool of 64 pushing every half minute, with 31 retries in an
      hour, has the first identity's 301st write refused. */
  lemma OneRetryTooMany() returns (steps: seq<Step>)
    ensures var pushes := PushesOf(History(Initial(POOL_SIZE), steps), 0);
            var writes := Writes(pushes, NoBytes, Conflicts);
            && (forall from :: Retries(pushes, Conflicts, from) <= 31)
            && |writes| > MAX_OPS && NeverExhausted(writes[..MAX_OPS], MAX_OPS) && !LastAccepted(writes[..MAX_OPS + 1])
  {
    hide History, Only, PushesOf, EveryHalfMinute, Retries, NeverExhausted;
    steps := Rounds(119 * POOL_SIZE + 1);
    var picks := History(Initial(POOL_SIZE), steps);
    RoundsGoRound(119 * POOL_SIZE + 1);
    PushesOfOnly(picks, 0);
    FirstIdentity(Only(picks, Push));
    var pushes := PushesOf(picks, 0);
    forall from
      ensures Retries(pushes, Conflicts, from) <= 31
    {
      FirstRetries(pushes, from);
    }
    LastIsRefused(pushes);
  }

  lemma LastIsRefused(pushes: seq<Pick>)
    requires |pushes| == 120 && forall k | 0 <= k < |pushes| :: pushes[k].now == Floor(Push) * k
    ensures var writes := Writes(pushes, NoBytes, Conflicts);
            |writes| > MAX_OPS && NeverExhausted(writes[..MAX_OPS], MAX_OPS) && !LastAccepted(writes[..MAX_OPS + 1])
  {
    hide NeverExhausted, Row;
    var init, p := pushes[..119], pushes[119];
    FirstWrites(init);
    var most, writes := Writes(init, NoBytes, Conflicts), Writes(pushes, NoBytes, Conflicts);
    assert writes == most + PushWrites(p, NoBytes, Conflicts);
    assert writes[..MAX_OPS] == most;
    assert writes[..MAX_OPS + 1] == most + [Write(p.now, 0)];
    assert writes[..MAX_OPS + 1][..MAX_OPS] == most;
  }
}
