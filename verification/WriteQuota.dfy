/** The per-author write budget of `apps/repo-worker/src/write_quota.rs`: a fixed
    window that resets in full once it elapses. */
module WriteQuota {
  import opened Option

  const WINDOW_MS := 3_600_000
  const MAX_OPS := 300
  const MAX_BYTES := 134_217_728
  const MAX_PUT_BYTES := 8_388_608
  const U64_MAX := 0xFFFF_FFFF_FFFF_FFFF

  datatype QuotaState = QuotaState(windowStart: int, ops: nat, bytes: nat)

  datatype Decision = Allowed(state: QuotaState) | Exhausted(reason: string)

  function SaturatingAdd(a: nat, b: nat): (sum: nat)
    ensures sum <= U64_MAX
  {
    if a + b <= U64_MAX then a + b else U64_MAX
  }

  /** `evaluate_quota(current, now, incoming_bytes)`. */
  function EvaluateQuota(current: Option<QuotaState>, now: int, incoming: nat): (d: Decision) {
    var base :=
      if current.Some? && now - current.value.windowStart < WINDOW_MS then current.value
      else QuotaState(now, 0, 0);
    var ops := base.ops + 1;
    var bytes := SaturatingAdd(base.bytes, incoming);
    if ops > MAX_OPS then Exhausted("write op quota exceeded for this window; try again later")
    else if bytes > MAX_BYTES then Exhausted("write byte quota exceeded for this window; try again later")
    else Allowed(QuotaState(base.windowStart, ops, bytes))
  }

  /** What is decided of a write that opens a window: the first of its author, or one an
      hour or more after the last window opened. */
  lemma NewWindowIs(current: Option<QuotaState>, now: int, incoming: nat)
    requires current.Some? ==> now >= current.value.windowStart + 3_600_000
    ensures EvaluateQuota(current, now, incoming) ==
            if incoming > 134_217_728 then Exhausted("write byte quota exceeded for this window; try again later")
            else Allowed(QuotaState(now, 1, incoming))
  {
  }

  /** What is decided of a write in a window that is still open: the ops are looked at
      before the bytes. */
  lemma OpenWindowIs(q: QuotaState, now: int, incoming: nat)
    requires now < q.windowStart + 3_600_000
    ensures EvaluateQuota(Some(q), now, incoming) ==
            if q.ops >= 300 then Exhausted("write op quota exceeded for this window; try again later")
            else if q.bytes + incoming > 134_217_728 then
              Exhausted("write byte quota exceeded for this window; try again later")
            else Allowed(QuotaState(q.windowStart, q.ops + 1, q.bytes + incoming))
  {
  }

  /** One write of one author, and the row it leaves behind. */
  datatype Write = Write(now: int, bytes: nat)

  function Charge(row: Option<QuotaState>, w: Write): (next: Option<QuotaState>) {
    match EvaluateQuota(row, w.now, w.bytes)
    case Allowed(state) => Some(state)
    case Exhausted(_) => row
  }

  /** The author's row after a run of writes from a fresh key. */
  function Row(writes: seq<Write>): (row: Option<QuotaState>) {
    if writes == [] then None else Charge(Row(writes[..|writes| - 1]), writes[|writes| - 1])
  }

  predicate LastAccepted(writes: seq<Write>)
    requires writes != []
  {
    var w := writes[|writes| - 1];
    EvaluateQuota(Row(writes[..|writes| - 1]), w.now, w.bytes).Allowed?
  }

  /** Accepted writes with `from <= now < to`. */
  function OpsIn(writes: seq<Write>, from: int, to: int): (ops: nat) {
    if writes == [] then 0
    else
      OpsIn(writes[..|writes| - 1], from, to) +
      (if LastAccepted(writes) && from <= writes[|writes| - 1].now < to then 1 else 0)
  }

  /** Their bytes. */
  function BytesIn(writes: seq<Write>, from: int, to: int): (bytes: nat) {
    if writes == [] then 0
    else
      BytesIn(writes[..|writes| - 1], from, to) +
      (if LastAccepted(writes) && from <= writes[|writes| - 1].now < to then writes[|writes| - 1].bytes else 0)
  }

  predicate Monotone(writes: seq<Write>) {
    forall i, j | 0 <= i < j < |writes| :: writes[i].now <= writes[j].now
  }

  /** How many whole windows fit between `from` and the current window's start. */
  function Windows(from: int, start: int): (n: nat)
    requires from <= start
  {
    (start - from) / WINDOW_MS
  }

  /** The running bound: what the current window holds, plus a full budget for each
      earlier window since `from`, plus the tail of the window `from` fell in. */
  ghost predicate Bounded(row: Option<QuotaState>, from: int, ops: nat, bytes: nat) {
    match row
    case None => ops == 0 && bytes == 0
    case Some(q) =>
      && 1 <= q.ops <= MAX_OPS && q.bytes <= MAX_BYTES
      && (q.windowStart < from ==> ops <= q.ops - 1 && bytes <= q.bytes)
      && (q.windowStart >= from ==>
            && ops <= q.ops + MAX_OPS - 1 + MAX_OPS * Windows(from, q.windowStart)
            && bytes <= q.bytes + MAX_BYTES + MAX_BYTES * Windows(from, q.windowStart))
  }

  /** The row never holds more than the budget, whatever the clock does. */
  lemma {:induction false} RowWithinBudget(writes: seq<Write>)
    ensures Row(writes).Some? ==> 1 <= Row(writes).value.ops <= MAX_OPS && Row(writes).value.bytes <= MAX_BYTES
  {
    hide EvaluateQuota;
    if writes != [] {
      RowWithinBudget(writes[..|writes| - 1]);
      ChargeWithinBudget(Row(writes[..|writes| - 1]), writes[|writes| - 1]);
    }
  }

  lemma ChargeWithinBudget(row: Option<QuotaState>, w: Write)
    ensures Charge(row, w) == row || (1 <= Charge(row, w).value.ops <= MAX_OPS && Charge(row, w).value.bytes <= MAX_BYTES)
    ensures Charge(row, w) == None || Charge(row, w).value.windowStart == w.now ||
            (row.Some? && Charge(row, w).value.windowStart == row.value.windowStart)
  {
  }

  /** A window starts at the time of some write, not after the last. */
  lemma {:induction false} WindowStartsAtAWrite(writes: seq<Write>)
    requires Monotone(writes)
    ensures Row(writes).Some? ==> exists i :: 0 <= i < |writes| && writes[i].now == Row(writes).value.windowStart
    ensures Row(writes).Some? ==> writes != [] && Row(writes).value.windowStart <= writes[|writes| - 1].now
  {
    hide EvaluateQuota, Charge;
    if writes != [] {
      var init, w := writes[..|writes| - 1], writes[|writes| - 1];
      WindowStartsAtAWrite(init);
      ChargeWithinBudget(Row(init), w);
      assert writes[|init|].now == w.now;
      if Row(init).Some? {
        var i :| 0 <= i < |init| && init[i].now == Row(init).value.windowStart;
        assert writes[i] == init[i];
      }
    }
  }

  lemma {:induction false} RunBounded(writes: seq<Write>, from: int, to: int)
    requires Monotone(writes) && forall i | 0 <= i < |writes| :: writes[i].now < to
    ensures Bounded(Row(writes), from, OpsIn(writes, from, to), BytesIn(writes, from, to))
  {
    hide Bounded, EvaluateQuota;
    if writes == [] {
      NothingBounded(from);
    } else {
      var init, w := writes[..|writes| - 1], writes[|writes| - 1];
      RunBounded(init, from, to);
      WindowStartsAtAWrite(init);
      if w.now < from {
        NothingYet(init, from, to);
      }
      ChargeBounded(Row(init), w, from, OpsIn(init, from, to), BytesIn(init, from, to));
    }
  }

  lemma NothingBounded(from: int)
    ensures Bounded(None, from, 0, 0)
  {
  }

  lemma {:induction false} NothingYet(writes: seq<Write>, from: int, to: int)
    requires forall i | 0 <= i < |writes| :: writes[i].now < from
    ensures OpsIn(writes, from, to) == 0 && BytesIn(writes, from, to) == 0
  {
    if writes != [] {
      NothingYet(writes[..|writes| - 1], from, to);
    }
  }

  lemma ChargeBounded(row: Option<QuotaState>, w: Write, from: int, ops: nat, bytes: nat)
    requires Bounded(row, from, ops, bytes)
    requires row.Some? ==> row.value.windowStart <= w.now
    requires w.now < from ==> ops == 0 && bytes == 0
    ensures var accepted := EvaluateQuota(row, w.now, w.bytes).Allowed? && from <= w.now;
            Bounded(Charge(row, w), from, ops + (if accepted then 1 else 0), bytes + (if accepted then w.bytes else 0))
  {
    if row.Some? && row.value.windowStart >= from && w.now - row.value.windowStart >= WINDOW_MS {
      assert Windows(from, w.now) >= Windows(from, row.value.windowStart) + 1;
    }
  }

  /** Writes at or after `to` do not count towards a span that ends there. */
  lemma {:induction false} LaterWritesDoNotCount(writes: seq<Write>, from: int, to: int, n: nat)
    requires n <= |writes| && forall i | n <= i < |writes| :: writes[i].now >= to
    ensures OpsIn(writes, from, to) == OpsIn(writes[..n], from, to)
    ensures BytesIn(writes, from, to) == BytesIn(writes[..n], from, to)
    decreases |writes|
  {
    if n < |writes| {
      var init := writes[..|writes| - 1];
      LaterWritesDoNotCount(init, from, to, n);
      assert init[..n] == writes[..n];
    } else {
      assert writes[..n] == writes;
    }
  }

  lemma {:induction false} CutAt(writes: seq<Write>, to: int) returns (n: nat)
    requires Monotone(writes)
    ensures n <= |writes|
    ensures forall i | 0 <= i < n :: writes[i].now < to
    ensures forall i | n <= i < |writes| :: writes[i].now >= to
  {
    n := 0;
    while n < |writes| && writes[n].now < to
      invariant n <= |writes|
      invariant forall i | 0 <= i < n :: writes[i].now < to
    {
      n := n + 1;
    }
  }

  /** With a nondecreasing clock, the accepted writes of one author in any half-open
      span of `k` window lengths total fewer than `k + 1` op budgets and at most
      `k + 1` byte budgets. */
  lemma SpanBound(writes: seq<Write>, from: int, k: nat)
    requires Monotone(writes)
    ensures OpsIn(writes, from, from + k * WINDOW_MS) < (k + 1) * MAX_OPS
    ensures BytesIn(writes, from, from + k * WINDOW_MS) <= (k + 1) * MAX_BYTES
  {
    hide Row, OpsIn, BytesIn;
    var to := from + k * WINDOW_MS;
    var n := CutAt(writes, to);
    var early := writes[..n];
    LaterWritesDoNotCount(writes, from, to, n);
    RunBounded(early, from, to);
    WindowStartsAtAWrite(early);
    var row := Row(early);
    if row.Some? && row.value.windowStart >= from {
      var i :| 0 <= i < |early| && early[i].now == row.value.windowStart;
      assert row.value.windowStart < to;
      assert Windows(from, row.value.windowStart) <= k - 1;
    }
  }

  // ------------------------------------------------------------------- the bound is met

  lemma AppendWrite(writes: seq<Write>, w: Write, from: int, to: int)
    ensures Row(writes + [w]) == Charge(Row(writes), w)
    ensures var counts := EvaluateQuota(Row(writes), w.now, w.bytes).Allowed? && from <= w.now < to;
            && OpsIn(writes + [w], from, to) == OpsIn(writes, from, to) + (if counts then 1 else 0)
            && BytesIn(writes + [w], from, to) == BytesIn(writes, from, to) + (if counts then w.bytes else 0)
  {
    assert (writes + [w])[..|writes|] == writes;
  }

  /** `bytes` in `n` writes at one time, none above what one `PutObject` may carry. */
  function Burst(now: int, bytes: nat, n: nat): (writes: seq<Write>)
    requires bytes <= n * MAX_PUT_BYTES
    ensures |writes| == n && forall i | 0 <= i < n :: writes[i].now == now && writes[i].bytes <= MAX_PUT_BYTES
  {
    if n == 0 then []
    else
      var put := if bytes < MAX_PUT_BYTES then bytes else MAX_PUT_BYTES;
      Burst(now, bytes - put, n - 1) + [Write(now, put)]
  }

  lemma PutFits(q: QuotaState, now: int, put: nat)
    requires put <= MAX_BYTES && (now - q.windowStart < WINDOW_MS ==> q.ops < MAX_OPS && q.bytes + put <= MAX_BYTES)
    ensures EvaluateQuota(Some(q), now, put) == Allowed(
              if now - q.windowStart < WINDOW_MS then QuotaState(q.windowStart, q.ops + 1, q.bytes + put)
              else QuotaState(now, 1, put))
  {
  }

  /** A burst that the window it falls in has room for is accepted in full. */
  lemma {:induction false} BurstFits(writes: seq<Write>, now: int, bytes: nat, n: nat, from: int, to: int)
    requires Row(writes).Some? && n > 0 && from <= now < to && bytes <= MAX_BYTES && bytes <= n * MAX_PUT_BYTES
    requires var q := Row(writes).value;
             if now - q.windowStart < WINDOW_MS then q.ops + n <= MAX_OPS && q.bytes + bytes <= MAX_BYTES else n <= MAX_OPS
    ensures var q := Row(writes).value;
            Row(writes + Burst(now, bytes, n)) == Some(
              if now - q.windowStart < WINDOW_MS then QuotaState(q.windowStart, q.ops + n, q.bytes + bytes)
              else QuotaState(now, n, bytes))
    ensures OpsIn(writes + Burst(now, bytes, n), from, to) == OpsIn(writes, from, to) + n
    ensures BytesIn(writes + Burst(now, bytes, n), from, to) == BytesIn(writes, from, to) + bytes
  {
    hide Row, OpsIn, BytesIn, EvaluateQuota;
    var put := if bytes < MAX_PUT_BYTES then bytes else MAX_PUT_BYTES;
    var most := Burst(now, bytes - put, n - 1);
    if n == 1 {
      assert writes + most == writes;
    } else {
      BurstFits(writes, now, bytes - put, n - 1, from, to);
    }
    PutFits(Row(writes + most).value, now, put);
    AppendWrite(writes + most, Write(now, put), from, to);
    assert writes + Burst(now, bytes, n) == writes + most + [Write(now, put)];
  }

  lemma MonotoneBurst(writes: seq<Write>, now: int, bytes: nat, n: nat)
    requires Monotone(writes) && bytes <= n * MAX_PUT_BYTES && forall i | 0 <= i < |writes| :: writes[i].now <= now
    ensures Monotone(writes + Burst(now, bytes, n))
    ensures forall i | 0 <= i < |writes + Burst(now, bytes, n)| :: (writes + Burst(now, bytes, n))[i].now <= now
  {
  }

  /** `j` whole windows, each filled as soon as it opens. */
  function FullWindows(start: int, j: nat): (writes: seq<Write>)
    ensures forall i | 0 <= i < |writes| :: start + WINDOW_MS <= writes[i].now <= start + j * WINDOW_MS
    ensures forall i | 0 <= i < |writes| :: writes[i].bytes <= MAX_PUT_BYTES
  {
    if j == 0 then [] else FullWindows(start, j - 1) + Burst(start + j * WINDOW_MS, MAX_BYTES, MAX_OPS)
  }

  lemma {:induction false} FullWindowsFit(writes: seq<Write>, start: int, j: nat, from: int, to: int)
    requires Monotone(writes) && Row(writes).Some? && Row(writes).value.windowStart == start
    requires forall i | 0 <= i < |writes| :: writes[i].now < start + WINDOW_MS
    requires from <= start + WINDOW_MS && start + j * WINDOW_MS < to
    ensures var all := writes + FullWindows(start, j);
            && Monotone(all) && Row(all).Some? && Row(all).value.windowStart == start + j * WINDOW_MS
            && (forall i | 0 <= i < |all| :: all[i].now < start + (j + 1) * WINDOW_MS)
            && OpsIn(all, from, to) == OpsIn(writes, from, to) + j * MAX_OPS
            && BytesIn(all, from, to) == BytesIn(writes, from, to) + j * MAX_BYTES
  {
    hide Row, OpsIn, BytesIn, Burst, Monotone;
    if j == 0 {
      assert writes + FullWindows(start, j) == writes;
    } else {
      FullWindowsFit(writes, start, j - 1, from, to);
      var most, now := writes + FullWindows(start, j - 1), start + j * WINDOW_MS;
      BurstFits(most, now, MAX_BYTES, MAX_OPS, from, to);
      MonotoneBurst(most, now, MAX_BYTES, MAX_OPS);
      assert writes + FullWindows(start, j) == most + Burst(now, MAX_BYTES, MAX_OPS);
    }
  }

  // -------------------------------------------------------- when the prose bound holds

  /** Later writes that keep the clock nondecreasing. */
  predicate Later(early: seq<Write>, rest: seq<Write>, from: int) {
    Monotone(early + rest) && forall i | 0 <= i < |rest| :: rest[i].now >= from
  }

  /** Of the sizes that `PutObject` lets through to the quota. */
  predicate Continues(early: seq<Write>, rest: seq<Write>, from: int) {
    Later(early, rest, from) && forall i | 0 <= i < |rest| :: rest[i].bytes <= MAX_PUT_BYTES
  }

  predicate OpenAt(row: Option<QuotaState>, from: int) {
    row.Some? && from - row.value.windowStart < WINDOW_MS
  }

  /** The ops left of a window that is open at `from`. */
  function OpsLeft(row: Option<QuotaState>, from: int): (ops: nat) {
    if OpenAt(row, from) && row.value.ops <= MAX_OPS then MAX_OPS - row.value.ops else 0
  }

  /** The bytes that writes of at most `cap` bytes can still bring into it. */
  function BytesLeft(row: Option<QuotaState>, from: int, cap: nat): (bytes: nat)
    ensures OpsLeft(row, from) == 0 ==> bytes == 0
  {
    if !OpenAt(row, from) || row.value.bytes > MAX_BYTES then 0
    else if MAX_BYTES - row.value.bytes <= OpsLeft(row, from) * cap then MAX_BYTES - row.value.bytes
    else OpsLeft(row, from) * cap
  }

  /** What a window open at `from` has left comes on top of `k` whole budgets. */
  lemma OpenWindowAdds(early: seq<Write>, from: int, k: nat) returns (rest: seq<Write>)
    requires Monotone(early) && (forall i | 0 <= i < |early| :: early[i].now < from) && k > 0 && OpsLeft(Row(early), from) > 0
    ensures Continues(early, rest, from)
    ensures OpsIn(early + rest, from, from + k * WINDOW_MS) == OpsLeft(Row(early), from) + k * MAX_OPS
    ensures BytesIn(early + rest, from, from + k * WINDOW_MS) == BytesLeft(Row(early), from, MAX_PUT_BYTES) + k * MAX_BYTES
  {
    hide Row, OpsIn, BytesIn, Monotone;
    var q, to := Row(early).value, from + k * WINDOW_MS;
    var n, bytes := OpsLeft(Row(early), from), BytesLeft(Row(early), from, MAX_PUT_BYTES);
    WindowStartsAtAWrite(early);
    RowWithinBudget(early);
    NothingYet(early, from, to);
    var burst := Burst(from, bytes, n);
    BurstFits(early, from, bytes, n, from, to);
    MonotoneBurst(early, from, bytes, n);
    FullWindowsFit(early + burst, q.windowStart, k, from, to);
    rest := burst + FullWindows(q.windowStart, k);
    assert early + rest == early + burst + FullWindows(q.windowStart, k);
  }

  lemma RowOfOne(w: Write)
    ensures w.bytes <= MAX_BYTES ==> Row([w]) == Some(QuotaState(w.now, 1, w.bytes))
  {
    assert [w][..0] == [];
  }

  /** The bound of `SpanBound` is met for every span: some run of writes that `PutObject`
      lets through reaches both halves of it. */
  lemma SpanBoundIsMet(from: int, k: nat) returns (writes: seq<Write>)
    requires k > 0
    ensures Monotone(writes) && forall i | 0 <= i < |writes| :: writes[i].bytes <= MAX_PUT_BYTES
    ensures OpsIn(writes, from, from + k * WINDOW_MS) == (k + 1) * MAX_OPS - 1
    ensures BytesIn(writes, from, from + k * WINDOW_MS) == (k + 1) * MAX_BYTES
  {
    hide Row, OpsIn, BytesIn;
    var early := [Write(from - (WINDOW_MS - 1), 0)];
    RowOfOne(early[0]);
    var rest := OpenWindowAdds(early, from, k);
    writes := early + rest;
  }

  /** What was written from `from` on, and what the window open at `from` still has
      left, come to at most `left` until a new window opens. */
  predicate OpsBounded(row: Option<QuotaState>, from: int, left: nat, ops: nat) {
    match row
    case None => ops == 0
    case Some(q) =>
      && q.ops <= MAX_OPS
      && (q.windowStart < from ==> ops + OpsLeft(row, from) <= left)
      && (q.windowStart >= from ==> ops <= left + q.ops + MAX_OPS * Windows(from, q.windowStart))
  }

  predicate BytesBounded(row: Option<QuotaState>, from: int, cap: nat, left: nat, bytes: nat) {
    match row
    case None => bytes == 0
    case Some(q) =>
      && q.bytes <= MAX_BYTES && q.ops <= MAX_OPS
      && (q.windowStart < from ==> bytes + BytesLeft(row, from, cap) <= left)
      && (q.windowStart >= from ==> bytes <= left + q.bytes + MAX_BYTES * Windows(from, q.windowStart))
  }

  lemma ChargeKeepsOpsBounded(row: Option<QuotaState>, w: Write, from: int, left: nat, ops: nat)
    requires OpsBounded(row, from, left, ops) && from <= w.now && (row.Some? ==> row.value.windowStart <= w.now)
    ensures OpsBounded(Charge(row, w), from, left, ops + (if EvaluateQuota(row, w.now, w.bytes).Allowed? then 1 else 0))
  {
    if row.Some? && row.value.windowStart >= from && w.now - row.value.windowStart >= WINDOW_MS {
      assert Windows(from, w.now) >= Windows(from, row.value.windowStart) + 1;
    }
  }

  /** A write takes from the open window at most what it brings. */
  lemma LessLeft(q: QuotaState, from: int, cap: nat, bytes: nat)
    requires q.ops < MAX_OPS && q.bytes + bytes <= MAX_BYTES && bytes <= cap && OpenAt(Some(q), from)
    ensures var next := QuotaState(q.windowStart, q.ops + 1, q.bytes + bytes);
            bytes + BytesLeft(Some(next), from, cap) <= BytesLeft(Some(q), from, cap)
  {
    assert (MAX_OPS - q.ops) * cap == (MAX_OPS - (q.ops + 1)) * cap + cap;
  }

  lemma ChargeKeepsBytesBounded(row: Option<QuotaState>, w: Write, from: int, cap: nat, left: nat, bytes: nat)
    requires BytesBounded(row, from, cap, left, bytes) && from <= w.now && (row.Some? ==> row.value.windowStart <= w.now)
    requires w.bytes <= cap || w.bytes > MAX_BYTES
    ensures BytesBounded(Charge(row, w), from, cap, left,
                         bytes + (if EvaluateQuota(row, w.now, w.bytes).Allowed? then w.bytes else 0))
  {
    if row.Some? && EvaluateQuota(row, w.now, w.bytes).Allowed? {
      var q := row.value;
      if w.now - q.windowStart >= WINDOW_MS {
        if q.windowStart >= from {
          assert Windows(from, w.now) >= Windows(from, q.windowStart) + 1;
        }
      } else if q.windowStart < from {
        LessLeft(q, from, cap, w.bytes);
      }
    }
    hide BytesLeft;
  }

  lemma MonotoneInit(early: seq<Write>, rest: seq<Write>, from: int)
    requires Later(early, rest, from) && rest != []
    ensures Later(early, rest[..|rest| - 1], from)
    ensures (early + rest)[..|early + rest| - 1] == early + rest[..|rest| - 1]
    ensures early + rest == early + rest[..|rest| - 1] + [rest[|rest| - 1]]
    ensures forall w | w in early + rest[..|rest| - 1] :: w.now <= rest[|rest| - 1].now
  {
    var all, init := early + rest, early + rest[..|rest| - 1];
    assert forall i | 0 <= i < |init| :: all[i] == init[i];
    assert all[|all| - 1] == rest[|rest| - 1];
  }

  lemma {:induction false} RestBounded(early: seq<Write>, rest: seq<Write>, from: int, to: int, cap: nat)
    requires Later(early, rest, from) && (forall i | 0 <= i < |early| :: early[i].now < from)
    requires forall i | 0 <= i < |rest| :: rest[i].now < to && (rest[i].bytes <= cap || rest[i].bytes > MAX_BYTES)
    ensures OpsBounded(Row(early + rest), from, OpsLeft(Row(early), from), OpsIn(early + rest, from, to))
    ensures BytesBounded(Row(early + rest), from, cap, BytesLeft(Row(early), from, cap), BytesIn(early + rest, from, to))
  {
    hide Row, OpsIn, BytesIn, OpsBounded, BytesBounded, EvaluateQuota, Charge, OpsLeft, BytesLeft;
    if rest == [] {
      assert early + rest == early;
      EarlyBounded(early, from, to, cap);
    } else {
      MonotoneInit(early, rest, from);
      var init, w := rest[..|rest| - 1], rest[|rest| - 1];
      RestBounded(early, init, from, to, cap);
      AppendWrite(early + init, w, from, to);
      StartsBefore(early + init, w.now);
      ChargeKeepsOpsBounded(Row(early + init), w, from, OpsLeft(Row(early), from), OpsIn(early + init, from, to));
      ChargeKeepsBytesBounded(Row(early + init), w, from, cap, BytesLeft(Row(early), from, cap), BytesIn(early + init, from, to));
    }
  }

  lemma StartsBefore(writes: seq<Write>, now: int)
    requires Monotone(writes) && forall w | w in writes :: w.now <= now
    ensures Row(writes).Some? ==> Row(writes).value.windowStart <= now
  {
    hide Row;
    WindowStartsAtAWrite(writes);
  }

  lemma EarlyBounded(early: seq<Write>, from: int, to: int, cap: nat)
    requires Monotone(early) && forall i | 0 <= i < |early| :: early[i].now < from
    ensures OpsBounded(Row(early), from, OpsLeft(Row(early), from), OpsIn(early, from, to))
    ensures BytesBounded(Row(early), from, cap, BytesLeft(Row(early), from, cap), BytesIn(early, from, to))
  {
    hide Row, OpsIn, BytesIn, OpsLeft, BytesLeft;
    RowWithinBudget(early);
    WindowStartsAtAWrite(early);
    NothingYet(early, from, to);
  }

  lemma StartsInSpan(writes: seq<Write>, from: int, k: nat)
    requires Monotone(writes) && k > 0 && forall i | 0 <= i < |writes| :: writes[i].now < from + k * WINDOW_MS
    ensures Row(writes).Some? && Row(writes).value.windowStart >= from ==> Windows(from, Row(writes).value.windowStart) <= k - 1
  {
    hide Row;
    WindowStartsAtAWrite(writes);
  }

  /** What is left of an open window is also the most that comes on top: writes of at
      most `cap` bytes, or too large to be accepted at all, stay within it. */
  lemma OpenSpan(early: seq<Write>, rest: seq<Write>, from: int, k: nat, cap: nat)
    requires Later(early, rest, from) && (forall i | 0 <= i < |early| :: early[i].now < from) && k > 0
    requires forall i | 0 <= i < |rest| :: rest[i].bytes <= cap || rest[i].bytes > MAX_BYTES
    ensures OpsIn(early + rest, from, from + k * WINDOW_MS) <= OpsLeft(Row(early), from) + k * MAX_OPS
    ensures BytesIn(early + rest, from, from + k * WINDOW_MS) <= BytesLeft(Row(early), from, cap) + k * MAX_BYTES
  {
    hide Row, OpsIn, BytesIn, OpsLeft, BytesLeft;
    var all, to := early + rest, from + k * WINDOW_MS;
    assert forall i | 0 <= i < |rest| :: rest[i] == all[|early| + i];
    var n := CutAt(rest, to);
    var some := rest[..n];
    assert all[..|early| + n] == early + some;
    assert forall i | |early| + n <= i < |all| :: all[i] == rest[i - |early|];
    LaterWritesDoNotCount(all, from, to, |early| + n);
    RestBounded(early, some, from, to, cap);
    StartsInSpan(early + some, from, k);
  }

  /** With nothing left of an open window, `k` windows take at most `k` budgets, whatever
      the sizes of the writes. */
  lemma SettledSpan(early: seq<Write>, rest: seq<Write>, from: int, k: nat)
    requires Later(early, rest, from) && (forall i | 0 <= i < |early| :: early[i].now < from) && k > 0
    ensures OpsLeft(Row(early), from) == 0 ==> OpsIn(early + rest, from, from + k * WINDOW_MS) <= k * MAX_OPS
    ensures BytesLeft(Row(early), from, MAX_PUT_BYTES) == 0 ==> BytesIn(early + rest, from, from + k * WINDOW_MS) <= k * MAX_BYTES
  {
    hide Row, OpsIn, BytesIn, Later;
    OpenSpan(early, rest, from, k, MAX_BYTES);
  }

  /** Exactly when the prose bound holds, by the row the server can read: whatever
      `PutObject` lets through from `from` on stays within `k` budgets in `k` windows,
      unless a window is open at `from` with something left. */
  lemma ProseBoundIff(early: seq<Write>, from: int, k: nat)
    requires Monotone(early) && (forall i | 0 <= i < |early| :: early[i].now < from) && k > 0
    ensures (forall rest | Continues(early, rest, from) :: OpsIn(early + rest, from, from + k * WINDOW_MS) <= k * MAX_OPS)
       <==> OpsLeft(Row(early), from) == 0
    ensures (forall rest | Continues(early, rest, from) :: BytesIn(early + rest, from, from + k * WINDOW_MS) <= k * MAX_BYTES)
       <==> BytesLeft(Row(early), from, MAX_PUT_BYTES) == 0
  {
    if OpsLeft(Row(early), from) > 0 {
      var rest := OpenWindowAdds(early, from, k);
      assert OpsIn(early + rest, from, from + k * WINDOW_MS) > k * MAX_OPS;
      assert BytesLeft(Row(early), from, MAX_PUT_BYTES) > 0 ==> BytesIn(early + rest, from, from + k * WINDOW_MS) > k * MAX_BYTES;
    }
    forall rest | Continues(early, rest, from)
      ensures OpsLeft(Row(early), from) == 0 ==> OpsIn(early + rest, from, from + k * WINDOW_MS) <= k * MAX_OPS
      ensures BytesLeft(Row(early), from, MAX_PUT_BYTES) == 0 ==> BytesIn(early + rest, from, from + k * WINDOW_MS) <= k * MAX_BYTES
    {
      SettledSpan(early, rest, from, k);
    }
    hide Row, OpsIn, BytesIn, Monotone, Later, OpsLeft, BytesLeft;
  }
}
