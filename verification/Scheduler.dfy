/** The tick planner of `apps/spammer-worker/src/scheduler.ts`: which identities
    emit which events on a tick, and how a detected real event becomes a bundle of
    queued responses. An absent queue or map is modelled as an empty one. */
module Scheduler {
  import opened Option
  import Decimal

  const CHAT_EVERY_N_TICKS := 5
  const PUSH_EVERY_N_TICKS := 15
  const REACTION_EVERY_N_TICKS := 10
  const REMIX_EVERY_N_PUSHES := 8
  const FORK_OF_FORK_REMIX_PERCENT := 25

  const RESPONSE_AUTHOR_COOLDOWN_MS := 300_000
  const MAX_BUNDLES_IN_FLIGHT := 1
  const RESPONSE_BUNDLE_SPREAD_MS := 30_000
  const RESPONSE_REACTION_COUNT_MIN := 2
  const RESPONSE_REACTION_COUNT_RANGE := 2
  const RESPONSE_CHAT_INCLUDE_PERCENT := 80
  const RESPONSE_REMIX_INCLUDE_PERCENT := 20

  /** The three floors and round-robin cursors. A remix is a push. */
  datatype Category = Chat | Push | Reaction

  function Floor(c: Category): (ms: nat) {
    match c
    case Chat => 2500
    case Push => 30_000
    case Reaction => 200
  }

  /** When each identity was last picked in one category, and where the next scan starts. */
  datatype Lane = Lane(last: seq<Option<int>>, cursor: nat)

  datatype Lanes = Lanes(chat: Lane, push: Lane, reaction: Lane) {
    function Get(c: Category): (lane: Lane) {
      match c
      case Chat => chat
      case Push => push
      case Reaction => reaction
    }

    function Set(c: Category, lane: Lane): (lanes: Lanes)
      ensures lanes.Get(c) == lane
      ensures forall d | d != c :: lanes.Get(d) == Get(d)
    {
      match c
      case Chat => this.(chat := lane)
      case Push => this.(push := lane)
      case Reaction => this.(reaction := lane)
    }
  }

  datatype EventKind = ChatEvent | CommitEvent | RemixEvent | ReactionEvent

  datatype Payload = Payload(target: string, ref: string, author: string)

  datatype ForkUpstream = ForkUpstream(ref: string, head: string)

  datatype PlannedEvent = PlannedEvent(
    identity: nat, kind: EventKind, response: Option<Payload>, remixUpstream: Option<ForkUpstream>)

  datatype IntentKind = ReactionIntent | ChatIntent | RemixIntent

  datatype Intent = Intent(kind: IntentKind, payload: Payload, notBefore: int, bundleId: string)

  datatype RealEvent = RealEvent(ref: string, target: string, author: string)

  datatype State = State(
    lanes: Lanes,
    tick: nat,
    queue: seq<Intent>,
    lastBundle: map<string, int>,
    reacted: map<string, seq<nat>>)

  /** `initialSchedulerState(poolSize)`. */
  function Initial(poolSize: nat): (s: State) {
    var lane := Lane(seq(poolSize, _ => None), 0);
    State(Lanes(lane, lane, lane), 0, [], map[], map[])
  }

  // ------------------------------------------------------------- selectEligible

  predicate Eligible(last: Option<int>, floor: nat, now: int) {
    last.None? || now - last.value >= floor
  }

  function Ring(start: nat, step: nat, size: nat): (i: nat)
    requires size > 0
    ensures i < size
  {
    (start + step) % size
  }

  predicate Admits(lane: Lane, floor: nat, now: int, excluded: seq<nat>, i: nat)
    requires i < |lane.last|
  {
    i !in excluded && Eligible(lane.last[i], floor, now)
  }

  /** How many identities a scan passes over before the first it admits: the whole
      pool when it admits none. */
  function Skips(lane: Lane, floor: nat, now: int, excluded: seq<nat>, step: nat): (s: nat)
    requires step <= |lane.last|
    ensures step <= s <= |lane.last|
    ensures forall k | step <= k < s :: !Admits(lane, floor, now, excluded, Ring(lane.cursor, k, |lane.last|))
    ensures s < |lane.last| ==> Admits(lane, floor, now, excluded, Ring(lane.cursor, s, |lane.last|))
    decreases |lane.last| - step
  {
    if step == |lane.last| || Admits(lane, floor, now, excluded, Ring(lane.cursor, step, |lane.last|)) then step
    else Skips(lane, floor, now, excluded, step + 1)
  }

  /** The identity a scan picks. */
  function Select(lane: Lane, floor: nat, now: int, excluded: seq<nat>): (r: Option<nat>)
    ensures r.Some? ==> r.value < |lane.last| && Admits(lane, floor, now, excluded, r.value)
  {
    var s := Skips(lane, floor, now, excluded, 0);
    if s == |lane.last| then None else Some(Ring(lane.cursor, s, |lane.last|))
  }

  /** The scanning loop. */
  method SelectEligible(start: nat, last: seq<Option<int>>, floor: nat, now: int, excluded: seq<nat>)
    returns (index: Option<nat>, nextCursor: nat)
    ensures index == Select(Lane(last, start), floor, now, excluded)
    ensures nextCursor == if index.Some? then Ring(index.value, 1, |last|) else start
  {
    var step := 0;
    while step < |last|
      invariant step <= |last|
      invariant Skips(Lane(last, start), floor, now, excluded, 0)
             == Skips(Lane(last, start), floor, now, excluded, step)
    {
      var idx := (start + step) % |last|;
      if idx !in excluded && (last[idx].None? || now - last[idx].value >= floor) {
        return Some(idx), (idx + 1) % |last|;
      }
      step := step + 1;
    }
    return None, start;
  }

  // ------------------------------------------------------------------- planTick

  /** One identity chosen on a tick, with the lane as the scan found it. */
  datatype Pick = Pick(
    category: Category, now: int, event: PlannedEvent, intent: Option<Intent>, lane: Lane, excluded: seq<nat>)

  /** What a tick has done so far. */
  datatype Work = Work(lanes: Lanes, reacted: map<string, seq<nat>>, remaining: seq<Intent>, picks: seq<Pick>)

  function CategoryOf(k: IntentKind): (c: Category) {
    match k
    case ChatIntent => Chat
    case RemixIntent => Push
    case ReactionIntent => Reaction
  }

  function EventOf(k: IntentKind): (e: EventKind) {
    match k
    case ChatIntent => ChatEvent
    case RemixIntent => RemixEvent
    case ReactionIntent => ReactionEvent
  }

  function Used(reacted: map<string, seq<nat>>, bundleId: string): (ids: seq<nat>) {
    if bundleId in reacted then reacted[bundleId] else []
  }

  /** Mark identity `i` picked now and move the cursor past it. */
  function Spend(lane: Lane, i: nat, now: int): (next: Lane)
    requires i < |lane.last|
    ensures |next.last| == |lane.last|
  {
    Lane(lane.last[i := Some(now)], Ring(i, 1, |lane.last|))
  }

  function Excluded(w: Work, intent: Intent): (ids: seq<nat>) {
    if intent.kind.ReactionIntent? then Used(w.reacted, intent.bundleId) else []
  }

  /** Phase 1 for one intent: keep it until it is due, pick an identity for it, or
      put it back when nobody is free. */
  function DrainOne(w: Work, intent: Intent, now: int): (next: Work) {
    var c := CategoryOf(intent.kind);
    var lane := w.lanes.Get(c);
    var selected := if intent.notBefore > now then None else Select(lane, Floor(c), now, Excluded(w, intent));
    match selected
    case None => w.(remaining := w.remaining + [intent])
    case Some(i) =>
      Work(w.lanes.Set(c, Spend(lane, i, now)),
           if c.Reaction? then w.reacted[intent.bundleId := Used(w.reacted, intent.bundleId) + [i]] else w.reacted,
           w.remaining,
           w.picks + [Pick(c, now, PlannedEvent(i, EventOf(intent.kind), Some(intent.payload), None),
                           Some(intent), lane, Excluded(w, intent))])
  }

  /** Phase 1 after the first `n` intents of the queue. */
  function Drain(w: Work, queue: seq<Intent>, now: int, n: nat): (next: Work)
    requires n <= |queue|
  {
    if n == 0 then w else DrainOne(Drain(w, queue, now, n - 1), queue[n - 1], now)
  }

  function BundleIds(queue: seq<Intent>): (ids: set<string>) {
    set intent | intent in queue :: intent.bundleId
  }

  /** Forget the bundles with nothing left in the queue. */
  function Forget(w: Work): (next: Work) {
    w.(reacted := map b | b in w.reacted && b in BundleIds(w.remaining) :: w.reacted[b])
  }

  /** Phase 2 for one category: pick an identity on its tick boundary. */
  function Ambient(w: Work, c: Category, fires: bool, kind: EventKind, upstream: Option<ForkUpstream>, now: int)
    : (next: Work)
  {
    var lane := w.lanes.Get(c);
    var selected := if fires then Select(lane, Floor(c), now, []) else None;
    match selected
    case None => w
    case Some(i) =>
      Work(w.lanes.Set(c, Spend(lane, i, now)), w.reacted, w.remaining,
           w.picks + [Pick(c, now, PlannedEvent(i, kind, None, upstream), None, lane, [])])
  }

  /** Push number 7, 15, 23, … is a remix; the rest are commits. */
  function PushKind(tick: nat): (kind: EventKind) {
    if tick / PUSH_EVERY_N_TICKS % REMIX_EVERY_N_PUSHES == REMIX_EVERY_N_PUSHES - 1 then RemixEvent else CommitEvent
  }

  function PushUpstream(tick: nat, forks: seq<ForkUpstream>): (upstream: Option<ForkUpstream>) {
    if PushKind(tick).RemixEvent? then SelectForkUpstream(tick, forks) else None
  }

  function Start(s: State): (w: Work) {
    Work(s.lanes, s.reacted, [], [])
  }

  function Drained(s: State, now: int): (w: Work) {
    Forget(Drain(Start(s), s.queue, now, |s.queue|))
  }

  /** Everything one tick does. */
  function Planned(s: State, now: int, forks: seq<ForkUpstream>): (w: Work) {
    var chat := Ambient(Drained(s, now), Chat, s.tick % CHAT_EVERY_N_TICKS == 0, ChatEvent, None, now);
    var push := Ambient(chat, Push, s.tick % PUSH_EVERY_N_TICKS == 0, PushKind(s.tick),
                        PushUpstream(s.tick, forks), now);
    Ambient(push, Reaction, s.tick % REACTION_EVERY_N_TICKS == 0, ReactionEvent, None, now)
  }

  function Ticked(s: State, now: int, forks: seq<ForkUpstream>): (next: State) {
    var w := Planned(s, now, forks);
    State(w.lanes, s.tick + 1, w.remaining, s.lastBundle, w.reacted)
  }

  function Events(picks: seq<Pick>): (events: seq<PlannedEvent>) {
    seq(|picks|, i requires 0 <= i < |picks| => picks[i].event)
  }

  lemma EventsOfNothing()
    ensures Events([]) == []
  {
  }

  /** One turn of the loop over the response queue, by what its scan selects. */
  lemma DrainStep(w: Work, intent: Intent, now: int)
    ensures var next, c := DrainOne(w, intent, now), CategoryOf(intent.kind);
            var used := if intent.kind.ReactionIntent? then Used(w.reacted, intent.bundleId) else [];
            var i := if intent.notBefore > now then None else Select(w.lanes.Get(c), Floor(c), now, used);
            && (i.None? ==> next == w.(remaining := w.remaining + [intent]))
            && (i.Some? ==>
                  && i.value < |w.lanes.Get(c).last|
                  && next.lanes == w.lanes.Set(c, Lane(w.lanes.Get(c).last[i.value := Some(now)],
                                                       Ring(i.value, 1, |w.lanes.Get(c).last|)))
                  && next.reacted == (if intent.kind.ReactionIntent? then w.reacted[intent.bundleId := used + [i.value]]
                                      else w.reacted)
                  && next.remaining == w.remaining
                  && Events(next.picks)
                  == Events(w.picks) + [PlannedEvent(i.value, EventOf(intent.kind), Some(intent.payload), None)])
  {
    hide Skips, Ring, Floor;
  }

  /** Phase 1 of `planTick`: the loop over the response queue. */
  method DrainQueue(s: State, now: int)
    returns (lanes: Lanes, reacted: map<string, seq<nat>>, remaining: seq<Intent>, events: seq<PlannedEvent>)
    ensures lanes == Drained(s, now).lanes
    ensures reacted == Drained(s, now).reacted
    ensures remaining == Drained(s, now).remaining
    ensures events == Events(Drained(s, now).picks)
  {
    hide Select, Ring, Events, DrainOne, Floor, CategoryOf, EventOf, Used;
    EventsOfNothing();
    lanes, reacted, remaining, events := s.lanes, s.reacted, [], [];
    var n := 0;
    while n < |s.queue|
      invariant n <= |s.queue|
      invariant Drain(Start(s), s.queue, now, n).lanes == lanes
      invariant Drain(Start(s), s.queue, now, n).reacted == reacted
      invariant Drain(Start(s), s.queue, now, n).remaining == remaining
      invariant Events(Drain(Start(s), s.queue, now, n).picks) == events
    {
      var intent := s.queue[n];
      DrainStep(Drain(Start(s), s.queue, now, n), intent, now);
      n := n + 1;
      if intent.notBefore > now {
        remaining := remaining + [intent];
        continue;
      }
      var c := CategoryOf(intent.kind);
      var lane := lanes.Get(c);
      var usedForBundle := if intent.kind.ReactionIntent? then Used(reacted, intent.bundleId) else [];
      var picked, cursor := SelectEligible(lane.cursor, lane.last, Floor(c), now, usedForBundle);
      if picked.None? {
        remaining := remaining + [intent];
        continue;
      }
      lanes := lanes.Set(c, Lane(lane.last[picked.value := Some(now)], cursor));
      if intent.kind.ReactionIntent? {
        reacted := reacted[intent.bundleId := usedForBundle + [picked.value]];
      }
      events := events + [PlannedEvent(picked.value, EventOf(intent.kind), Some(intent.payload), None)];
    }
    var stillQueued := set intent | intent in remaining :: intent.bundleId;
    reacted := map b | b in reacted && b in stillQueued :: reacted[b];
  }

  /** One ambient pick of phase 2. */
  method AmbientPick(lanes: Lanes, c: Category, kind: EventKind, upstream: Option<ForkUpstream>, now: int)
    returns (next: Lanes, events: seq<PlannedEvent>)
    ensures forall w: Work | w.lanes == lanes ::
              && next == Ambient(w, c, true, kind, upstream, now).lanes
              && Events(w.picks) + events == Events(Ambient(w, c, true, kind, upstream, now).picks)
  {
    hide Skips, Select, Ring;
    var lane := lanes.Get(c);
    var picked, cursor := SelectEligible(lane.cursor, lane.last, Floor(c), now, []);
    if picked.None? {
      return lanes, [];
    }
    next := lanes.Set(c, Lane(lane.last[picked.value := Some(now)], cursor));
    events := [PlannedEvent(picked.value, kind, None, upstream)];
  }

  /** Phase 2 leaves the queue alone, and everything off its tick boundaries. */
  lemma AmbientKeeps(w: Work, c: Category, fires: bool, kind: EventKind, upstream: Option<ForkUpstream>, now: int)
    ensures var next := Ambient(w, c, fires, kind, upstream, now);
            next.reacted == w.reacted && next.remaining == w.remaining && (!fires ==> next == w)
  {
    hide Select;
  }

  /** `planTick(state, now, forkUpstreams)`: drain the queue, then the ambient picks. */
  method PlanTick(s: State, now: int, forks: seq<ForkUpstream>) returns (events: seq<PlannedEvent>, next: State)
    ensures events == Events(Planned(s, now, forks).picks)
    ensures next == Ticked(s, now, forks)
  {
    hide Ambient, PushUpstream, Drained, Events;
    var lanes, reacted, remaining;
    lanes, reacted, remaining, events := DrainQueue(s, now);
    ghost var drained := Drained(s, now);
    ghost var chat := Ambient(drained, Chat, s.tick % CHAT_EVERY_N_TICKS == 0, ChatEvent, None, now);
    ghost var push := Ambient(chat, Push, s.tick % PUSH_EVERY_N_TICKS == 0, PushKind(s.tick), PushUpstream(s.tick, forks), now);
    AmbientKeeps(drained, Chat, s.tick % CHAT_EVERY_N_TICKS == 0, ChatEvent, None, now);
    AmbientKeeps(chat, Push, s.tick % PUSH_EVERY_N_TICKS == 0, PushKind(s.tick), PushUpstream(s.tick, forks), now);
    AmbientKeeps(push, Reaction, s.tick % REACTION_EVERY_N_TICKS == 0, ReactionEvent, None, now);
    var more: seq<PlannedEvent>;
    if s.tick % CHAT_EVERY_N_TICKS == 0 {
      lanes, more := AmbientPick(lanes, Chat, ChatEvent, None, now);
      events := events + more;
    }
    if s.tick % PUSH_EVERY_N_TICKS == 0 {
      lanes, more := AmbientPick(lanes, Push, PushKind(s.tick), PushUpstream(s.tick, forks), now);
      events := events + more;
    }
    if s.tick % REACTION_EVERY_N_TICKS == 0 {
      lanes, more := AmbientPick(lanes, Reaction, ReactionEvent, None, now);
      events := events + more;
    }
    next := State(lanes, s.tick + 1, remaining, s.lastBundle, reacted);
  }

  // ------------------------------------------------------- hashes and fork choice

  /** A UTF-16 code unit, what `charCodeAt` returns. */
  type Unit = x: int | 0 <= x < 0x1_0000

  /** The code units of one character: a surrogate pair above the basic plane. */
  function UnitsOf(c: char): (units: seq<Unit>) {
    var u := c as int;
    if u < 0x1_0000 then [u] else [0xD800 + (u - 0x1_0000) / 0x400, 0xDC00 + (u - 0x1_0000) % 0x400]
  }

  /** A JavaScript string is its UTF-16 code units. */
  function Units(s: string): (units: seq<Unit>) {
    if s == "" then [] else UnitsOf(s[0]) + Units(s[1..])
  }

  type Uint32 = x: int | 0 <= x < 0x1_0000_0000

  function Xor(a: Uint32, b: Uint32): (c: Uint32) {
    ((a as bv32) ^ (b as bv32)) as int
  }

  /** `h ^= unit; h = Math.imul(h, 0x01000193)`, read as an unsigned number. */
  function FnvStep(h: Uint32, unit: Unit): (out: Uint32) {
    Xor(h, unit) * 0x0100_0193 % 0x1_0000_0000
  }

  function Fnv(units: seq<Unit>, n: nat): (h: Uint32)
    requires n <= |units|
  {
    if n == 0 then 0x811C_9DC5 else FnvStep(Fnv(units, n - 1), units[n - 1])
  }

  /** 32-bit FNV-1a, the only source of variety. */
  function HashString(s: string): (h: Uint32) {
    Fnv(Units(s), |Units(s)|)
  }

  method HashStringToUint32(s: string) returns (h: nat)
    ensures h == HashString(s)
  {
    hide FnvStep, Units;
    var units := Units(s);
    var acc: Uint32 := 0x811C_9DC5;
    var i := 0;
    while i < |units|
      invariant i <= |units|
      invariant acc == Fnv(units, i)
    {
      acc := FnvStep(acc, units[i]);
      i := i + 1;
    }
    h := acc;
  }

  lemma {:induction false} UnitsOneMore(s: string, c: char)
    ensures Units("") == [] && Units(s + [c]) == Units(s) + UnitsOf(c)
  {
    hide UnitsOf;
    if s == "" {
      assert s + [c] == [c] && Units([c][1..]) == [];
    } else {
      UnitsOneMore(s[1..], c);
      assert (s + [c])[1..] == s[1..] + [c];
    }
  }

  lemma {:induction false} FnvOfPrefix(a: seq<Unit>, b: seq<Unit>, n: nat)
    requires n <= |a|
    ensures Fnv(a + b, n) == Fnv(a, n)
  {
    hide FnvStep;
    if n > 0 {
      FnvOfPrefix(a, b, n - 1);
    }
  }

  lemma FnvOneMore(units: seq<Unit>, u: Unit)
    ensures Fnv(units + [u], |units| + 1) == FnvStep(Fnv(units, |units|), u)
  {
    hide FnvStep;
    FnvOfPrefix(units, [u], |units|);
  }

  /** A hash that takes one more code unit: the exclusive-or comes before the product,
      as FNV-1a has it. */
  predicate Takes(h: Uint32, unit: Unit, next: Uint32) {
    next == ((h as bv32) ^ (unit as bv32)) as int * 16_777_619 % 4_294_967_296
  }

  lemma StepTakes(h: Uint32, u: Unit)
    ensures Takes(h, u, FnvStep(h, u))
  {
  }

  lemma FnvTwoMore(units: seq<Unit>, hi: Unit, lo: Unit)
    ensures Fnv(units + [hi, lo], |units| + 2) == FnvStep(FnvStep(Fnv(units, |units|), hi), lo)
  {
    hide FnvStep;
    FnvOneMore(units, hi);
    FnvOneMore(units + [hi], lo);
    assert units + [hi, lo] == units + [hi] + [lo];
  }

  /** The surrogate pair of a character above the basic plane (section 3.9 of the Unicode
      standard). */
  predicate IsPair(c: char, hi: Unit, lo: Unit) {
    && 55_296 <= hi < 56_320 && 56_320 <= lo < 57_344
    && c as int == 65_536 + (hi - 55_296) * 1024 + (lo - 56_320)
  }

  lemma UnitsAre(c: char)
    ensures c as int < 65_536 ==> UnitsOf(c) == [c as int]
    ensures c as int >= 65_536 ==> |UnitsOf(c)| == 2 && IsPair(c, UnitsOf(c)[0], UnitsOf(c)[1])
  {
  }

  lemma HashOfNothing()
    ensures HashString("") == 2_166_136_261
  {
  }

  /** The hash of a text with one more character takes its one code unit, or above the
      basic plane first the high and then the low surrogate. */
  lemma HashOneMore(s: string, c: char)
    ensures c as int < 65_536 ==> Takes(HashString(s), c as int, HashString(s + [c]))
    ensures c as int >= 65_536 ==>
              exists mid: Uint32, hi: Unit, lo: Unit ::
                IsPair(c, hi, lo) && Takes(HashString(s), hi, mid) && Takes(mid, lo, HashString(s + [c]))
  {
    UnitsOneMore(s, c);
    UnitsAre(c);
    hide Units, UnitsOf, Takes, FnvStep, Fnv, IsPair;
    var units := Units(s);
    if c as int < 65_536 {
      FnvOneMore(units, c as int);
      StepTakes(HashString(s), c as int);
    } else {
      var hi, lo := UnitsOf(c)[0], UnitsOf(c)[1];
      var mid := FnvStep(HashString(s), hi);
      assert UnitsOf(c) == [hi, lo];
      FnvTwoMore(units, hi, lo);
      StepTakes(HashString(s), hi);
      StepTakes(mid, lo);
    }
  }

  /** A published value of 32-bit FNV-1a. */
  lemma HashOfA()
    ensures HashString("a") == 0xE40C_292C
  {
    HashOfNothing();
    assert "" + ['a'] == "a";
    HashOneMore("", 'a');
    hide HashString;
  }

  /** Which known fork the ambient remix of a tick forks, if any. */
  function SelectForkUpstream(tick: nat, forks: seq<ForkUpstream>): (r: Option<ForkUpstream>)
    ensures r.Some? <==> forks != [] && HashString("fork-of-fork:fires:" + Decimal.Text(tick)) % 100 < 25
    ensures r.Some? ==> r.value == forks[HashString("fork-of-fork:pick:" + Decimal.Text(tick)) % |forks|]
  {
    if forks == [] then None
    else if HashString("fork-of-fork:fires:" + Decimal.Text(tick)) % 100 >= FORK_OF_FORK_REMIX_PERCENT then None
    else Some(forks[HashString("fork-of-fork:pick:" + Decimal.Text(tick)) % |forks|])
  }

  // --------------------------------------------------------- enqueueResponseBundle

  /** A clock reading as JavaScript prints it. */
  function ClockText(now: int): (s: string) {
    if now < 0 then "-" + Decimal.Text(-now) else Decimal.Text(now)
  }

  /** `${targetIdHex}:${now}`. */
  function BundleId(target: string, now: int): (id: string) {
    target + ":" + ClockText(now)
  }

  predicate OnCooldown(lastBundle: map<string, int>, author: string, now: int) {
    author in lastBundle && now - lastBundle[author] < RESPONSE_AUTHOR_COOLDOWN_MS
  }

  function Prune(lastBundle: map<string, int>, now: int): (live: map<string, int>) {
    map author | author in lastBundle && now - lastBundle[author] < RESPONSE_AUTHOR_COOLDOWN_MS :: lastBundle[author]
  }

  function ReactionCount(target: string): (n: nat)
    ensures 2 <= n <= 3
  {
    RESPONSE_REACTION_COUNT_MIN + HashString(target + ":reactionCount") % RESPONSE_REACTION_COUNT_RANGE
  }

  predicate IncludesChat(target: string) {
    HashString(target + ":chat") % 100 < RESPONSE_CHAT_INCLUDE_PERCENT
  }

  predicate IncludesRemix(target: string) {
    HashString(target + ":remix") % 100 < RESPONSE_REMIX_INCLUDE_PERCENT
  }

  function PayloadOf(e: RealEvent): (p: Payload) {
    Payload(e.target, e.ref, e.author)
  }

  /** The first `n` reactions of a bundle, spread over thirty seconds. */
  function Reactions(e: RealEvent, now: int, n: nat): (intents: seq<Intent>)
    ensures |intents| == n
  {
    seq(n, i requires 0 <= i < n =>
      Intent(ReactionIntent, PayloadOf(e),
             now + i * RESPONSE_BUNDLE_SPREAD_MS / ReactionCount(e.target), BundleId(e.target, now)))
  }

  function Bundle(e: RealEvent, now: int): (intents: seq<Intent>) {
    Reactions(e, now, ReactionCount(e.target)) +
    (if IncludesChat(e.target)
     then [Intent(ChatIntent, PayloadOf(e), now + RESPONSE_BUNDLE_SPREAD_MS / 2, BundleId(e.target, now))]
     else []) +
    (if IncludesRemix(e.target)
     then [Intent(RemixIntent, PayloadOf(e), now + RESPONSE_BUNDLE_SPREAD_MS, BundleId(e.target, now))]
     else [])
  }

  /** Whether a real event gets a bundle. */
  predicate Accepts(s: State, e: RealEvent, now: int) {
    && !OnCooldown(s.lastBundle, e.author, now)
    && |BundleIds(s.queue)| < MAX_BUNDLES_IN_FLIGHT
  }

  function Enqueued(s: State, e: RealEvent, now: int): (next: State) {
    if Accepts(s, e, now)
    then s.(queue := s.queue + Bundle(e, now), lastBundle := Prune(s.lastBundle, now)[e.author := now])
    else s
  }

  /** The pruning loop of `enqueueResponseBundle`. */
  method PruneAuthors(lastBundle: map<string, int>, now: int) returns (pruned: map<string, int>)
    ensures pruned == Prune(lastBundle, now)
  {
    pruned := map[];
    var authors := lastBundle.Keys;
    while authors != {}
      invariant authors <= lastBundle.Keys
      invariant pruned == map a | a in lastBundle && a !in authors && now - lastBundle[a] < RESPONSE_AUTHOR_COOLDOWN_MS
                          :: lastBundle[a]
    {
      var a :| a in authors;
      authors := authors - {a};
      if now - lastBundle[a] < RESPONSE_AUTHOR_COOLDOWN_MS {
        pruned := pruned[a := lastBundle[a]];
      }
    }
  }

  /** The intents of a bundle, reactions by a loop. */
  method ComposeBundle(e: RealEvent, now: int) returns (intents: seq<Intent>)
    ensures intents == Bundle(e, now)
  {
    hide HashString;
    var bundleId := BundleId(e.target, now);
    intents := [];
    var count := ReactionCount(e.target);
    var i := 0;
    while i < count
      invariant i <= count
      invariant intents == Reactions(e, now, i)
    {
      intents := intents + [Intent(ReactionIntent, PayloadOf(e), now + i * RESPONSE_BUNDLE_SPREAD_MS / count, bundleId)];
      i := i + 1;
    }
    if IncludesChat(e.target) {
      intents := intents + [Intent(ChatIntent, PayloadOf(e), now + RESPONSE_BUNDLE_SPREAD_MS / 2, bundleId)];
    }
    if IncludesRemix(e.target) {
      intents := intents + [Intent(RemixIntent, PayloadOf(e), now + RESPONSE_BUNDLE_SPREAD_MS, bundleId)];
    }
  }

  lemma QueueIsEmptyIff(queue: seq<Intent>)
    ensures |BundleIds(queue)| < MAX_BUNDLES_IN_FLIGHT <==> queue == []
  {
    assert queue != [] ==> queue[0].bundleId in BundleIds(queue);
  }

  /** `enqueueResponseBundle(state, event, now)`: the two gates, then prune and append. */
  method EnqueueResponseBundle(s: State, e: RealEvent, now: int) returns (next: State)
    ensures next == Enqueued(s, e, now)
    ensures s.queue != [] || (e.author in s.lastBundle && now - s.lastBundle[e.author] < 300_000) ==> next == s
    ensures s.queue == [] && !(e.author in s.lastBundle && now - s.lastBundle[e.author] < 300_000) ==>
              && next.queue == Bundle(e, now)
              && next.lanes == s.lanes && next.tick == s.tick && next.reacted == s.reacted
              && e.author in next.lastBundle && next.lastBundle[e.author] == now
              && forall a | a != e.author ::
                   && (a in next.lastBundle <==> a in s.lastBundle && now - s.lastBundle[a] < 300_000)
                   && (a in next.lastBundle ==> next.lastBundle[a] == s.lastBundle[a])
  {
    hide Bundle;
    QueueIsEmptyIff(s.queue);
    if e.author in s.lastBundle && now - s.lastBundle[e.author] < RESPONSE_AUTHOR_COOLDOWN_MS {
      return s;
    }
    if |set intent | intent in s.queue :: intent.bundleId| >= MAX_BUNDLES_IN_FLIGHT {
      return s;
    }
    var pruned := PruneAuthors(s.lastBundle, now);
    var intents := ComposeBundle(e, now);
    next := s.(queue := s.queue + intents, lastBundle := pruned[e.author := now]);
  }
}
