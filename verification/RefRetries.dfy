/** When a run of `emitCommit` or `emitRemix` retries and when it gives up, over every
    interleaving: by its own reads and updates and the commits its ref gained between. */
module RefRetries {
  import opened Option
  import opened RefCas

  /** Where in an interleaving one run read its ref and sent its updates, leaving out the
      calls it was not ready for. */
  datatype Track = Track(readAt: seq<nat>, updatedAt: seq<nat>)

  function TrackOf(hash: Object -> Id, actions: seq<Action>, who: nat): (t: Track) {
    if actions == [] then Track([], [])
    else
      var n := |actions| - 1;
      var before, w := TrackOf(hash, actions[..n], who), Run(hash, actions[..n]);
      if who !in w.pushers then before
      else if actions[n] == Read(who) && w.pushers[who].phase.Reading? then before.(readAt := before.readAt + [n])
      else if actions[n] == Update(who) && w.pushers[who].phase.Updating? then before.(updatedAt := before.updatedAt + [n])
      else before
  }

  /** The commits on a ref before action `n`. */
  function LogAt(hash: Object -> Id, actions: seq<Action>, n: nat, ref: string): (log: seq<Commit>)
    requires n <= |actions|
  {
    Log(Run(hash, actions[..n]), ref)
  }

  /** The ref gained a commit between a read and an update. */
  predicate Beaten(hash: Object -> Id, actions: seq<Action>, ref: string, read: nat, update: nat) {
    read <= update <= |actions| && |LogAt(hash, actions, read, ref)| < |LogAt(hash, actions, update, ref)|
  }

  /** Reads and updates alternate, within the first `n` actions. */
  predicate Alternate(t: Track, n: nat) {
    && |t.updatedAt| <= |t.readAt| <= |t.updatedAt| + 1 <= 3
    && (forall i | 0 <= i < |t.updatedAt| :: t.readAt[i] < t.updatedAt[i] < n)
    && (forall i | 0 <= i < |t.readAt| :: t.readAt[i] < n && (i > 0 ==> t.updatedAt[i - 1] < t.readAt[i]))
  }

  /** How a run stands, by its track. */
  predicate Stands(hash: Object -> Id, actions: seq<Action>, p: Pusher, t: Track) {
    && Alternate(t, |actions|)
    && (forall i | 0 <= i < |t.updatedAt| - 1 :: Beaten(hash, actions, p.ref, t.readAt[i], t.updatedAt[i]))
    && match p.phase
       case Reading(attempt) => Retrying(hash, actions, p.ref, t, attempt) && |t.readAt| == attempt
       case Putting(attempt, _, seen) =>
         Retrying(hash, actions, p.ref, t, attempt) && |t.readAt| == attempt + 1 && SawAt(hash, actions, p.ref, t, attempt, seen)
       case Updating(attempt, _, seen, _) =>
         Retrying(hash, actions, p.ref, t, attempt) && |t.readAt| == attempt + 1 && SawAt(hash, actions, p.ref, t, attempt, seen)
       case Won(_, _) =>
         var last := |t.updatedAt| - 1;
         last >= 0 && |t.readAt| == |t.updatedAt| && !Beaten(hash, actions, p.ref, t.readAt[last], t.updatedAt[last])
       case Lost(_) =>
         |t.updatedAt| == 2 && |t.readAt| == 2 && Beaten(hash, actions, p.ref, t.readAt[1], t.updatedAt[1])
  }

  predicate Retrying(hash: Object -> Id, actions: seq<Action>, ref: string, t: Track, attempt: nat)
    requires |t.updatedAt| <= |t.readAt|
  {
    |t.updatedAt| == attempt <= 1 && (attempt == 1 ==> Beaten(hash, actions, ref, t.readAt[0], t.updatedAt[0]))
  }

  predicate SawAt(hash: Object -> Id, actions: seq<Action>, ref: string, t: Track, attempt: nat, seen: nat)
    requires |t.readAt| == attempt + 1
  {
    t.readAt[attempt] <= |actions| && seen == |LogAt(hash, actions, t.readAt[attempt], ref)|
  }

  lemma LogAtInit(hash: Object -> Id, actions: seq<Action>, a: Action, n: nat, ref: string)
    requires n <= |actions|
    ensures LogAt(hash, actions + [a], n, ref) == LogAt(hash, actions, n, ref)
  {
    hide Run;
    assert (actions + [a])[..n] == actions[..n];
  }

  lemma BeatenInit(hash: Object -> Id, actions: seq<Action>, a: Action, ref: string, read: nat, update: nat)
    requires read <= update <= |actions|
    ensures Beaten(hash, actions + [a], ref, read, update) <==> Beaten(hash, actions, ref, read, update)
  {
    hide LogAt;
    LogAtInit(hash, actions, a, read, ref);
    LogAtInit(hash, actions, a, update, ref);
  }

  /** A run whose place in the protocol did not change still stands as it did. */
  lemma StandsOn(hash: Object -> Id, actions: seq<Action>, a: Action, p: Pusher, t: Track)
    requires Stands(hash, actions, p, t)
    ensures Stands(hash, actions + [a], p, t)
  {
    hide Beaten, LogAt;
    forall i | 0 <= i < |t.updatedAt|
      ensures Beaten(hash, actions + [a], p.ref, t.readAt[i], t.updatedAt[i])
         <==> Beaten(hash, actions, p.ref, t.readAt[i], t.updatedAt[i])
    {
      BeatenInit(hash, actions, a, p.ref, t.readAt[i], t.updatedAt[i]);
    }
    forall i | 0 <= i < |t.readAt|
      ensures LogAt(hash, actions + [a], t.readAt[i], p.ref) == LogAt(hash, actions, t.readAt[i], p.ref)
    {
      LogAtInit(hash, actions, a, t.readAt[i], p.ref);
    }
  }

  lemma LogNow(hash: Object -> Id, actions: seq<Action>, a: Action, ref: string)
    ensures LogAt(hash, actions + [a], |actions|, ref) == Log(Run(hash, actions), ref)
  {
    hide Run;
    assert (actions + [a])[..|actions|] == actions;
  }

  lemma OneMoreAction(hash: Object -> Id, actions: seq<Action>, a: Action)
    ensures Run(hash, actions + [a]) == Next(hash, Run(hash, actions), a)
  {
    hide Next;
    assert (actions + [a])[..|actions|] == actions;
  }

  lemma OthersMove(hash: Object -> Id, w: World, a: Action, who: nat)
    requires a.who != who
    ensures who in Next(hash, w, a).pushers <==> who in w.pushers
    ensures who in w.pushers ==> Next(hash, w, a).pushers[who] == w.pushers[who]
  {
    hide Decision, Log, HeadOf;
  }

  lemma TrackOneMore(hash: Object -> Id, actions: seq<Action>, a: Action, who: nat)
    ensures var t, w := TrackOf(hash, actions, who), Run(hash, actions);
            TrackOf(hash, actions + [a], who) ==
            if who !in w.pushers then t
            else if a == Read(who) && w.pushers[who].phase.Reading? then t.(readAt := t.readAt + [|actions|])
            else if a == Update(who) && w.pushers[who].phase.Updating? then t.(updatedAt := t.updatedAt + [|actions|])
            else t
  {
    hide Run;
    assert (actions + [a])[..|actions|] == actions;
  }

  ghost predicate Tracked(hash: Object -> Id, actions: seq<Action>, who: nat) {
    var w, t := Run(hash, actions), TrackOf(hash, actions, who);
    if who in w.pushers then Stands(hash, actions, w.pushers[who], t) else t == Track([], [])
  }

  lemma StartTracked(hash: Object -> Id, actions: seq<Action>, who: nat, ref: string)
    requires Tracked(hash, actions, who)
    ensures Tracked(hash, actions + [Start(who, ref)], who)
  {
    hide Run, Stands;
    var a := Start(who, ref);
    OneMoreAction(hash, actions, a);
    TrackOneMore(hash, actions, a, who);
    if who in Run(hash, actions).pushers {
      StandsOn(hash, actions, a, Run(hash, actions).pushers[who], TrackOf(hash, actions, who));
    } else {
      FreshStands(hash, actions + [a], Pusher(ref, Reading(0)));
    }
  }

  lemma FreshStands(hash: Object -> Id, actions: seq<Action>, p: Pusher)
    requires p.phase == Reading(0)
    ensures Stands(hash, actions, p, Track([], []))
  {
  }

  lemma ReadTracked(hash: Object -> Id, actions: seq<Action>, who: nat)
    requires Tracked(hash, actions, who)
    ensures Tracked(hash, actions + [Read(who)], who)
  {
    hide Run, Stands, Log, HeadOf;
    var a, w, t := Read(who), Run(hash, actions), TrackOf(hash, actions, who);
    OneMoreAction(hash, actions, a);
    TrackOneMore(hash, actions, a, who);
    if who in w.pushers {
      StandsOn(hash, actions, a, w.pushers[who], t);
      if w.pushers[who].phase.Reading? {
        WithinBounds(hash, actions, w.pushers[who], t);
        LogNow(hash, actions, a, w.pushers[who].ref);
        ReadStands(hash, actions + [a], w.pushers[who], t, HeadOf(w, w.pushers[who].ref), |actions|);
      }
    }
  }

  lemma ReadStands(hash: Object -> Id, actions: seq<Action>, p: Pusher, t: Track, head: Option<Id>, n: nat)
    requires Stands(hash, actions, p, t) && p.phase.Reading? && n + 1 == |actions|
    requires forall i | 0 <= i < |t.updatedAt| :: t.updatedAt[i] < n
    ensures Stands(hash, actions, p.(phase := Putting(p.phase.attempt, head, |LogAt(hash, actions, n, p.ref)|)),
                   t.(readAt := t.readAt + [n]))
  {
    hide Beaten, LogAt;
  }

  lemma PutTracked(hash: Object -> Id, actions: seq<Action>, who: nat, content: string)
    requires Tracked(hash, actions, who)
    ensures Tracked(hash, actions + [Put(who, content)], who)
  {
    hide Run, Beaten, LogAt;
    var a, w, t := Put(who, content), Run(hash, actions), TrackOf(hash, actions, who);
    OneMoreAction(hash, actions, a);
    TrackOneMore(hash, actions, a, who);
    if who in w.pushers {
      StandsOn(hash, actions, a, w.pushers[who], t);
    }
  }

  lemma UpdateStands(hash: Object -> Id, actions: seq<Action>, p: Pusher, t: Track, n: nat, phase: Phase)
    requires Stands(hash, actions, p, t) && p.phase.Updating? && n + 1 == |actions|
    requires forall i | 0 <= i < |t.readAt| :: t.readAt[i] < n
    requires var beaten := p.phase.seen < |LogAt(hash, actions, n, p.ref)|;
             if !beaten then phase.Won? && p.phase.seen == |LogAt(hash, actions, n, p.ref)|
             else if p.phase.attempt == 0 then phase == Reading(1)
             else phase.Lost?
    ensures Stands(hash, actions, p.(phase := phase), t.(updatedAt := t.updatedAt + [n]))
  {
    hide LogAt;
  }

  lemma UpdateTracked(hash: Object -> Id, actions: seq<Action>, who: nat)
    requires Injective(hash) && Tracked(hash, actions, who)
    ensures Tracked(hash, actions + [Update(who)], who)
  {
    hide Run, Stands, Log, Decision, Injective;
    var a, w, t := Update(who), Run(hash, actions), TrackOf(hash, actions, who);
    OneMoreAction(hash, actions, a);
    TrackOneMore(hash, actions, a, who);
    if who in w.pushers {
      var p := w.pushers[who];
      StandsOn(hash, actions, a, p, t);
      if p.phase.Updating? {
        CasDecides(hash, actions, who);
        LogNow(hash, actions, a, p.ref);
        WithinBounds(hash, actions, p, t);
        UpdateStands(hash, actions + [a], p, t, |actions|, Run(hash, actions + [a]).pushers[who].phase);
      }
    }
  }

  lemma WithinBounds(hash: Object -> Id, actions: seq<Action>, p: Pusher, t: Track)
    requires Stands(hash, actions, p, t)
    ensures forall i | 0 <= i < |t.readAt| :: t.readAt[i] < |actions|
    ensures forall i | 0 <= i < |t.updatedAt| :: t.updatedAt[i] < |actions|
  {
  }

  lemma OthersTracked(hash: Object -> Id, actions: seq<Action>, a: Action, who: nat)
    requires Tracked(hash, actions, who) && a.who != who
    ensures Tracked(hash, actions + [a], who)
  {
    hide Run, Stands, Next;
    OneMoreAction(hash, actions, a);
    TrackOneMore(hash, actions, a, who);
    OthersMove(hash, Run(hash, actions), a, who);
    if who in Run(hash, actions).pushers {
      StandsOn(hash, actions, a, Run(hash, actions).pushers[who], TrackOf(hash, actions, who));
    }
  }

  lemma {:induction false} RunTracked(hash: Object -> Id, actions: seq<Action>, who: nat)
    requires Injective(hash)
    ensures Tracked(hash, actions, who)
  {
    if actions != [] {
      hide Tracked, Injective;
      var init, a := actions[..|actions| - 1], actions[|actions| - 1];
      RunTracked(hash, init, who);
      assert actions == init + [a];
      if a.who != who {
        OthersTracked(hash, init, a, who);
      } else {
        match a
        case Start(_, ref) => StartTracked(hash, init, who, ref);
        case Read(_) => ReadTracked(hash, init, who);
        case Put(_, content) => PutTracked(hash, init, who, content);
        case Update(_) => UpdateTracked(hash, init, who);
      }
    }
  }

  // ------------------------------------------------------------------------- the laws

  lemma {:induction false} TrackIsReal(hash: Object -> Id, actions: seq<Action>, who: nat)
    ensures forall n | n in TrackOf(hash, actions, who).readAt :: n < |actions| && actions[n] == Read(who)
    ensures forall n | n in TrackOf(hash, actions, who).updatedAt :: n < |actions| && actions[n] == Update(who)
  {
    hide Run;
    if actions != [] {
      TrackIsReal(hash, actions[..|actions| - 1], who);
    }
  }

  /** Exactly how every run ends, in every interleaving. It sends at most two updates, each
      after a read of its own; it has won exactly when its last update met no commit made
      since the read before it, and given up exactly when it sent two and both met one. */
  lemma EndsByItsUpdates(hash: Object -> Id, actions: seq<Action>, who: nat)
    requires Injective(hash) && who in Run(hash, actions).pushers
    ensures Alternate(TrackOf(hash, actions, who), |actions|)
    ensures var t, p := TrackOf(hash, actions, who), Run(hash, actions).pushers[who];
            var n := |t.updatedAt|;
            && n <= 2
            && (p.phase.Won? <==> n > 0 && !Beaten(hash, actions, p.ref, t.readAt[n - 1], t.updatedAt[n - 1]))
            && (p.phase.Lost? <==>
                  && n == 2
                  && Beaten(hash, actions, p.ref, t.readAt[0], t.updatedAt[0])
                  && Beaten(hash, actions, p.ref, t.readAt[1], t.updatedAt[1]))
  {
    hide Beaten, Run, Injective;
    RunTracked(hash, actions, who);
  }

  /** What beats a run is another run's commit: none of its own is on a ref it still updates. */
  lemma BeatenByOthers(hash: Object -> Id, actions: seq<Action>, who: nat, i: nat)
    requires Injective(hash) && i < |TrackOf(hash, actions, who).updatedAt|
    ensures var n := TrackOf(hash, actions, who).updatedAt[i];
            && n < |actions| && who in Run(hash, actions[..n]).pushers
            && forall c | c in LogAt(hash, actions, n, Run(hash, actions[..n]).pushers[who].ref) :: c.author != who
  {
    hide Injective, Run;
    var n := TrackOf(hash, actions, who).updatedAt[i];
    UpdatesAreReady(hash, actions, who, n);
    var w := Run(hash, actions[..n]);
    RunSound(hash, actions[..n]);
    assert Credited(w, w.pushers[who].ref);
    hide Sound;
    var log := Log(w, w.pushers[who].ref);
    forall c | c in log
      ensures c.author != who
    {
      var k :| 0 <= k < |log| && log[k] == c;
      assert CreditedAt(w, w.pushers[who].ref, k);
    }
  }

  lemma {:induction false} UpdatesAreReady(hash: Object -> Id, actions: seq<Action>, who: nat, n: nat)
    requires n in TrackOf(hash, actions, who).updatedAt
    ensures n < |actions| && who in Run(hash, actions[..n]).pushers && Run(hash, actions[..n]).pushers[who].phase.Updating?
  {
    hide Run;
    var k := |actions| - 1;
    if n in TrackOf(hash, actions[..k], who).updatedAt {
      UpdatesAreReady(hash, actions[..k], who, n);
      assert actions[..k][..n] == actions[..n];
    }
  }

  lemma RunNext(hash: Object -> Id, actions: seq<Action>, n: nat)
    requires n < |actions|
    ensures Run(hash, actions[..n + 1]) == Next(hash, Run(hash, actions[..n]), actions[n])
  {
    hide Next, Run;
    OneMoreAction(hash, actions[..n], actions[n]);
    assert actions[..n + 1] == actions[..n] + [actions[n]];
  }

  lemma {:induction false} StaysPut(hash: Object -> Id, actions: seq<Action>, who: nat, i: nat, j: nat)
    requires i <= j <= |actions| && forall k | i <= k < j :: actions[k].who != who
    requires who in Run(hash, actions[..i]).pushers
    ensures who in Run(hash, actions[..j]).pushers
    ensures Run(hash, actions[..j]).pushers[who] == Run(hash, actions[..i]).pushers[who]
    decreases j
  {
    hide Run, Next;
    if i < j {
      StaysPut(hash, actions, who, i, j - 1);
      RunNext(hash, actions, j - 1);
      OthersMove(hash, Run(hash, actions[..j - 1]), actions[j - 1], who);
    }
  }

  /** One attempt of a run: its read, its put and its update, and nothing else of its own
      in between. */
  predicate IsAttempt(actions: seq<Action>, who: nat, read: nat, put: nat, update: nat, content: string) {
    && read < put < update < |actions|
    && actions[read] == Read(who) && actions[put] == Put(who, content) && actions[update] == Update(who)
    && forall k | read < k < update && k != put :: actions[k].who != who
  }

  lemma ReadyToUpdate(hash: Object -> Id, actions: seq<Action>, who: nat, read: nat, put: nat, update: nat, content: string)
    requires IsAttempt(actions, who, read, put, update, content)
    requires who in Run(hash, actions[..read]).pushers && Run(hash, actions[..read]).pushers[who].phase.Reading?
    ensures who in Run(hash, actions[..update]).pushers
    ensures var p, w := Run(hash, actions[..read]).pushers[who], Run(hash, actions[..read]);
            var id, seen := hash(Object(HeadOf(w, p.ref), content)), |LogAt(hash, actions, read, p.ref)|;
            Run(hash, actions[..update]).pushers[who] == Pusher(p.ref, Updating(p.phase.attempt, HeadOf(w, p.ref), seen, id))
  {
    hide Run, Log, HeadOf;
    RunNext(hash, actions, read);
    StaysPut(hash, actions, who, read + 1, put);
    RunNext(hash, actions, put);
    StaysPut(hash, actions, who, put + 1, update);
  }

  /** What an attempt does: when the ref gained no commit between its read and its update,
      a commit of what it signed on the head it read; otherwise nothing, and the run reads
      again after its first update and gives up after its second. */
  lemma AttemptDecides(hash: Object -> Id, actions: seq<Action>, who: nat, read: nat, put: nat, update: nat, content: string)
    requires Injective(hash) && IsAttempt(actions, who, read, put, update, content)
    requires who in Run(hash, actions[..read]).pushers && Run(hash, actions[..read]).pushers[who].phase.Reading?
    ensures var before, after := Run(hash, actions[..update]), Run(hash, actions[..update + 1]);
            var ref := Run(hash, actions[..read]).pushers[who].ref;
            var signed := Object(HeadOf(Run(hash, actions[..read]), ref), content);
            && who in after.pushers && after.pushers[who].ref == ref
            && if |LogAt(hash, actions, update, ref)| == |LogAt(hash, actions, read, ref)| then
                 && after.pushers[who].phase.Won?
                 && Log(after, ref) == Log(before, ref) + [Commit(hash(signed), who)]
                 && HeadOf(after, ref) == Some(hash(signed))
                 && hash(signed) in after.objects && after.objects[hash(signed)] == signed
               else
                 && after.refs == before.refs && after.log == before.log && after.objects == before.objects
                 && if TrackOf(hash, actions[..update], who).updatedAt == [] then after.pushers[who].phase.Reading?
                    else after.pushers[who].phase.Lost?
  {
    hide Run, Injective, Sound, Log, HeadOf, Tracked, TrackOf, Addressed;
    ReadyToUpdate(hash, actions, who, read, put, update, content);
    RunNext(hash, actions, update);
    CasDecides(hash, actions[..update], who);
    SignedIsPut(hash, actions[..update], who, Object(HeadOf(Run(hash, actions[..read]), Run(hash, actions[..read]).pushers[who].ref), content));
    AttemptNumber(hash, actions[..update], who);
    UpdateDecides(Run(hash, actions[..update]), who);
  }

  lemma UpdateDecides(w: World, who: nat)
    requires who in w.pushers && w.pushers[who].phase.Updating?
    ensures var p, next := w.pushers[who], Updated(w, who);
            && next.objects == w.objects && who in next.pushers && next.pushers[who].ref == p.ref
            && if Decision(w, p).Committed? then
                 && next.pushers[who].phase.Won? && Log(next, p.ref) == Log(w, p.ref) + [Commit(p.phase.id, who)]
                 && HeadOf(next, p.ref) == Some(p.phase.id)
               else
                 && next.refs == w.refs && next.log == w.log
                 && if p.phase.attempt == 0 then next.pushers[who].phase.Reading? else next.pushers[who].phase.Lost?
  {
    hide Decision;
  }

  lemma SignedIsPut(hash: Object -> Id, actions: seq<Action>, who: nat, signed: Object)
    requires Injective(hash) && who in Run(hash, actions).pushers && Run(hash, actions).pushers[who].phase.Updating?
    requires Run(hash, actions).pushers[who].phase.id == hash(signed)
    ensures hash(signed) in Run(hash, actions).objects && Run(hash, actions).objects[hash(signed)] == signed
  {
    hide Run, Linear, Credited, Recorded;
    RunSound(hash, actions);
    assert Prepared(Run(hash, actions), Run(hash, actions).pushers[who]);
  }

  lemma AttemptNumber(hash: Object -> Id, actions: seq<Action>, who: nat)
    requires Injective(hash) && who in Run(hash, actions).pushers && Run(hash, actions).pushers[who].phase.Updating?
    ensures Run(hash, actions).pushers[who].phase.attempt == |TrackOf(hash, actions, who).updatedAt|
  {
    hide Run, Injective, Beaten, LogAt;
    RunTracked(hash, actions, who);
  }

  /** The retry: a run whose first update was beaten commits on the head it then reads,
      whenever its ref gains no other commit before its second update. */
  lemma RetryCommits(hash: Object -> Id, actions: seq<Action>, who: nat, first: nat, read: nat, put: nat, update: nat,
                     content: string)
    requires Injective(hash) && IsAttempt(actions, who, read, put, update, content)
    requires first < read && forall k | first < k < read :: actions[k].who != who
    requires TrackOf(hash, actions[..first + 1], who).updatedAt == [first]
    requires who in Run(hash, actions[..first + 1]).pushers && !Run(hash, actions[..first + 1]).pushers[who].phase.Won?
    ensures var ref := Run(hash, actions[..first + 1]).pushers[who].ref;
            |LogAt(hash, actions, update, ref)| == |LogAt(hash, actions, read, ref)| ==>
              && who in Run(hash, actions[..update + 1]).pushers
              && Run(hash, actions[..update + 1]).pushers[who].phase.Won?
              && LogAt(hash, actions, update + 1, ref)
              == LogAt(hash, actions, update, ref) +
                 [Commit(hash(Object(HeadOf(Run(hash, actions[..read]), ref), content)), who)]
  {
    hide Run, Injective, Log, HeadOf;
    RunTracked(hash, actions[..first + 1], who);
    StaysPut(hash, actions, who, first + 1, read);
    AttemptDecides(hash, actions, who, read, put, update, content);
  }
}
