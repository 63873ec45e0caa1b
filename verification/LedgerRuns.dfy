/** Exactly-once effects over whole runs of requests, retries, aborted transactions
    and expiry pruning. */
module LedgerRuns {
  import opened Option
  import opened Ledger

  function Run(reqs: seq<Request>): (db: Db) {
    if reqs == [] then EMPTY else Committed(Run(reqs[..|reqs| - 1]), reqs[|reqs| - 1])
  }

  /** What request `k` of a run is answered. */
  function AnswerTo(reqs: seq<Request>, k: nat): (r: Outcome<Reply>)
    requires k < |reqs|
  {
    Response(Run(reqs[..k]), reqs[k])
  }

  predicate Monotone(reqs: seq<Request>) {
    forall i, j | 0 <= i < j < |reqs| :: reqs[i].now <= reqs[j].now
  }

  /** A fingerprint determines the scope and the expiry of its operation. */
  predicate Determined(reqs: seq<Request>, scopeOf: string -> string, expiryOf: string -> int) {
    forall i | 0 <= i < |reqs| ::
      && reqs[i].proof.scope == scopeOf(reqs[i].proof.fingerprint)
      && reqs[i].proof.expires == expiryOf(reqs[i].proof.fingerprint)
  }

  /** `fp` has its row, or its time is past. */
  predicate Held(rows: Table, fp: string, scopeOf: string -> string, expiryOf: string -> int, clock: int) {
    || (scopeOf(fp) in rows && rows[scopeOf(fp)].fingerprint == fp)
    || expiryOf(fp) < clock
  }

  /** What every run keeps. */
  ghost predicate Sound(db: Db, scopeOf: string -> string, expiryOf: string -> int, clock: int) {
    && (forall s | s in db.rows ::
          && s == scopeOf(db.rows[s].fingerprint)
          && db.rows[s].expires == expiryOf(db.rows[s].fingerprint)
          && db.rows[s].fingerprint in db.charges)
    && (forall i, j | 0 <= i < j < |db.charges| :: db.charges[i] != db.charges[j])
    && (forall fp | fp in db.charges :: Held(db.rows, fp, scopeOf, expiryOf, clock))
    && (forall e | e in db.effects :: e.fingerprint in db.charges)
    && (forall e | e in db.effects && e.complete ::
          scopeOf(e.fingerprint) in db.rows && db.rows[scopeOf(e.fingerprint)].fingerprint == e.fingerprint ==>
            db.rows[scopeOf(e.fingerprint)].reply == Some(e.reply))
    && (forall i, j | 0 <= i < j < |db.effects| && db.effects[i].fingerprint == db.effects[j].fingerprint ::
          !db.effects[i].complete)
  }

  lemma SoundLater(db: Db, scopeOf: string -> string, expiryOf: string -> int, clock: int, later: int)
    requires Sound(db, scopeOf, expiryOf, clock) && clock <= later
    ensures Sound(db, scopeOf, expiryOf, later)
  {
  }

  /** A fingerprint that is admitted afresh was never charged before. */
  lemma FreshIsNew(db: Db, req: Request, scopeOf: string -> string, expiryOf: string -> int)
    requires Sound(db, scopeOf, expiryOf, req.now) && Determined([req], scopeOf, expiryOf)
    requires Reservation(db.rows, req.proof, req.now, req.admission) == Ok(Fresh)
    ensures req.proof.fingerprint !in db.charges
  {
    assert [req][0] == req;
  }

  lemma ReservingSound(db: Db, req: Request, scopeOf: string -> string, expiryOf: string -> int)
    requires Sound(db, scopeOf, expiryOf, req.now) && Determined([req], scopeOf, expiryOf)
    ensures Sound(Reserving(db, req), scopeOf, expiryOf, req.now)
  {
    assert [req][0] == req;
    if Reservation(db.rows, req.proof, req.now, req.admission) == Ok(Fresh) {
      FreshIsNew(db, req, scopeOf, expiryOf);
      var next, fp := Reserving(db, req), req.proof.fingerprint;
      forall f | f in next.charges
        ensures Held(next.rows, f, scopeOf, expiryOf, req.now)
      {
        if f != fp {
          assert f in db.charges && Held(db.rows, f, scopeOf, expiryOf, req.now);
        }
      }
    }
  }

  /** Acting on a row that has no reply yet. */
  lemma ActedSound(db: Db, req: Request, reply: Reply, scopeOf: string -> string, expiryOf: string -> int)
    requires Sound(db, scopeOf, expiryOf, req.now)
    requires req.proof.scope == scopeOf(req.proof.fingerprint) && req.proof.scope in db.rows
    requires db.rows[req.proof.scope].fingerprint == req.proof.fingerprint
    requires db.rows[req.proof.scope].reply.None?
    ensures Sound(Acted(db, req, reply), scopeOf, expiryOf, req.now)
  {
    assert forall e | e in db.effects && e.complete :: e.fingerprint != req.proof.fingerprint;
  }

  lemma DeterminedOne(req: Request, scopeOf: string -> string, expiryOf: string -> int)
    requires Determined([req], scopeOf, expiryOf)
    ensures req.proof.scope == scopeOf(req.proof.fingerprint)
    ensures req.proof.expires == expiryOf(req.proof.fingerprint)
  {
    assert [req][0] == req;
  }

  lemma {:induction false} RunSound(reqs: seq<Request>, scopeOf: string -> string, expiryOf: string -> int, clock: int)
    requires Monotone(reqs) && Determined(reqs, scopeOf, expiryOf)
    requires forall i | 0 <= i < |reqs| :: reqs[i].now <= clock
    ensures Sound(Run(reqs), scopeOf, expiryOf, clock)
  {
    hide Sound, Committed, Acts;
    if reqs == [] {
      EmptySound(scopeOf, expiryOf, clock);
    } else {
      var init, req := reqs[..|reqs| - 1], reqs[|reqs| - 1];
      RunSound(init, scopeOf, expiryOf, req.now);
      StepSound(Run(init), req, scopeOf, expiryOf);
      SoundLater(Run(reqs), scopeOf, expiryOf, req.now, clock);
    }
  }

  lemma EmptySound(scopeOf: string -> string, expiryOf: string -> int, clock: int)
    ensures Sound(EMPTY, scopeOf, expiryOf, clock)
  {
  }

  lemma StepSound(db: Db, req: Request, scopeOf: string -> string, expiryOf: string -> int)
    requires Sound(db, scopeOf, expiryOf, req.now) && Determined([req], scopeOf, expiryOf)
    ensures Sound(Committed(db, req), scopeOf, expiryOf, req.now)
  {
    hide Sound;
    if Acts(db, req) {
      DeterminedOne(req, scopeOf, expiryOf);
      ReservingSound(db, req, scopeOf, expiryOf);
      ActedSound(Reserving(db, req), req, req.action.value, scopeOf, expiryOf);
    }
  }

  lemma LastClock(reqs: seq<Request>) returns (clock: int)
    requires Monotone(reqs)
    ensures forall i | 0 <= i < |reqs| :: reqs[i].now <= clock
  {
    clock := if reqs == [] then 0 else reqs[|reqs| - 1].now;
  }

  /** Each fingerprint is charged at most once, and nothing is applied for it after
      an effect that completed it. */
  lemma AtMostOnce(reqs: seq<Request>, scopeOf: string -> string, expiryOf: string -> int)
    requires Monotone(reqs) && Determined(reqs, scopeOf, expiryOf)
    ensures forall i, j | 0 <= i < j < |Run(reqs).charges| :: Run(reqs).charges[i] != Run(reqs).charges[j]
    ensures forall i, j | 0 <= i < j < |Run(reqs).effects| && Run(reqs).effects[i].complete ::
              Run(reqs).effects[i].fingerprint != Run(reqs).effects[j].fingerprint
    ensures forall e | e in Run(reqs).effects :: e.fingerprint in Run(reqs).charges
  {
    hide Run;
    var clock := LastClock(reqs);
    RunSound(reqs, scopeOf, expiryOf, clock);
  }

  /** Every later success returns the first stored reply. */
  lemma FirstReplyForever(reqs: seq<Request>, k: nat, scopeOf: string -> string, expiryOf: string -> int, e: Effect)
    requires Monotone(reqs) && Determined(reqs, scopeOf, expiryOf) && k < |reqs|
    requires e in Run(reqs[..k]).effects && e.complete
    requires reqs[k].proof.fingerprint == e.fingerprint && AnswerTo(reqs, k).Ok?
    ensures AnswerTo(reqs, k) == Ok(e.reply)
    ensures Run(reqs[..k + 1]) == Run(reqs[..k])
  {
    var db, req := Run(reqs[..k]), reqs[k];
    RunSound(reqs[..k], scopeOf, expiryOf, req.now);
    assert reqs[..k + 1][..k] == reqs[..k];
    hide Run;
    assert Held(db.rows, e.fingerprint, scopeOf, expiryOf, req.now);
  }

  // ---------------------------------------------------------- what every call is answered

  /** Request `k` of a run is answered `r` and changes nothing. */
  predicate Refused(reqs: seq<Request>, k: nat, r: Outcome<Reply>)
    requires k < |reqs|
  {
    AnswerTo(reqs, k) == r && Run(reqs[..k + 1]) == Run(reqs[..k])
  }

  lemma OneMoreRequest(reqs: seq<Request>, k: nat)
    requires k < |reqs|
    ensures Run(reqs[..k + 1]) == Committed(Run(reqs[..k]), reqs[k])
  {
    assert reqs[..k + 1][..k] == reqs[..k];
  }

  /** An operation past its time is an error. */
  lemma ExpiredIsRefused(reqs: seq<Request>, k: nat)
    requires k < |reqs| && reqs[k].now > reqs[k].proof.expires
    ensures Refused(reqs, k, Err("signed operation expired"))
  {
    OneMoreRequest(reqs, k);
  }

  /** A nonce that holds another operation is an error, whether or not that one was answered. */
  lemma ReusedIsRefused(reqs: seq<Request>, k: nat)
    requires k < |reqs| && reqs[k].now <= reqs[k].proof.expires && reqs[k].proof.scope in Run(reqs[..k]).rows
    requires Run(reqs[..k]).rows[reqs[k].proof.scope].fingerprint != reqs[k].proof.fingerprint
    ensures Refused(reqs, k, Err("nonce reused for a different operation"))
  {
    OneMoreRequest(reqs, k);
  }

  /** A retry of an operation that was answered gets that answer. */
  lemma RetryIsAnswered(reqs: seq<Request>, k: nat)
    requires k < |reqs| && reqs[k].now <= reqs[k].proof.expires && reqs[k].proof.scope in Run(reqs[..k]).rows
    requires var row := Run(reqs[..k]).rows[reqs[k].proof.scope];
             row.fingerprint == reqs[k].proof.fingerprint && row.reply.Some?
    ensures Refused(reqs, k, Ok(Run(reqs[..k]).rows[reqs[k].proof.scope].reply.value))
  {
    OneMoreRequest(reqs, k);
  }

  /** A retry of one that was not answered is an error for `set_name`, and is otherwise
      carried on without a second charge. */
  lemma InterruptedIsCarriedOn(reqs: seq<Request>, k: nat)
    requires k < |reqs| && reqs[k].now <= reqs[k].proof.expires && reqs[k].proof.scope in Run(reqs[..k]).rows
    requires var row := Run(reqs[..k]).rows[reqs[k].proof.scope];
             row.fingerprint == reqs[k].proof.fingerprint && row.reply.None?
    ensures reqs[k].strict ==> Refused(reqs, k, Err("incomplete name transaction"))
    ensures !reqs[k].strict && reqs[k].action.Err? ==> Refused(reqs, k, reqs[k].action)
    ensures var db, next, req := Run(reqs[..k]), Run(reqs[..k + 1]), reqs[k];
            !req.strict && req.action.Ok? ==>
              && AnswerTo(reqs, k) == req.action && next.charges == db.charges
              && next.effects == db.effects + [Effect(req.proof.fingerprint, req.action.value, req.complete)]
              && next.rows == (if req.complete
                               then db.rows[req.proof.scope := db.rows[req.proof.scope].(reply := Some(req.action.value))]
                               else db.rows)
  {
    OneMoreRequest(reqs, k);
  }

  /** A new operation that admission turns away is answered what admission says: no row,
      no charge, no effect. */
  lemma TurnedAwayIsAnswered(reqs: seq<Request>, k: nat)
    requires k < |reqs| && reqs[k].now <= reqs[k].proof.expires && reqs[k].proof.scope !in Run(reqs[..k]).rows
    ensures match reqs[k].admission {
              case Rejected(reply) => Refused(reqs, k, Ok(reply))
              case Failed(reason) => Refused(reqs, k, Err(reason))
              case Admitted => true
            }
  {
    OneMoreRequest(reqs, k);
  }

  /** A new operation that is admitted is answered by its action. It is charged, has its
      effect and its row, and drops every expired row, when the action succeeds; when it
      fails nothing of it remains. */
  lemma AdmittedIsCommitted(reqs: seq<Request>, k: nat)
    requires k < |reqs| && reqs[k].now <= reqs[k].proof.expires && reqs[k].proof.scope !in Run(reqs[..k]).rows
    requires reqs[k].admission.Admitted?
    ensures reqs[k].action.Err? ==> Refused(reqs, k, reqs[k].action)
    ensures var db, next, req := Run(reqs[..k]), Run(reqs[..k + 1]), reqs[k];
            req.action.Ok? ==>
              && AnswerTo(reqs, k) == req.action
              && next.charges == db.charges + [req.proof.fingerprint]
              && next.effects == db.effects + [Effect(req.proof.fingerprint, req.action.value, req.complete)]
              && req.proof.scope in next.rows
              && next.rows[req.proof.scope]
              == Row(req.proof.fingerprint, req.proof.expires, if req.complete then Some(req.action.value) else None)
              && forall scope | scope != req.proof.scope ::
                   && (scope in next.rows <==> scope in db.rows && db.rows[scope].expires >= req.now)
                   && (scope in next.rows ==> next.rows[scope] == db.rows[scope])
  {
    OneMoreRequest(reqs, k);
  }

  /** Request `m` went through: it was admitted in time and its action succeeded. */
  predicate WentThrough(req: Request, fp: string) {
    req.proof.fingerprint == fp && req.admission.Admitted? && req.now <= req.proof.expires && req.action.Ok?
  }

  /** Every charge belongs to a request that was admitted in time and succeeded. */
  lemma {:induction false} ChargesWereAdmitted(reqs: seq<Request>, fp: string)
    requires fp in Run(reqs).charges
    ensures exists m :: 0 <= m < |reqs| && WentThrough(reqs[m], fp)
  {
    var init, req := reqs[..|reqs| - 1], reqs[|reqs| - 1];
    if fp in Run(init).charges {
      ChargesWereAdmitted(init, fp);
      var m :| 0 <= m < |init| && WentThrough(init[m], fp);
      assert WentThrough(reqs[m], fp);
    } else {
      assert WentThrough(reqs[|reqs| - 1], fp);
    }
  }

  /** The request put this answer to this operation into the table. */
  predicate Stored(req: Request, proof: Proof, reply: Reply) {
    req.proof.scope == proof.scope && req.proof.fingerprint == proof.fingerprint && req.action == Ok(reply) && req.complete
  }

  lemma StoredBy(db: Db, req: Request, scope: string)
    requires scope in Committed(db, req).rows && Committed(db, req).rows[scope].reply.Some?
    ensures var row := Committed(db, req).rows[scope];
            || (scope in db.rows && db.rows[scope] == row)
            || (req.proof.scope == scope && req.proof.fingerprint == row.fingerprint && req.action == Ok(row.reply.value) &&
                req.complete)
  {
  }

  /** Every stored reply is what the action of a request for that very operation returned. */
  lemma {:induction false} RepliesAreOwn(reqs: seq<Request>, proof: Proof)
    requires proof.scope in Run(reqs).rows && Run(reqs).rows[proof.scope].fingerprint == proof.fingerprint
    requires Run(reqs).rows[proof.scope].reply.Some?
    ensures exists m :: 0 <= m < |reqs| && Stored(reqs[m], proof, Run(reqs).rows[proof.scope].reply.value)
  {
    hide Committed;
    var init, req, reply := reqs[..|reqs| - 1], reqs[|reqs| - 1], Run(reqs).rows[proof.scope].reply.value;
    StoredBy(Run(init), req, proof.scope);
    if Stored(req, proof, reply) {
      assert Stored(reqs[|reqs| - 1], proof, reply);
    } else {
      RepliesAreOwn(init, proof);
      var m :| 0 <= m < |init| && Stored(init[m], proof, reply);
      assert Stored(reqs[m], proof, reply);
    }
  }

  /** No client ever gets a reply to another operation: a successful answer is what its
      own action or its own rejection says, or what an earlier request for the same scope
      and fingerprint was answered. Whatever the clock does. */
  lemma AnswersAreOwn(reqs: seq<Request>, k: nat)
    requires k < |reqs| && AnswerTo(reqs, k).Ok?
    ensures var req, reply := reqs[k], AnswerTo(reqs, k).value;
            || req.action == Ok(reply)
            || req.admission == Rejected(reply)
            || exists m :: 0 <= m < k && Stored(reqs[m], req.proof, reply)
  {
    var db, req, reply := Run(reqs[..k]), reqs[k], AnswerTo(reqs, k).value;
    if req.action != Ok(reply) && req.admission != Rejected(reply) {
      RepliesAreOwn(reqs[..k], req.proof);
      var m :| 0 <= m < k && Stored(reqs[..k][m], req.proof, reply);
      assert Stored(reqs[m], req.proof, reply);
    }
  }

  // ------------------------------------------------------------------- set_name

  /** Every request completes in one transaction, and a half-done one is an error. */
  predicate NamesOnly(reqs: seq<Request>) {
    forall i | 0 <= i < |reqs| :: reqs[i].complete && reqs[i].strict
  }

  /** Every committed row has its reply. */
  lemma {:induction false} RowsHaveReplies(reqs: seq<Request>)
    requires NamesOnly(reqs)
    ensures forall s | s in Run(reqs).rows :: Run(reqs).rows[s].reply.Some?
    ensures forall e | e in Run(reqs).effects :: e.complete
  {
    if reqs != [] {
      RowsHaveReplies(reqs[..|reqs| - 1]);
    }
  }

  /** So "incomplete name transaction" is never the answer, whatever the clock does. */
  lemma NeverIncomplete(reqs: seq<Request>, k: nat)
    requires NamesOnly(reqs) && k < |reqs|
    ensures Reservation(Run(reqs[..k]).rows, reqs[k].proof, reqs[k].now, reqs[k].admission) != Ok(Interrupted)
    ensures AnswerTo(reqs, k) == Err(INCOMPLETE) ==>
              || reqs[k].action == Err(INCOMPLETE)
              || reqs[k].admission == Failed(INCOMPLETE)
  {
    RowsHaveReplies(reqs[..k]);
  }

  /** The name of each fingerprint is written at most once. */
  lemma NameWrittenOnce(reqs: seq<Request>, scopeOf: string -> string, expiryOf: string -> int)
    requires Monotone(reqs) && Determined(reqs, scopeOf, expiryOf) && NamesOnly(reqs)
    ensures var effects := Run(reqs).effects;
            forall i, j | 0 <= i < j < |effects| :: effects[i].fingerprint != effects[j].fingerprint
  {
    AtMostOnce(reqs, scopeOf, expiryOf);
    RowsHaveReplies(reqs);
  }

  /** Request `m` of a run reserved afresh, and so pruned what had expired by then. */
  predicate Prunes(reqs: seq<Request>, m: nat)
    requires m < |reqs|
  {
    var db, req := Run(reqs[..m]), reqs[m];
    Reservation(db.rows, req.proof, req.now, req.admission) == Ok(Fresh) && req.action.Ok?
  }

  predicate HasRow(rows: Table, fp: string, scopeOf: string -> string) {
    scopeOf(fp) in rows && rows[scopeOf(fp)].fingerprint == fp
  }

  /** A row that was there before one more request is still there, unless that pruned it. */
  lemma RowStays(db: Db, req: Request, scopeOf: string -> string, expiryOf: string -> int, fp: string)
    requires Determined([req], scopeOf, expiryOf) && HasRow(db.rows, fp, scopeOf) && db.rows[scopeOf(fp)].expires == expiryOf(fp)
    requires !(Reservation(db.rows, req.proof, req.now, req.admission) == Ok(Fresh) && req.action.Ok? && req.now > expiryOf(fp))
    ensures HasRow(Committed(db, req).rows, fp, scopeOf) && Committed(db, req).rows[scopeOf(fp)].expires == expiryOf(fp)
  {
    DeterminedOne(req, scopeOf, expiryOf);
  }

  lemma ChargeLeavesRow(db: Db, req: Request, scopeOf: string -> string, expiryOf: string -> int, fp: string)
    requires Determined([req], scopeOf, expiryOf) && fp in Committed(db, req).charges && fp !in db.charges
    ensures HasRow(Committed(db, req).rows, fp, scopeOf) && Committed(db, req).rows[scopeOf(fp)].expires == expiryOf(fp)
  {
    DeterminedOne(req, scopeOf, expiryOf);
  }

  /** Whatever the clock does, a charged fingerprint has its row until a later
      reservation, made after its expiry, prunes it. */
  lemma {:induction false} RowUntilPruned(reqs: seq<Request>, scopeOf: string -> string, expiryOf: string -> int, fp: string)
    requires Determined(reqs, scopeOf, expiryOf) && fp in Run(reqs).charges
    ensures || (HasRow(Run(reqs).rows, fp, scopeOf) && Run(reqs).rows[scopeOf(fp)].expires == expiryOf(fp))
            || exists m :: 0 <= m < |reqs| && Prunes(reqs, m) && reqs[m].now > expiryOf(fp)
  {
    hide Committed, HasRow, Prunes;
    var init, req, k := reqs[..|reqs| - 1], reqs[|reqs| - 1], |reqs| - 1;
    if fp in Run(init).charges {
      RowUntilPruned(init, scopeOf, expiryOf, fp);
      if m :| 0 <= m < |init| && Prunes(init, m) && init[m].now > expiryOf(fp) {
        PrunesInit(reqs, m);
      } else if !(Prunes(reqs, k) && req.now > expiryOf(fp)) {
        PrunesLast(reqs);
        RowStays(Run(init), req, scopeOf, expiryOf, fp);
      }
    } else {
      ChargeLeavesRow(Run(init), req, scopeOf, expiryOf, fp);
    }
  }

  lemma PrunesInit(reqs: seq<Request>, m: nat)
    requires m < |reqs| - 1
    ensures Prunes(reqs[..|reqs| - 1], m) == Prunes(reqs, m) && reqs[..|reqs| - 1][m] == reqs[m]
  {
    assert reqs[..|reqs| - 1][..m] == reqs[..m];
  }

  lemma PrunesLast(reqs: seq<Request>)
    requires reqs != []
    ensures var db, req := Run(reqs[..|reqs| - 1]), reqs[|reqs| - 1];
            Prunes(reqs, |reqs| - 1) <==>
              Reservation(db.rows, req.proof, req.now, req.admission) == Ok(Fresh) && req.action.Ok?
  {
  }

  /** Exactly when a fingerprint is charged again, whatever the clock does: its scope is
      free, because a reservation made after its expiry pruned the row, and the clock now
      reads no later than that expiry: it has gone back. */
  lemma ChargedAgainIff(reqs: seq<Request>, k: nat, scopeOf: string -> string, expiryOf: string -> int)
    requires Determined(reqs, scopeOf, expiryOf) && k < |reqs|
    requires reqs[k].proof.fingerprint in Run(reqs[..k]).charges
    requires reqs[k].admission.Admitted? && reqs[k].action.Ok?
    ensures var db, proof := Run(reqs[..k]), reqs[k].proof;
            && (Run(reqs[..k + 1]).charges == db.charges + [proof.fingerprint] <==>
                  proof.scope !in db.rows && reqs[k].now <= proof.expires)
            && (Run(reqs[..k + 1]).charges != db.charges + [proof.fingerprint] ==> Run(reqs[..k + 1]).charges == db.charges)
            && (proof.scope !in db.rows ==> exists m :: 0 <= m < k && Prunes(reqs[..k], m) && reqs[m].now > proof.expires)
  {
    var init, req := reqs[..k], reqs[k];
    assert reqs[..k + 1][..k] == init && reqs[..k + 1][k] == req;
    RowUntilPruned(init, scopeOf, expiryOf, req.proof.fingerprint);
    assert Determined([req], scopeOf, expiryOf) by { assert [req][0] == reqs[k]; }
    DeterminedOne(req, scopeOf, expiryOf);
    ChargesAfter(Run(init), req);
    hide Committed, Prunes;
    if req.proof.scope !in Run(init).rows {
      var m :| 0 <= m < |init| && Prunes(init, m) && init[m].now > expiryOf(req.proof.fingerprint);
      assert init[m] == reqs[m];
    }
  }

  lemma ChargesAfter(db: Db, req: Request)
    requires req.admission.Admitted? && req.action.Ok?
    ensures Committed(db, req).charges
         == db.charges + (if req.proof.scope !in db.rows && req.now <= req.proof.expires then [req.proof.fingerprint] else [])
  {
  }

  /** The clock assumption is needed: once a row is pruned, a clock that goes back
      lets the same fingerprint through again. */
  lemma ClockBackAppliesTwice()
    ensures var a := Request(Proof("s", "k", "f", 5), 5, Admitted, Ok(Reply(200, "a")), true, true);
            var b := Request(Proof("t", "k", "g", 9), 9, Admitted, Ok(Reply(200, "b")), true, true);
            Run([a, b, a]).charges == ["f", "g", "f"]
  {
    var a := Request(Proof("s", "k", "f", 5), 5, Admitted, Ok(Reply(200, "a")), true, true);
    var b := Request(Proof("t", "k", "g", 9), 9, Admitted, Ok(Reply(200, "b")), true, true);
    assert [a][..0] == [] && [a, b][..1] == [a] && [a, b, a][..2] == [a, b];
    assert Run([a]).charges == ["f"] && Run([a]).rows == map["s" := Row("f", 5, Some(Reply(200, "a")))];
    assert Run([a, b]).charges == ["f", "g"] && Run([a, b]).rows == map["t" := Row("g", 9, Some(Reply(200, "b")))];
  }
}
