/** The authenticated-operation ledger of `apps/mkit-worker-common/src/replay.rs`:
    a table of nonce reservations, one row per scope, and its clients. A stored
    reply is kept as the value that its JSON text encodes. */
module Ledger {
  import opened Option

  datatype Proof = Proof(scope: string, author: string, fingerprint: string, expires: int)

  datatype Reply = Reply(status: nat, body: string)

  datatype Row = Row(fingerprint: string, expires: int, reply: Option<Reply>)

  type Table = map<string, Row>

  datatype Outcome<+T> = Ok(value: T) | Err(reason: string)

  /** What `admit` says of a new operation. */
  datatype Admission = Admitted | Rejected(reply: Reply) | Failed(reason: string)

  /** `None`, `Some(None)` and `Some(Some(reply))` of `reserve`. */
  datatype Reserved = Fresh | Interrupted | Answered(reply: Reply)

  const EXPIRED := "signed operation expired"
  const REUSED := "nonce reused for a different operation"
  const INCOMPLETE := "incomplete name transaction"

  function Live(rows: Table, now: int): (live: Table) {
    map scope | scope in rows && rows[scope].expires >= now :: rows[scope]
  }

  /** The answer of `reserve`. */
  function Reservation(rows: Table, proof: Proof, now: int, admission: Admission): (r: Outcome<Reserved>) {
    if now > proof.expires then Err(EXPIRED)
    else if proof.scope in rows then
      var row := rows[proof.scope];
      if row.fingerprint != proof.fingerprint then Err(REUSED)
      else if row.reply.Some? then Ok(Answered(row.reply.value))
      else Ok(Interrupted)
    else
      match admission
      case Failed(reason) => Err(reason)
      case Rejected(reply) => Ok(Answered(reply))
      case Admitted => Ok(Fresh)
  }

  /** The table after `reserve`: only a fresh reservation prunes and inserts. */
  function ReservedRows(rows: Table, proof: Proof, now: int, admission: Admission): (next: Table) {
    if Reservation(rows, proof, now, admission) == Ok(Fresh)
    then Live(rows, now)[proof.scope := Row(proof.fingerprint, proof.expires, None)]
    else rows
  }

  /** The table after `finish`. */
  function FinishedRows(rows: Table, proof: Proof, reply: Reply): (next: Table) {
    if proof.scope in rows && rows[proof.scope].fingerprint == proof.fingerprint
    then rows[proof.scope := rows[proof.scope].(reply := Some(reply))]
    else rows
  }

  /** The table `authenticated_operations`. */
  class Operations {
    var rows: Table

    constructor ()
      ensures rows == map[]
    {
      rows := map[];
    }

    /** Check, admit, prune and insert. */
    method Reserve(proof: Proof, now: int, admission: Admission) returns (r: Outcome<Reserved>)
      modifies this
      ensures r == Reservation(old(rows), proof, now, admission)
      ensures rows == ReservedRows(old(rows), proof, now, admission)
      ensures now > proof.expires ==> r == Err("signed operation expired")
      ensures now <= proof.expires && proof.scope in old(rows) && old(rows)[proof.scope].fingerprint != proof.fingerprint ==>
                r == Err("nonce reused for a different operation")
      ensures now <= proof.expires && proof.scope in old(rows) && old(rows)[proof.scope].fingerprint == proof.fingerprint ==>
                match old(rows)[proof.scope].reply {
                  case None => r == Ok(Interrupted)
                  case Some(reply) => r == Ok(Answered(reply))
                }
      ensures now <= proof.expires && proof.scope !in old(rows) ==>
                match admission {
                  case Failed(reason) => r == Err(reason)
                  case Rejected(reply) => r == Ok(Answered(reply))
                  case Admitted => r == Ok(Fresh)
                }
      ensures now > proof.expires || proof.scope in old(rows) || !admission.Admitted? ==> rows == old(rows)
      ensures now <= proof.expires && proof.scope !in old(rows) && admission.Admitted? ==>
                && proof.scope in rows && rows[proof.scope] == Row(proof.fingerprint, proof.expires, None)
                && forall scope | scope != proof.scope ::
                     && (scope in rows <==> scope in old(rows) && old(rows)[scope].expires >= now)
                     && (scope in rows ==> rows[scope] == old(rows)[scope])
    {
      if now > proof.expires {
        return Err(EXPIRED);
      }
      if proof.scope in rows {
        var row := rows[proof.scope];
        if row.fingerprint != proof.fingerprint {
          return Err(REUSED);
        }
        return Ok(if row.reply.Some? then Answered(row.reply.value) else Interrupted);
      }
      match admission {
        case Failed(reason) =>
          return Err(reason);
        case Rejected(reply) =>
          return Ok(Answered(reply));
        case Admitted =>
      }
      rows := map scope | scope in rows && !(rows[scope].expires < now) :: rows[scope];
      rows := rows[proof.scope := Row(proof.fingerprint, proof.expires, None)];
      return Ok(Fresh);
    }

    method Finish(proof: Proof, reply: Reply)
      modifies this
      ensures rows == FinishedRows(old(rows), proof, reply)
      ensures rows.Keys == old(rows).Keys
      ensures forall scope | scope in rows ::
                rows[scope] == (if scope == proof.scope && old(rows)[scope].fingerprint == proof.fingerprint
                                then Row(proof.fingerprint, old(rows)[scope].expires, Some(reply)) else old(rows)[scope])
    {
      if proof.scope in rows && rows[proof.scope].fingerprint == proof.fingerprint {
        rows := rows[proof.scope := rows[proof.scope].(reply := Some(reply))];
      }
    }
  }

  // -------------------------------------------------------------- a transaction

  /** An operation's effect, and whether the operation completed with it. */
  datatype Effect = Effect(fingerprint: string, reply: Reply, complete: bool)

  /** The ledger, every admission charge and every effect ever committed. */
  datatype Db = Db(rows: Table, charges: seq<string>, effects: seq<Effect>)

  const EMPTY := Db(map[], [], [])

  /** One call of a client: what admission and the action would say, whether the
      action completes the operation, and whether an interrupted reservation is an
      error (`set_name`) or is carried on (object publication). An action that
      fails, a fault or a crash before the commit is `action == Err(...)`. */
  datatype Request = Request(
    proof: Proof, now: int, admission: Admission, action: Outcome<Reply>, complete: bool, strict: bool)

  /** The action and `finish`, inside the transaction. */
  function Acted(db: Db, req: Request, reply: Reply): (next: Db) {
    Db(if req.complete then FinishedRows(db.rows, req.proof, reply) else db.rows,
       db.charges,
       db.effects + [Effect(req.proof.fingerprint, reply, req.complete)])
  }

  function Reserving(db: Db, req: Request): (next: Db) {
    Db(ReservedRows(db.rows, req.proof, req.now, req.admission),
       db.charges + (if Reservation(db.rows, req.proof, req.now, req.admission) == Ok(Fresh)
                     then [req.proof.fingerprint] else []),
       db.effects)
  }

  /** What the client gets back. */
  function Response(db: Db, req: Request): (r: Outcome<Reply>) {
    match Reservation(db.rows, req.proof, req.now, req.admission)
    case Err(reason) => Err(reason)
    case Ok(Answered(reply)) => Ok(reply)
    case Ok(Interrupted) => if req.strict then Err(INCOMPLETE) else req.action
    case Ok(Fresh) => req.action
  }

  predicate Acts(db: Db, req: Request) {
    var r := Reservation(db.rows, req.proof, req.now, req.admission);
    (r == Ok(Fresh) || (r == Ok(Interrupted) && !req.strict)) && req.action.Ok?
  }

  /** One transaction: everything commits together, or nothing does. */
  function Committed(db: Db, req: Request): (next: Db) {
    if Acts(db, req) then Acted(Reserving(db, req), req, req.action.value) else db
  }

  // ------------------------------------------------------------------- set_name

  /** Where an injected failure strikes `set_name`. */
  datatype Fault = NoFault | AfterName | AfterResult

  /** The request a `set_name` call makes of the ledger. */
  function NameRequest(proof: Proof, now: int, record: string, fault: Fault): (req: Request) {
    Request(proof, now, Admitted,
            match fault
            case NoFault => Ok(Reply(200, record))
            case AfterName => Err("injected failure after name write")
            case AfterResult => Err("injected failure after result write"),
            true, true)
  }

  /** One name object: its ledger, its current record, and the log of effects. */
  class NameStore {
    const operations: Operations
    var name: Option<string>
    ghost var charges: seq<string>
    ghost var effects: seq<Effect>

    ghost function Contents(): (db: Db)
      reads this, operations
    {
      Db(operations.rows, charges, effects)
    }

    constructor ()
      ensures fresh(operations) && Contents() == EMPTY && name == None
    {
      operations := new Operations();
      name, charges, effects := None, [], [];
    }

    /** The transaction of `set_name`: reserve, write the name, store the reply. An
        error puts every table back. */
    method SetName(proof: Proof, now: int, record: string, fault: Fault) returns (r: Outcome<Reply>)
      modifies this, operations
      ensures r == Response(old(Contents()), NameRequest(proof, now, record, fault))
      ensures Contents() == Committed(old(Contents()), NameRequest(proof, now, record, fault))
      ensures name == if Acts(old(Contents()), NameRequest(proof, now, record, fault)) then Some(record) else old(name)
      ensures now > proof.expires ==> r == Err("signed operation expired")
      ensures now <= proof.expires && proof.scope in old(operations.rows) ==>
                r == if old(operations.rows)[proof.scope].fingerprint != proof.fingerprint
                     then Err("nonce reused for a different operation")
                     else match old(operations.rows)[proof.scope].reply {
                       case None => Err("incomplete name transaction")
                       case Some(reply) => Ok(reply)
                     }
      ensures now > proof.expires || proof.scope in old(operations.rows) || !fault.NoFault? ==>
                Contents() == old(Contents()) && name == old(name)
      ensures now <= proof.expires && proof.scope !in old(operations.rows) ==>
                r == match fault {
                  case NoFault => Ok(Reply(200, record))
                  case AfterName => Err("injected failure after name write")
                  case AfterResult => Err("injected failure after result write")
                }
      ensures now <= proof.expires && proof.scope !in old(operations.rows) && fault.NoFault? ==>
                && name == Some(record) && proof.scope in operations.rows
                && operations.rows[proof.scope] == Row(proof.fingerprint, proof.expires, Some(Reply(200, record)))
    {
      var savedRows, savedName := operations.rows, name;
      var reserved := operations.Reserve(proof, now, Admitted);
      if reserved.Err? {
        return Err(reserved.reason);
      }
      match reserved.value {
        case Answered(reply) =>
          return Ok(reply);
        case Interrupted =>
          return Err(INCOMPLETE);
        case Fresh =>
      }
      name := Some(record);
      if fault == AfterName {
        operations.rows, name := savedRows, savedName;
        return Err("injected failure after name write");
      }
      var reply := Reply(200, record);
      operations.Finish(proof, reply);
      if fault == AfterResult {
        operations.rows, name := savedRows, savedName;
        return Err("injected failure after result write");
      }
      charges := charges + [proof.fingerprint];
      effects := effects + [Effect(proof.fingerprint, reply, true)];
      return Ok(reply);
    }
  }
}
