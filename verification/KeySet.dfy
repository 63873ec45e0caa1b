/** The key set and two-phase verification of URL tokens
    (`scripts/golden/url_token_ref.py`). The key id of a public key and the signature
    test are parameters: what is proved holds for any of them. */
module KeySet {
  import opened Option
  import opened ByteStrings
  import opened Texts
  import opened Names
  import opened Statements
  import opened UrlToken

  const REJECTED := "invalid URL token"

  /** `key_id` (the head of a hash), the strict signature test over the statement's
      hash, and the IPv6 parser behind origins. */
  datatype Crypto = Crypto(keyId: Bytes -> string, signed: (Bytes, Bytes, Bytes) -> bool, ipv6: Ipv6Rule)

  datatype Retired = Retired(public: Bytes, at: nat)

  /** The configured keys and token lifetime; `active` is the seed's public key. */
  datatype Config = Config(active: Bytes, retired: seq<Retired>, ttl: nat)

  datatype Binding = Binding(audience: string, repository: string, target: Target)

  /** `min(U64_MAX, retired_at + ttl_ms)`. */
  function NotAfter(r: Retired, ttl: nat): (limit: nat) {
    if r.at + ttl < U64_MAX then r.at + ttl else U64_MAX
  }

  predicate Usable(crypto: Crypto, r: Retired, id: string, now: int, ttl: nat) {
    crypto.keyId(r.public) == id && 0 <= now < NotAfter(r, ttl)
  }

  function FirstUsable(crypto: Crypto, retired: seq<Retired>, id: string, now: int, ttl: nat): (key: Option<Bytes>) {
    if retired == [] then None
    else if Usable(crypto, retired[0], id, now, ttl) then Some(retired[0].public)
    else FirstUsable(crypto, retired[1..], id, now, ttl)
  }

  /** `verifying_key(seed, retired, id_hex, now_ms, ttl_ms)`. */
  function VerifyingKey(crypto: Crypto, config: Config, id: string, now: int): (key: Option<Bytes>) {
    if crypto.keyId(config.active) == id then Some(config.active)
    else FirstUsable(crypto, config.retired, id, now, config.ttl)
  }

  /** Retired key `i` still verifies: its id, a time from zero on, before its lifetime after
      retirement has passed and before the largest 64-bit time. */
  predicate StillVerifies(crypto: Crypto, config: Config, i: nat, id: string, now: int)
    requires i < |config.retired|
  {
    && crypto.keyId(config.retired[i].public) == id
    && 0 <= now && now < config.retired[i].at + config.ttl && now < 18_446_744_073_709_551_615
  }

  /** The key found: the active one by its id, else the first retired one that still verifies. */
  lemma VerifyingKeyIs(crypto: Crypto, config: Config, id: string, now: int)
    ensures crypto.keyId(config.active) == id ==> VerifyingKey(crypto, config, id, now) == Some(config.active)
    ensures crypto.keyId(config.active) != id ==>
              && (forall i: nat | i < |config.retired| && StillVerifies(crypto, config, i, id, now) &&
                                  forall j: nat | j < i :: !StillVerifies(crypto, config, j, id, now) ::
                    VerifyingKey(crypto, config, id, now) == Some(config.retired[i].public))
              && ((forall i: nat | i < |config.retired| :: !StillVerifies(crypto, config, i, id, now)) ==>
                    VerifyingKey(crypto, config, id, now) == None)
  {
    if crypto.keyId(config.active) != id {
      forall i: nat | i < |config.retired| && StillVerifies(crypto, config, i, id, now) &&
                      forall j: nat | j < i :: !StillVerifies(crypto, config, j, id, now)
        ensures VerifyingKey(crypto, config, id, now) == Some(config.retired[i].public)
      {
        forall j: nat | j < i
          ensures !Usable(crypto, config.retired[j], id, now, config.ttl)
        {
          assert !StillVerifies(crypto, config, j, id, now);
        }
        FirstUsableAt(crypto, config.retired, i, id, now, config.ttl);
      }
      if forall i: nat | i < |config.retired| :: !StillVerifies(crypto, config, i, id, now) {
        forall i: nat | i < |config.retired|
          ensures !Usable(crypto, config.retired[i], id, now, config.ttl)
        {
          assert !StillVerifies(crypto, config, i, id, now);
        }
        NoneUsable(crypto, config.retired, id, now, config.ttl);
      }
    }
  }

  lemma {:induction false} FirstUsableAt(crypto: Crypto, retired: seq<Retired>, i: nat, id: string, now: int, ttl: nat)
    requires i < |retired| && Usable(crypto, retired[i], id, now, ttl)
    requires forall j: nat | j < i :: !Usable(crypto, retired[j], id, now, ttl)
    ensures FirstUsable(crypto, retired, id, now, ttl) == Some(retired[i].public)
  {
    if i > 0 {
      assert forall j: nat | j < i - 1 :: retired[1..][j] == retired[j + 1];
      FirstUsableAt(crypto, retired[1..], i - 1, id, now, ttl);
    }
  }

  /** `precheck(cfg, token, now_ms)`. */
  function Precheck(crypto: Crypto, config: Config, token: string, now: int): (st: Result<Statement>) {
    match DecodeToken(token)
    case Reject(reason) => Reject(reason)
    case Ok((statement, signature)) =>
      match ParseStatement(crypto.ipv6, statement)
      case Reject(reason) => Reject(reason)
      case Ok(parsed) =>
        match VerifyingKey(crypto, config, parsed.keyId, now)
        case None => Reject(REJECTED)
        case Some(public) =>
          if crypto.signed(public, statement, signature) then Ok(parsed) else Reject(REJECTED)
  }

  /** `check_binding(parsed, audience, repository, target, now_ms, ttl_ms)`. */
  function CheckBinding(st: Statement, binding: Binding, now: int, ttl: nat): (epoch: Result<nat>) {
    if st.audience != binding.audience || st.repository != binding.repository || st.target != binding.target
    then Reject(REJECTED)
    else if now >= st.expiry then Reject(REJECTED)
    else if st.expiry - st.issued > ttl then Reject(REJECTED)
    else Ok(st.epoch)
  }

  /** Everything `verify` does before it reads the stored epoch. */
  function BeforeTheRead(crypto: Crypto, config: Config, token: string, binding: Binding, now: int): (epoch: Result<nat>) {
    match Precheck(crypto, config, token, now)
    case Reject(reason) => Reject(reason)
    case Ok(parsed) => CheckBinding(parsed, binding, now, config.ttl)
  }

  datatype Outcome = Accepted | Rejected(reason: string) | StoreDown

  /** The answer, given what the store holds (`None` when it cannot be read). */
  function Answer(crypto: Crypto, config: Config, token: string, binding: Binding, now: int, stored: Option<int>)
    : (outcome: Outcome)
  {
    match BeforeTheRead(crypto, config, token, binding, now)
    case Reject(reason) => Rejected(reason)
    case Ok(epoch) => if stored.None? then StoreDown else if stored.value == epoch then Accepted else Rejected(REJECTED)
  }

  /** The stored epoch behind `read_epoch`. */
  class EpochStore {
    var stored: Option<int>
    var readCount: nat

    method ReadEpoch() returns (epoch: Option<int>)
      modifies this`readCount
      ensures epoch == stored && readCount == old(readCount) + 1
    {
      readCount := readCount + 1;
      epoch := stored;
    }
  }

  /** `verify(cfg, token, binding, now_ms, read_epoch)`: the store is read once, and only
      for a token that passed everything else. */
  method Verify(crypto: Crypto, config: Config, token: string, binding: Binding, now: int, store: EpochStore)
    returns (outcome: Outcome)
    modifies store`readCount
    ensures outcome == Answer(crypto, config, token, binding, now, store.stored)
    ensures store.readCount == old(store.readCount) + if BeforeTheRead(crypto, config, token, binding, now).Ok? then 1 else 0
    ensures outcome.Accepted? || outcome.StoreDown? ==> store.readCount == old(store.readCount) + 1
  {
    hide Precheck, CheckBinding;
    var parsed := Precheck(crypto, config, token, now);
    if parsed.Reject? {
      return Rejected(parsed.reason);
    }
    var epoch := CheckBinding(parsed.value, binding, now, config.ttl);
    if epoch.Reject? {
      return Rejected(epoch.reason);
    }
    var stored := store.ReadEpoch();
    if stored.None? {
      return StoreDown;
    }
    return if stored.value != epoch.value then Rejected(REJECTED) else Accepted;
  }

  // ---------------------------------------------------------------- what is accepted

  /** Everything acceptance asks for, said of the statement and not of its bytes. */
  ghost predicate Acceptable(crypto: Crypto, config: Config, st: Statement, signature: Bytes, binding: Binding, now: int,
                             stored: Option<int>)
  {
    && StatementOk(crypto.ipv6, st) && |signature| == SIGNATURE_BYTES
    && |BuildStatement(crypto.ipv6, st)| <= MAX_STATEMENT_BYTES
    && Binding(st.audience, st.repository, st.target) == binding
    && now < st.expiry <= st.issued + config.ttl
    && stored == Some(st.epoch)
    && (var key := VerifyingKey(crypto, config, st.keyId, now);
        key.Some? && crypto.signed(key.value, BuildStatement(crypto.ipv6, st), signature))
  }

  lemma PrecheckFinds(crypto: Crypto, config: Config, token: string, now: int, st: Statement)
    ensures Precheck(crypto, config, token, now) == Ok(st) <==>
              exists signature :: Carries(crypto, config, token, now, st, signature)
  {
    hide DecodeToken, ParseStatement, StatementOk, BuildStatement, VerifyingKey, EncodeToken;
    if Precheck(crypto, config, token, now) == Ok(st) {
      var (data, signature) := DecodeToken(token).value;
      TokenRoundTrip(token, data, signature);
      StatementRoundTrip(crypto.ipv6, data, st);
      assert Carries(crypto, config, token, now, st, signature);
    }
    if signature :| Carries(crypto, config, token, now, st, signature) {
      var data := BuildStatement(crypto.ipv6, st);
      StatementRoundTrip(crypto.ipv6, data, st);
      TokenOfStatement(crypto.ipv6, data, signature);
    }
  }

  /** The token carries `st` under `signature`, signed with a key of the set. */
  ghost predicate Carries(crypto: Crypto, config: Config, token: string, now: int, st: Statement, signature: Bytes) {
    && StatementOk(crypto.ipv6, st) && |signature| == SIGNATURE_BYTES
    && var data := BuildStatement(crypto.ipv6, st);
       && |data| <= MAX_STATEMENT_BYTES && token == EncodeToken(data, signature)
       && var key := VerifyingKey(crypto, config, st.keyId, now);
          key.Some? && crypto.signed(key.value, data, signature)
  }

  /** A token is accepted exactly when it is the encoding of a well-formed statement
      that is bound to the request, current, of this epoch and properly signed. */
  lemma AcceptedExactly(crypto: Crypto, config: Config, token: string, binding: Binding, now: int, stored: Option<int>)
    ensures Answer(crypto, config, token, binding, now, stored) == Accepted <==>
              exists st: Statement, signature: Bytes ::
                Acceptable(crypto, config, st, signature, binding, now, stored) &&
                token == EncodeToken(BuildStatement(crypto.ipv6, st), signature)
  {
    hide Precheck, StatementOk, BuildStatement, VerifyingKey, EncodeToken;
    if Answer(crypto, config, token, binding, now, stored) == Accepted {
      var st := Precheck(crypto, config, token, now).value;
      PrecheckFinds(crypto, config, token, now, st);
      var signature :| Carries(crypto, config, token, now, st, signature);
      assert Acceptable(crypto, config, st, signature, binding, now, stored);
    }
    if exists st: Statement, signature: Bytes ::
         Acceptable(crypto, config, st, signature, binding, now, stored) &&
         token == EncodeToken(BuildStatement(crypto.ipv6, st), signature) {
      var st: Statement, signature: Bytes :|
        Acceptable(crypto, config, st, signature, binding, now, stored) &&
        token == EncodeToken(BuildStatement(crypto.ipv6, st), signature);
      assert Carries(crypto, config, token, now, st, signature);
      PrecheckFinds(crypto, config, token, now, st);
    }
  }

  /** How a token is refused: with the reason of its own grammar while it does not decode
      and parse, and with one and the same reason whatever else is wrong with it. */
  lemma RefusalIsUniform(crypto: Crypto, config: Config, token: string, binding: Binding, now: int, stored: Option<int>)
    ensures var outcome := Answer(crypto, config, token, binding, now, stored);
            match DecodeToken(token) {
              case Reject(reason) => outcome == Rejected(reason)
              case Ok((data, _)) =>
                match ParseStatement(crypto.ipv6, data) {
                  case Reject(reason) => outcome == Rejected(reason)
                  case Ok(_) => outcome.Rejected? ==> outcome.reason == "invalid URL token"
                }
            }
    ensures Answer(crypto, config, token, binding, now, stored).StoreDown? ==> stored.None?
  {
    hide DecodeToken, ParseStatement, VerifyingKey;
  }

  // --------------------------------------------------------------------- retirement

  /** The rotation: `key` leaves the active place at `r.at` for a place among the
      retired, and `next` takes over. */
  function Rotated(config: Config, next: Bytes, at: nat, place: nat): (rotated: Config)
    requires place <= |config.retired|
  {
    Config(next, config.retired[..place] + [Retired(config.active, at)] + config.retired[place..], config.ttl)
  }

  ghost predicate DistinctIds(crypto: Crypto, config: Config) {
    && (forall i | 0 <= i < |config.retired| :: crypto.keyId(config.retired[i].public) != crypto.keyId(config.active))
    && (forall i, j | 0 <= i < j < |config.retired| ::
          crypto.keyId(config.retired[i].public) != crypto.keyId(config.retired[j].public))
  }

  lemma {:induction false} FirstUsableConcat(crypto: Crypto, a: seq<Retired>, b: seq<Retired>, id: string, now: int, ttl: nat)
    ensures FirstUsable(crypto, a + b, id, now, ttl)
         == if FirstUsable(crypto, a, id, now, ttl).Some? then FirstUsable(crypto, a, id, now, ttl)
            else FirstUsable(crypto, b, id, now, ttl)
  {
    if a == [] {
      assert a + b == b;
    } else {
      FirstUsableConcat(crypto, a[1..], b, id, now, ttl);
      assert (a + b)[1..] == a[1..] + b;
    }
  }

  lemma {:induction false} NoneUsable(crypto: Crypto, retired: seq<Retired>, id: string, now: int, ttl: nat)
    requires forall i | 0 <= i < |retired| :: !Usable(crypto, retired[i], id, now, ttl)
    ensures FirstUsable(crypto, retired, id, now, ttl).None?
  {
    if retired != [] {
      NoneUsable(crypto, retired[1..], id, now, ttl);
    }
  }

  /** Which key a rotated set finds: other keys' tokens see no change; a token of the
      moved key finds it until its lifetime after retirement has passed. */
  lemma RotatedKey(crypto: Crypto, config: Config, next: Bytes, at: nat, place: nat, id: string, now: int)
    requires place <= |config.retired| && DistinctIds(crypto, config) && crypto.keyId(next) != id
    ensures VerifyingKey(crypto, Rotated(config, next, at, place), id, now)
         == if id == crypto.keyId(config.active)
            then if 0 <= now < NotAfter(Retired(config.active, at), config.ttl) then Some(config.active) else None
            else VerifyingKey(crypto, config, id, now)
  {
    var ttl, moved := config.ttl, Retired(config.active, at);
    var before, after := config.retired[..place], config.retired[place..];
    FirstUsableConcat(crypto, before + [moved], after, id, now, ttl);
    FirstUsableConcat(crypto, before, [moved], id, now, ttl);
    FirstUsableConcat(crypto, before, after, id, now, ttl);
    assert config.retired == before + after;
    assert [moved][1..] == [];
    assert FirstUsable(crypto, [moved], id, now, ttl) ==
           if Usable(crypto, moved, id, now, ttl) then Some(config.active) else None;
    if id == crypto.keyId(config.active) {
      NoneUsable(crypto, before, id, now, ttl);
      NoneUsable(crypto, after, id, now, ttl);
    }
  }

  /** The statement a token carries, if it decodes and parses. */
  function Carried(crypto: Crypto, token: string): (st: Option<Statement>) {
    match DecodeToken(token)
    case Reject(_) => None
    case Ok((data, _)) =>
      var parsed := ParseStatement(crypto.ipv6, data);
      if parsed.Ok? then Some(parsed.value) else None
  }

  lemma AcceptedTimes(ipv6: Ipv6Rule, data: Bytes)
    requires ParseStatement(ipv6, data).Ok?
    ensures ParseStatement(ipv6, data).value.expiry <= I64_MAX
  {
    StatementRoundTrip(ipv6, data, ParseStatement(ipv6, data).value);
    hide ParseStatement, BuildStatement;
  }

  /** Retirement is transparent: at any time from zero on, a token of the moved key issued
      no later than its retirement, and any token of a key other than the new one, gets
      the same answer before and after the rotation, with the same reads of the store. */
  lemma RetirementIsTransparent(crypto: Crypto, config: Config, next: Bytes, at: nat, place: nat,
                                token: string, binding: Binding, now: int, stored: Option<int>)
    requires place <= |config.retired| && DistinctIds(crypto, config) && now >= 0
    requires Carried(crypto, token).Some? ==>
               var st := Carried(crypto, token).value;
               st.keyId != crypto.keyId(next) && (st.keyId == crypto.keyId(config.active) ==> st.issued <= at)
    ensures BeforeTheRead(crypto, config, token, binding, now)
         == BeforeTheRead(crypto, Rotated(config, next, at, place), token, binding, now)
    ensures Answer(crypto, config, token, binding, now, stored)
         == Answer(crypto, Rotated(config, next, at, place), token, binding, now, stored)
  {
    hide DecodeToken, ParseStatement, VerifyingKey;
    match DecodeToken(token)
    case Reject(_) =>
    case Ok((data, signature)) =>
      match ParseStatement(crypto.ipv6, data)
      case Reject(_) =>
      case Ok(parsed) =>
        assert Carried(crypto, token) == Some(parsed);
        RotatedKey(crypto, config, next, at, place, parsed.keyId, now);
        AcceptedTimes(crypto.ipv6, data);
        if parsed.keyId == crypto.keyId(config.active) {
          ActiveKey(crypto, config, now);
        }
  }

  lemma ActiveKey(crypto: Crypto, config: Config, now: int)
    ensures VerifyingKey(crypto, config, crypto.keyId(config.active), now) == Some(config.active)
  {
  }

  /** No token verifies under a retired key once the lifetime after its retirement has
      passed, whatever the token says. */
  lemma RetiredKeyExpires(crypto: Crypto, config: Config, k: nat, token: string, binding: Binding, now: int,
                          stored: Option<int>)
    requires k < |config.retired| && DistinctIds(crypto, config)
    requires now >= config.retired[k].at + config.ttl
    requires Carried(crypto, token).Some? && Carried(crypto, token).value.keyId == crypto.keyId(config.retired[k].public)
    ensures Answer(crypto, config, token, binding, now, stored) == Rejected(REJECTED)
  {
    hide DecodeToken, ParseStatement, VerifyingKey;
    ExpiredKeyIsNotFound(crypto, config, k, now);
  }

  lemma ExpiredKeyIsNotFound(crypto: Crypto, config: Config, k: nat, now: int)
    requires k < |config.retired| && DistinctIds(crypto, config)
    requires now >= config.retired[k].at + config.ttl
    ensures VerifyingKey(crypto, config, crypto.keyId(config.retired[k].public), now).None?
  {
    NoneUsable(crypto, config.retired, crypto.keyId(config.retired[k].public), now, config.ttl);
  }

  /** Before time zero the two differ: a retired key is never found, an active one is. */
  lemma NegativeClockTellsApart(crypto: Crypto, config: Config, next: Bytes, at: nat, place: nat, now: int)
    requires place <= |config.retired| && DistinctIds(crypto, config) && now < 0
    requires crypto.keyId(next) != crypto.keyId(config.active)
    ensures VerifyingKey(crypto, config, crypto.keyId(config.active), now) == Some(config.active)
    ensures VerifyingKey(crypto, Rotated(config, next, at, place), crypto.keyId(config.active), now) == None
  {
    RotatedKey(crypto, config, next, at, place, crypto.keyId(config.active), now);
    hide VerifyingKey, FirstUsable, Rotated;
    ActiveKey(crypto, config, now);
  }
}
