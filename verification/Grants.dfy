/** Grant statements: the validator and the builder of `scripts/golden/grants_ref.py`,
    and the one canonical form they share. */
module Grants {
  import opened Option
  import opened ByteStrings
  import opened Sequences
  import opened Texts
  import opened Names
  import opened Statements
  import Decimal
  import Hex

  const DOMAIN := "mkit-write-grant:v1"
  const GRANT_MAX_LIFETIME_MS := 2_592_000_000
  const MAX_AUDIENCES := 8
  const MAX_REF_SCOPES := 16
  const FIELD_COUNT := 11
  const FLAGS := "cufd"

  /** The outcome of one rule: nothing, or the reason of the rejection. */
  type Verdict = Option<string>

  // -------------------------------------------------------------------------- flags

  /** The characters of `order` that occur in `flags`. */
  function Picked(order: string, flags: string): (picked: string) {
    if order == "" then "" else (if order[0] in flags then [order[0]] else "") + Picked(order[1..], flags)
  }

  predicate KnownFlags(flags: string) {
    forall i | 0 <= i < |flags| :: flags[i] in FLAGS
  }

  /** `validate_flags(flags)`: the loop over the characters, then the order. */
  method CheckFlags(flags: string) returns (fault: Verdict)
    ensures fault == ValidateFlags(flags)
  {
    if flags == "" {
      return Some("noncanonical ref flags");
    }
    var i := 0;
    while i < |flags|
      invariant i <= |flags|
      invariant forall k | 0 <= k < i :: flags[k] in FLAGS
    {
      if flags[i] !in FLAGS {
        return Some("unknown ref flag");
      }
      i := i + 1;
    }
    return if Picked(FLAGS, flags) != flags then Some("noncanonical ref flags") else None;
  }

  function ValidateFlags(flags: string): (fault: Verdict) {
    if flags == "" then Some("noncanonical ref flags")
    else if !KnownFlags(flags) then Some("unknown ref flag")
    else if Picked(FLAGS, flags) != flags then Some("noncanonical ref flags")
    else None
  }

  predicate FlagsOk(flags: string) {
    ValidateFlags(flags).None?
  }

  /** The flags chosen, in the order of `FLAGS`. */
  function Selection(c: bool, u: bool, f: bool, d: bool): (flags: string) {
    (if c then "c" else "") + (if u then "u" else "") + (if f then "f" else "") + (if d then "d" else "")
  }

  lemma SelectionMembers(c: bool, u: bool, f: bool, d: bool)
    ensures forall x :: x in Selection(c, u, f, d) <==>
              (c && x == 'c') || (u && x == 'u') || (f && x == 'f') || (d && x == 'd')
  {
    assert forall x: char :: x in "c" <==> x == 'c';
    assert forall x: char :: x in "u" <==> x == 'u';
    assert forall x: char :: x in "f" <==> x == 'f';
    assert forall x: char :: x in "d" <==> x == 'd';
  }

  /** The canonical flag texts are the non-empty selections: one text for each set. */
  lemma FlagsAreASelection(flags: string)
    ensures FlagsOk(flags) <==> flags != "" && exists c, u, f, d :: flags == Selection(c, u, f, d)
  {
    PickedAll(flags);
    hide Picked, Selection;
    if FlagsOk(flags) {
      assert flags == Selection('c' in flags, 'u' in flags, 'f' in flags, 'd' in flags);
    }
    if exists c, u, f, d :: flags == Selection(c, u, f, d) {
      var c, u, f, d :| flags == Selection(c, u, f, d);
      SelectionMembers(c, u, f, d);
      assert FLAGS[0] == 'c' && FLAGS[1] == 'u' && FLAGS[2] == 'f' && FLAGS[3] == 'd';
      forall i | 0 <= i < |flags|
        ensures flags[i] in FLAGS
      {
        assert flags[i] in flags;
      }
    }
  }

  lemma PickedAll(flags: string)
    ensures Picked(FLAGS, flags) == Selection('c' in flags, 'u' in flags, 'f' in flags, 'd' in flags)
  {
    assert FLAGS[1..] == "ufd" && "ufd"[1..] == "fd" && "fd"[1..] == "d" && "d"[1..] == "";
    assert Picked("d", flags) == if 'd' in flags then "d" else "";
    assert Picked("fd", flags) == (if 'f' in flags then "f" else "") + Picked("d", flags);
    assert Picked("ufd", flags) == (if 'u' in flags then "u" else "") + Picked("fd", flags);
  }

  // ---------------------------------------------------------------------- ref scopes

  const PACKMAP := "refs/mkit/packmap/"

  /** The suffix of a pattern for everything below a name: a slash and a star. */
  const WILDCARD := ['/', '*']

  /** A pattern without its wildcard. */
  function PatternBase(pattern: string): (name: string) {
    if EndsWith(pattern, WILDCARD) then pattern[..|pattern| - 2] else pattern
  }

  /** `validate_pattern(pattern)`. */
  function ValidatePattern(pattern: string): (fault: Verdict) {
    if !RefNameOk(PatternBase(pattern)) then Some("ref pattern")
    else if PACKMAP <= pattern then Some("packmap pattern")
    else None
  }

  /** The pattern grammar: a ref name, or a ref name with the wildcard, outside the
      pack map; no text is both. */
  lemma PatternGrammar(pattern: string)
    ensures var wild := EndsWith(pattern, WILDCARD);
            && (ValidatePattern(pattern).None? <==>
                  (RefNameOk(pattern) || (wild && RefNameOk(pattern[..|pattern| - 2]))) && !(PACKMAP <= pattern))
            && !(wild && RefNameOk(pattern))
  {
    if EndsWith(pattern, WILDCARD) {
      assert pattern[|pattern| - 2..][1] == '*';
      if RefNameOk(pattern) {
        RefNameChars(pattern);
      }
    }
    hide RefNameOk;
  }

  /** `validate_pattern(pattern)` and `validate_flags(flags)` of one entry. */
  function ValidateEntry(entry: string): (fault: Verdict) {
    match Cut(entry, '=')
    case None => Some("ref pattern")
    case Some((pattern, flags)) =>
      if ValidatePattern(pattern).Some? then ValidatePattern(pattern) else ValidateFlags(flags)
  }

  /** The pattern of an entry. */
  function PatternOf(entry: string): (pattern: string) {
    match Cut(entry, '=') case None => entry case Some((pattern, _)) => pattern
  }

  function PatternsOf(entries: seq<string>): (patterns: seq<string>)
    ensures |patterns| == |entries|
  {
    seq(|entries|, i requires 0 <= i < |entries| => PatternOf(entries[i]))
  }

  function FirstFault(entries: seq<string>, n: nat): (fault: Verdict)
    requires n <= |entries|
  {
    if n == 0 then None
    else if FirstFault(entries, n - 1).Some? then FirstFault(entries, n - 1)
    else ValidateEntry(entries[n - 1])
  }

  /** `validate_ref_scopes(capabilities, field)`. */
  function ValidateRefScopes(capabilities: string, field: string): (fault: Verdict) {
    if capabilities == "read" then (if field != "-" then Some("ref scopes on read grant") else None)
    else if field == "-" then Some("ref scopes missing")
    else
      var entries := Split(field, ';');
      if |entries| > MAX_REF_SCOPES then Some("ref scope count")
      else if FirstFault(entries, |entries|).Some? then FirstFault(entries, |entries|)
      else if !StrictlySorted(entries) then Some("ref scopes unordered")
      else if !Distinct(PatternsOf(entries)) then Some("duplicate ref pattern")
      else None
  }

  lemma {:induction false} FaultStays(entries: seq<string>, m: nat, n: nat)
    requires m <= n <= |entries| && FirstFault(entries, m).Some?
    ensures FirstFault(entries, n) == FirstFault(entries, m)
  {
    hide ValidateEntry;
    if m < n {
      FaultStays(entries, m, n - 1);
    }
  }

  /** The loop over the entries, which collects the patterns. */
  method CheckEntries(entries: seq<string>) returns (fault: Verdict, patterns: seq<string>)
    ensures fault == FirstFault(entries, |entries|)
    ensures fault.None? ==> patterns == PatternsOf(entries)
  {
    hide ValidatePattern, ValidateFlags;
    patterns := [];
    var n := 0;
    while n < |entries|
      invariant n <= |entries|
      invariant FirstFault(entries, n).None?
      invariant patterns == PatternsOf(entries[..n])
    {
      var entry := entries[n];
      if !Has(entry, '=') {
        CutIsExact(entry, '=', "", "");
        FaultStays(entries, n + 1, |entries|);
        return Some("ref pattern"), patterns;
      }
      var halves := Cut(entry, '=').value;
      var bad := ValidatePattern(halves.0);
      if bad.None? {
        bad := CheckFlags(halves.1);
      }
      if bad.Some? {
        FaultStays(entries, n + 1, |entries|);
        return bad, patterns;
      }
      assert entries[..n + 1] == entries[..n] + [entry];
      patterns := patterns + [halves.0];
      n := n + 1;
    }
    assert entries[..n] == entries;
    return None, patterns;
  }

  /** `validate_ref_scopes(capabilities, field)`, with its loop. */
  method CheckRefScopes(capabilities: string, field: string) returns (fault: Verdict)
    ensures fault == ValidateRefScopes(capabilities, field)
  {
    if capabilities == "read" {
      return if field != "-" then Some("ref scopes on read grant") else None;
    }
    if field == "-" {
      return Some("ref scopes missing");
    }
    var entries := Split(field, ';');
    if |entries| > MAX_REF_SCOPES {
      return Some("ref scope count");
    }
    var bad, patterns := CheckEntries(entries);
    if bad.Some? {
      return bad;
    }
    if !StrictlySorted(entries) {
      return Some("ref scopes unordered");
    }
    return if !Distinct(patterns) then Some("duplicate ref pattern") else None;
  }

  lemma {:induction false} NoFaultIsAllGood(entries: seq<string>, n: nat)
    requires n <= |entries|
    ensures FirstFault(entries, n).None? <==> forall i | 0 <= i < n :: ValidateEntry(entries[i]).None?
  {
    hide ValidateEntry;
    if n > 0 {
      NoFaultIsAllGood(entries, n - 1);
    }
  }

  // ----------------------------------------------------------------------- audiences

  /** `validate_audiences(field)`. */
  function ValidateAudiences(ipv6: Ipv6Rule, field: string): (fault: Verdict) {
    if Has(field, '*') then Some("audience wildcard")
    else
      var items := Split(field, ',');
      if |items| > MAX_AUDIENCES then Some("audience count")
      else if !AllOrigins(ipv6, items) then Some("audience")
      else if !StrictlySorted(items) then Some("audiences unordered")
      else None
  }

  predicate AllOrigins(ipv6: Ipv6Rule, items: seq<string>) {
    forall i | 0 <= i < |items| :: OriginOk(ipv6, items[i])
  }

  // ------------------------------------------------------------------- the statement

  /** The scope test: a star or a name below the grant's own namespace. */
  function ValidateScope(namespace: string, scope: string): (fault: Verdict) {
    match Cut(scope, '/')
    case None => Some("repository scope")
    case Some((scopeNamespace, name)) =>
      if !IsNamespace(scopeNamespace) then Some("repository scope")
      else if name != "*" && !IsName(name) then Some("repository scope")
      else if scopeNamespace != namespace then Some("scope namespace mismatch")
      else None
  }

  const CAPABILITIES := ["read", "read,write", "write"]

  function ValidateTimes(epoch: string, created: string, expiry: string, nonce: string): (fault: Verdict) {
    var e, c, x := ParseDecimal(epoch, U64_MAX), ParseDecimal(created, I64_MAX), ParseDecimal(expiry, I64_MAX);
    if e.Reject? then Some(e.reason)
    else if c.Reject? then Some(c.reason)
    else if x.Reject? then Some(x.reason)
    else if !Hex.IsHex(nonce, 32) then Some("noncanonical hex")
    else if x.value <= c.value then Some("expiry not after created")
    else if x.value - c.value > GRANT_MAX_LIFETIME_MS then Some("lifetime too long")
    else None
  }

  function ValidateFields(ipv6: Ipv6Rule, f: seq<string>): (fault: Verdict)
    requires |f| == FIELD_COUNT
  {
    if f[0] != DOMAIN then Some("domain")
    else if !IsNamespace(f[1]) then Some("namespace")
    else if ValidateScope(f[1], f[2]).Some? then ValidateScope(f[1], f[2])
    else if !Hex.IsHex(f[3], 32) then Some("noncanonical hex")
    else if f[4] !in CAPABILITIES then Some("capabilities")
    else if ValidateAudiences(ipv6, f[5]).Some? then ValidateAudiences(ipv6, f[5])
    else if ValidateRefScopes(f[4], f[6]).Some? then ValidateRefScopes(f[4], f[6])
    else ValidateTimes(f[7], f[8], f[9], f[10])
  }

  /** `validate_grant(statement)`: `None`, or the reason of the first rule broken. */
  function ValidateGrant(ipv6: Ipv6Rule, statement: Bytes): (fault: Verdict) {
    var f := SplitFields(statement, FIELD_COUNT);
    if f.Reject? then Some(f.reason)
    else
      JoinOfSplitFields(statement, FIELD_COUNT);
      ValidateFields(ipv6, f.value)
  }

  // ----------------------------------------------------------------- fields and builder

  datatype RefScope = RefScope(pattern: string, flags: string)

  /** The fields of a grant, with its lists in any order. */
  datatype Grant = Grant(
    namespace: string, scope: string, grantee: string, capabilities: string, audiences: seq<string>,
    refScopes: Option<seq<RefScope>>, epoch: nat, created: nat, expiry: nat, nonce: string)

  function Entry(s: RefScope): (entry: string) {
    s.pattern + "=" + s.flags
  }

  function Entries(scopes: seq<RefScope>): (entries: seq<string>)
    ensures |entries| == |scopes|
  {
    seq(|scopes|, i requires 0 <= i < |scopes| => Entry(scopes[i]))
  }

  function RefScopesField(scopes: Option<seq<RefScope>>): (field: string) {
    match scopes case None => "-" case Some(list) => Join(Sort(Entries(list)), ';')
  }

  function AudiencesField(audiences: seq<string>): (field: string) {
    Join(Sort(audiences), ',')
  }

  function FieldsOf(g: Grant): (fields: seq<string>)
    ensures |fields| == FIELD_COUNT
  {
    [DOMAIN, g.namespace, g.scope, g.grantee, g.capabilities, AudiencesField(g.audiences), RefScopesField(g.refScopes),
     Decimal.Text(g.epoch), Decimal.Text(g.created), Decimal.Text(g.expiry), g.nonce]
  }

  /** A star or a name below the namespace. */
  predicate ScopeOk(namespace: string, scope: string) {
    && namespace + "/" <= scope
    && var name := scope[|namespace| + 1..];
       name == "*" || IsName(name)
  }

  predicate AudiencesOk(ipv6: Ipv6Rule, audiences: seq<string>) {
    1 <= |audiences| <= MAX_AUDIENCES && Distinct(audiences) && AllOrigins(ipv6, audiences)
  }

  predicate RefScopeOk(s: RefScope) {
    ValidatePattern(s.pattern).None? && FlagsOk(s.flags)
  }

  predicate RefScopesOk(scopes: seq<RefScope>) {
    && 1 <= |scopes| <= MAX_REF_SCOPES
    && (forall i | 0 <= i < |scopes| :: RefScopeOk(scopes[i]))
    && (forall i, j | 0 <= i < j < |scopes| :: scopes[i].pattern != scopes[j].pattern)
  }

  /** What the fields of a grant must be, said of the values and not of the text. */
  predicate GrantOk(ipv6: Ipv6Rule, g: Grant) {
    && IsNamespace(g.namespace)
    && ScopeOk(g.namespace, g.scope)
    && Hex.IsHex(g.grantee, 32)
    && g.capabilities in CAPABILITIES
    && AudiencesOk(ipv6, g.audiences)
    && (g.capabilities == "read" <==> g.refScopes.None?)
    && (g.refScopes.Some? ==> RefScopesOk(g.refScopes.value))
    && g.epoch <= U64_MAX && g.created <= I64_MAX && g.expiry <= I64_MAX
    && g.created < g.expiry <= g.created + GRANT_MAX_LIFETIME_MS
    && Hex.IsHex(g.nonce, 32)
  }
}
