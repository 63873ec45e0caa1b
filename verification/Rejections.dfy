/** Why a statement, a token or a grant is rejected: the reason of the first rule it breaks,
    the rules said of its parts and not of the parser's branches. */
module Rejections {
  import opened Words
  import opened Option
  import opened ByteStrings
  import opened Sequences
  import opened Texts
  import opened Names
  import opened Statements
  import opened UrlToken
  import Base64Url
  import Decimal
  import Grammars
  import Grants
  import Hex
  import Utf8

  // ----------------------------------------------------------------- statement text

  predicate Allowed(b: Byte) {
    b == 10 || 33 <= b <= 126
  }

  /** The text is these lines. */
  predicate Lines(data: Bytes, lines: seq<string>)
    requires AllAscii(data)
  {
    && lines != [] && (forall i | 0 <= i < |lines| :: !Has(lines[i], '\n'))
    && ToText(data) == Join(lines, '\n')
  }

  /** A byte that is not allowed, and none before it. */
  predicate FirstBad(data: Bytes, i: nat) {
    i < |data| && !Allowed(data[i]) && forall j | 0 <= j < i :: Allowed(data[j])
  }

  lemma {:induction false} FaultOfFirst(data: Bytes, i: nat)
    requires FirstBad(data, i)
    ensures ByteFault(data) == Some(if data[i] == 13 then "carriage return" else "byte out of range")
  {
    if i > 0 {
      assert forall j | 0 <= j < i - 1 :: Allowed(data[1..][j]);
      FaultOfFirst(data[1..], i - 1);
    }
  }

  /** Bytes: too many of them, or else the first that is not allowed. */
  lemma ByteReason(data: Bytes, n: nat, i: nat)
    ensures |data| > 4096 ==> SplitFields(data, n) == Reject("statement too long")
    ensures |data| <= 4096 && FirstBad(data, i) ==>
              SplitFields(data, n) == Reject(if data[i] == 13 then "carriage return" else "byte out of range")
  {
    hide Split, ByteFault;
    if FirstBad(data, i) {
      FaultOfFirst(data, i);
    }
  }

  /** Lines, when all the bytes are allowed: none after the last, as many as there are to be,
      and none of them empty. */
  lemma LineReason(data: Bytes, n: nat, lines: seq<string>)
    requires |data| <= 4096 && forall i | 0 <= i < |data| :: Allowed(data[i])
    ensures AllAscii(data)
    ensures data != [] && data[|data| - 1] == 10 ==> SplitFields(data, n) == Reject("final line feed")
    ensures (data == [] || data[|data| - 1] != 10) && Lines(data, lines) ==>
              SplitFields(data, n) == if |lines| != n then Reject("field count")
                                      else if "" in lines then Reject("empty field")
                                      else Ok(lines)
  {
    hide Split, Join, ByteFault, Has;
    NoFaultIsAllowed(data);
    if Lines(data, lines) {
      SplitOfJoin(lines, '\n');
    }
  }

  // --------------------------------------------------------------------------- tokens

  /** Two non-empty parts around the only dot. */
  predicate Halves(token: string, head: string, tail: string) {
    token == head + "." + tail && head != "" && tail != "" && !Has(head, '.') && !Has(tail, '.')
  }

  predicate Decodes(segment: string, data: Bytes) {
    segment == Base64Url.Encode(data)
  }

  lemma DecodesIs(segment: string)
    ensures Base64Url.DecodeStrict(segment).Some? ==> Decodes(segment, Base64Url.DecodeStrict(segment).value)
    ensures forall data | Decodes(segment, data) :: Base64Url.DecodeStrict(segment) == Some(data)
  {
    hide Base64Url.DecodeStrict, Base64Url.Encode;
    Base64Url.StrictAcceptsCanonical(segment);
    forall data | Decodes(segment, data)
      ensures Base64Url.DecodeStrict(segment) == Some(data)
    {
      Base64Url.DecodeOfEncode(data);
    }
  }

  lemma CutOfHalves(token: string, head: string, tail: string)
    ensures Halves(token, head, tail) ==> Cut(token, '.') == Some((head, tail))
    ensures Cut(token, '.') == Some((head, tail)) && head != "" && tail != "" && !Has(tail, '.') ==> Halves(token, head, tail)
  {
    hide Cut, Has;
    CutIsExact(token, '.', head, tail);
  }

  /** A token is too long, or not two parts. */
  lemma FormatReason(token: string)
    ensures Utf8.Length(token) > 8192 ==> DecodeToken(token) == Reject("token too long")
    ensures Utf8.Length(token) <= 8192 && (forall head, tail :: !Halves(token, head, tail)) ==>
              DecodeToken(token) == Reject("token format")
  {
    hide Utf8.Length, Base64Url.DecodeStrict, Cut, Has, Halves;
    if Cut(token, '.').Some? {
      CutOfHalves(token, Cut(token, '.').value.0, Cut(token, '.').value.1);
    }
  }

  /** Its parts: each of them must be an encoding, the second one of 64 bytes. */
  lemma PartReason(token: string, head: string, tail: string)
    requires Utf8.Length(token) <= 8192 && Halves(token, head, tail)
    ensures (forall data :: !Decodes(head, data)) || (forall data :: !Decodes(tail, data)) ==>
              DecodeToken(token) == Reject("token encoding")
    ensures forall statement, signature | Decodes(head, statement) && Decodes(tail, signature) ::
              DecodeToken(token) == if |signature| != 64 then Reject("signature length") else Ok((statement, signature))
  {
    hide Utf8.Length, Base64Url.DecodeStrict, Decodes, Cut, Has;
    CutOfHalves(token, head, tail);
    DecodesIs(head);
    DecodesIs(tail);
  }

  // ----------------------------------------------------------------------- statements

  /** The text is the canonical decimal of some number. */
  ghost predicate Canonical(text: string) {
    exists n: nat :: text == Decimal.Text(n)
  }

  ghost predicate AtMostDecimal(text: string, maximum: nat) {
    exists n: nat :: text == Decimal.Text(n) && n <= maximum
  }

  lemma DecimalReason(text: string, maximum: nat)
    ensures !Canonical(text) <==> ParseDecimal(text, maximum) == Reject("noncanonical decimal")
    ensures Canonical(text) && !AtMostDecimal(text, maximum) <==> ParseDecimal(text, maximum) == Reject("decimal out of range")
    ensures AtMostDecimal(text, maximum) <==> ParseDecimal(text, maximum).Ok?
  {
    hide Decimal.Text, Decimal.Value, Decimal.IsCanonical;
    if Decimal.IsCanonical(text) {
      Decimal.TextOfValue(text);
      assert Canonical(text);
    }
    forall n: nat | text == Decimal.Text(n)
      ensures Decimal.IsCanonical(text) && Decimal.Value(text) == n
    {
      Decimal.ValueOfText(n);
    }
  }

  ghost predicate IsTarget(field: string) {
    exists target :: TargetOk(target) && field == TargetField(target)
  }

  lemma TargetReason(field: string)
    ensures IsTarget(field) <==> ParseTarget(field).Some?
  {
    hide ParseTarget, TargetOk, TargetField;
    if ParseTarget(field).Some? {
      TargetRoundTrip(field, ParseTarget(field).value);
    }
    if target :| TargetOk(target) && field == TargetField(target) {
      TargetRoundTrip(field, target);
    }
  }

  /** The rules of a statement of eight fields, in the order they are looked at. */
  ghost predicate StatementRule(ipv6: Ipv6Rule, f: seq<string>, k: nat)
    requires |f| == 8
  {
    match k
    case 0 => f[0] == "mkit-url-token:v1"
    case 1 => OriginOk(ipv6, f[1])
    case 2 => IdentityOk(f[2])
    case 3 => IsTarget(f[3])
    case 4 => Canonical(f[4])
    case 5 => AtMostDecimal(f[4], 18_446_744_073_709_551_615)
    case 6 => Canonical(f[5])
    case 7 => AtMostDecimal(f[5], 9_223_372_036_854_775_807)
    case 8 => Canonical(f[6])
    case 9 => AtMostDecimal(f[6], 9_223_372_036_854_775_807)
    case 10 => forall i: nat, x: nat | f[5] == Decimal.Text(i) && f[6] == Decimal.Text(x) :: x > i
    case 11 => forall i: nat, x: nat | f[5] == Decimal.Text(i) && f[6] == Decimal.Text(x) :: x <= i + 86_400_000
    case 12 => Grammars.LowerHex(f[7], 32)
    case _ => true
  }

  function StatementReason(k: nat): (reason: string) {
    match k
    case 0 => "domain"
    case 1 => "audience"
    case 2 => "repository"
    case 3 => "invalid target"
    case 4 => "noncanonical decimal"
    case 5 => "decimal out of range"
    case 6 => "noncanonical decimal"
    case 7 => "decimal out of range"
    case 8 => "noncanonical decimal"
    case 9 => "decimal out of range"
    case 10 => "expiry not after created"
    case 11 => "lifetime too long"
    case _ => "noncanonical hex"
  }

  /** Three decimals that are read, and the numbers they print. */
  lemma TimesAre(f: seq<string>, issued: nat, expiry: nat)
    requires |f| == 8
    requires ParseDecimal(f[5], I64_MAX) == Ok(issued) && ParseDecimal(f[6], I64_MAX) == Ok(expiry)
    ensures forall i: nat | f[5] == Decimal.Text(i) :: i == issued
    ensures forall x: nat | f[6] == Decimal.Text(x) :: x == expiry
    ensures f[5] == Decimal.Text(issued) && f[6] == Decimal.Text(expiry)
  {
    hide Decimal.Text, ParseDecimal;
    DecimalRoundTrip(f[5], I64_MAX, issued);
    DecimalRoundTrip(f[6], I64_MAX, expiry);
    forall i: nat | f[5] == Decimal.Text(i)
      ensures i == issued
    {
      Decimal.TextInjective(i, issued);
    }
    forall x: nat | f[6] == Decimal.Text(x)
      ensures x == expiry
    {
      Decimal.TextInjective(x, expiry);
    }
  }

  /** A statement is read when it keeps all thirteen rules (`k == 13`), and otherwise
      rejected with the reason of the first rule it breaks. */
  lemma FirstStatementRule(ipv6: Ipv6Rule, f: seq<string>, k: nat)
    requires |f| == 8 && k <= 13 && (k <= 12 ==> !StatementRule(ipv6, f, k)) && forall j | 0 <= j < k :: StatementRule(ipv6, f, j)
    ensures if k == 13 then ParseFields(ipv6, f).Ok? else ParseFields(ipv6, f) == Reject(StatementReason(k))
  {
    hide Canonical, AtMostDecimal, IsTarget, OriginOk, IdentityOk, ParseTarget, ParseDecimal, Decimal.Text;
    TargetReason(f[3]);
    DecimalReason(f[4], U64_MAX);
    DecimalReason(f[5], I64_MAX);
    DecimalReason(f[6], I64_MAX);
    RulesBefore(ipv6, f, k);
    assert ParseDecimal(f[5], I64_MAX).Ok? <==> AtMostDecimal(f[5], 9_223_372_036_854_775_807);
    assert Hex.IsHex(f[7], 16) <==> Grammars.LowerHex(f[7], 32);
    if k >= 10 {
      TimesAre(f, ParseDecimal(f[5], I64_MAX).value, ParseDecimal(f[6], I64_MAX).value);
    }
  }

  lemma RulesBefore(ipv6: Ipv6Rule, f: seq<string>, k: nat)
    requires |f| == 8 && forall j | 0 <= j < k :: StatementRule(ipv6, f, j)
    ensures k > 0 ==> f[0] == "mkit-url-token:v1"
    ensures k > 1 ==> OriginOk(ipv6, f[1])
    ensures k > 2 ==> IdentityOk(f[2])
    ensures k > 3 ==> IsTarget(f[3])
    ensures k > 4 ==> Canonical(f[4])
    ensures k > 5 ==> AtMostDecimal(f[4], 18_446_744_073_709_551_615)
    ensures k > 6 ==> Canonical(f[5])
    ensures k > 7 ==> AtMostDecimal(f[5], 9_223_372_036_854_775_807)
    ensures k > 8 ==> Canonical(f[6])
    ensures k > 9 ==> AtMostDecimal(f[6], 9_223_372_036_854_775_807)
    ensures k > 10 ==> forall i: nat, x: nat | f[5] == Decimal.Text(i) && f[6] == Decimal.Text(x) :: x > i
    ensures k > 11 ==> forall i: nat, x: nat | f[5] == Decimal.Text(i) && f[6] == Decimal.Text(x) :: x <= i + 86_400_000
    ensures k > 12 ==> Grammars.LowerHex(f[7], 32)
  {
    hide Canonical, AtMostDecimal, IsTarget, OriginOk, IdentityOk, Decimal.Text;
    assert forall j: nat | j < k :: StatementRule(ipv6, f, j);
    assert k > 0 ==> StatementRule(ipv6, f, 0);
    assert k > 1 ==> StatementRule(ipv6, f, 1);
    assert k > 2 ==> StatementRule(ipv6, f, 2);
    assert k > 3 ==> StatementRule(ipv6, f, 3);
    assert k > 4 ==> StatementRule(ipv6, f, 4);
    assert k > 5 ==> StatementRule(ipv6, f, 5);
    assert k > 6 ==> StatementRule(ipv6, f, 6);
    assert k > 7 ==> StatementRule(ipv6, f, 7);
    assert k > 8 ==> StatementRule(ipv6, f, 8);
    assert k > 9 ==> StatementRule(ipv6, f, 9);
    assert k > 10 ==> StatementRule(ipv6, f, 10);
    assert k > 11 ==> StatementRule(ipv6, f, 11);
    assert k > 12 ==> StatementRule(ipv6, f, 12);
  }

  // --------------------------------------------------------------------------- grants

  /** The rules of one entry of the ref scopes, in the order they are looked at. */
  ghost predicate EntryRule(pattern: string, flags: string, k: nat) {
    match k
    case 0 => RefNameOk(pattern) || exists name :: pattern == name + "/*" && RefNameOk(name)
    case 1 => !("refs/mkit/packmap/" <= pattern)
    case 2 => flags != ""
    case 3 => forall c | c in flags :: c == 'c' || c == 'u' || c == 'f' || c == 'd'
    case 4 => exists c, u, f, d :: flags == Grants.Selection(c, u, f, d)
    case _ => true
  }

  function EntryReason(k: nat): (reason: string) {
    match k
    case 0 => "ref pattern"
    case 1 => "packmap pattern"
    case 2 => "noncanonical ref flags"
    case 3 => "unknown ref flag"
    case _ => "noncanonical ref flags"
  }

  lemma PatternIs(pattern: string)
    ensures RefNameOk(Grants.PatternBase(pattern)) <==>
              RefNameOk(pattern) || exists name :: pattern == name + "/*" && RefNameOk(name)
  {
    Grants.PatternGrammar(pattern);
    hide RefNameOk;
    if EndsWith(pattern, Grants.WILDCARD) {
      var name := pattern[..|pattern| - 2];
      assert pattern == name + "/*";
    }
    forall name | pattern == name + "/*"
      ensures EndsWith(pattern, Grants.WILDCARD) && pattern[..|pattern| - 2] == name
    {
    }
  }

  lemma FlagsAre(flags: string)
    ensures Grants.KnownFlags(flags) <==> forall c | c in flags :: c == 'c' || c == 'u' || c == 'f' || c == 'd'
    ensures Grants.FlagsOk(flags) <==> flags != "" && exists c, u, f, d :: flags == Grants.Selection(c, u, f, d)
  {
    Grants.FlagsAreASelection(flags);
    KnownFlagsAre(flags);
    hide Grants.KnownFlags, Grants.FlagsOk, Grants.Selection;
  }

  lemma KnownFlagsAre(flags: string)
    ensures Grants.KnownFlags(flags) <==> forall c | c in flags :: c == 'c' || c == 'u' || c == 'f' || c == 'd'
  {
    FlagChars();
    if forall c | c in flags :: c == 'c' || c == 'u' || c == 'f' || c == 'd' {
      forall i | 0 <= i < |flags|
        ensures flags[i] in Grants.FLAGS
      {
        assert flags[i] in flags;
      }
    }
  }

  lemma FlagChars()
    ensures forall c: char :: c in Grants.FLAGS <==> c == 'c' || c == 'u' || c == 'f' || c == 'd'
  {
    var s := Grants.FLAGS;
    assert |s| == 4 && s[0] == 'c' && s[1] == 'u' && s[2] == 'f' && s[3] == 'd';
  }

  /** An entry is a pattern, an equals sign and flags, rejected with the reason of the first
      rule it breaks. */
  lemma FirstEntryRule(pattern: string, flags: string, k: nat)
    requires !Has(pattern, '=')
    requires k <= 5 && (k <= 4 ==> !EntryRule(pattern, flags, k)) && forall j | 0 <= j < k :: EntryRule(pattern, flags, j)
    ensures Grants.ValidateEntry(pattern + "=" + flags) == if k == 5 then None else Some(EntryReason(k))
  {
    hide RefNameOk, Cut, Has, Grants.PatternBase, Grants.Picked, Grants.Selection;
    CutIsExact(pattern + "=" + flags, '=', pattern, flags);
    PatternIs(pattern);
    FlagsAre(flags);
    assert k > 0 ==> EntryRule(pattern, flags, 0);
    assert k > 1 ==> EntryRule(pattern, flags, 1);
    assert k > 2 ==> EntryRule(pattern, flags, 2);
    assert k > 3 ==> EntryRule(pattern, flags, 3);
    assert k > 4 ==> EntryRule(pattern, flags, 4);
  }

  lemma NoEqualsSign(entry: string)
    requires !Has(entry, '=')
    ensures Grants.ValidateEntry(entry) == Some("ref pattern")
  {
    CutIsExact(entry, '=', "", "");
  }

  /** The first entry with a fault decides. */
  lemma FirstBadEntry(entries: seq<string>, i: nat)
    requires i < |entries| && Grants.ValidateEntry(entries[i]).Some?
    requires forall j | 0 <= j < i :: Grants.ValidateEntry(entries[j]).None?
    ensures Grants.FirstFault(entries, |entries|) == Grants.ValidateEntry(entries[i])
  {
    hide Grants.ValidateEntry;
    Grants.NoFaultIsAllGood(entries, i);
    Grants.FaultStays(entries, i + 1, |entries|);
  }

  /** A namespace, a slash, and a name or a star. */
  ghost predicate IsScope(scope: string) {
    exists namespace, name ::
      scope == namespace + "/" + name && Grammars.Namespace(namespace) && (name == "*" || Grammars.Name(name))
  }

  /** The rules of a grant of eleven fields, in the order they are looked at; rule 13 is the
      one of the entries. */
  ghost predicate GrantRule(ipv6: Ipv6Rule, f: seq<string>, k: nat)
    requires |f| == 11
  {
    match k
    case 0 => f[0] == "mkit-write-grant:v1"
    case 1 => Grammars.Namespace(f[1])
    case 2 => IsScope(f[2])
    case 3 => f[1] + "/" <= f[2]
    case 4 => Grammars.LowerHex(f[3], 64)
    case 5 => f[4] == "read" || f[4] == "read,write" || f[4] == "write"
    case 6 => !Has(f[5], '*')
    case 7 => |Split(f[5], ',')| <= 8
    case 8 => forall origin | origin in Split(f[5], ',') :: OriginOk(ipv6, origin)
    case 9 => StrictlySorted(Split(f[5], ','))
    case 10 => f[4] == "read" ==> f[6] == "-"
    case 11 => f[4] != "read" ==> f[6] != "-"
    case 12 => f[4] != "read" ==> |Split(f[6], ';')| <= 16
    case 13 => f[4] != "read" ==> forall entry | entry in Split(f[6], ';') :: Grants.ValidateEntry(entry).None?
    case 14 => f[4] != "read" ==> StrictlySorted(Split(f[6], ';'))
    case 15 => f[4] != "read" ==> Distinct(Grants.PatternsOf(Split(f[6], ';')))
    case 16 => Canonical(f[7])
    case 17 => AtMostDecimal(f[7], 18_446_744_073_709_551_615)
    case 18 => Canonical(f[8])
    case 19 => AtMostDecimal(f[8], 9_223_372_036_854_775_807)
    case 20 => Canonical(f[9])
    case 21 => AtMostDecimal(f[9], 9_223_372_036_854_775_807)
    case 22 => Grammars.LowerHex(f[10], 64)
    case 23 => forall c: nat, x: nat | f[8] == Decimal.Text(c) && f[9] == Decimal.Text(x) :: x > c
    case 24 => forall c: nat, x: nat | f[8] == Decimal.Text(c) && f[9] == Decimal.Text(x) :: x <= c + 2_592_000_000
    case _ => true
  }

  function GrantReason(k: nat): (reason: string) {
    match k
    case 0 => "domain"
    case 1 => "namespace"
    case 2 => "repository scope"
    case 3 => "scope namespace mismatch"
    case 4 => "noncanonical hex"
    case 5 => "capabilities"
    case 6 => "audience wildcard"
    case 7 => "audience count"
    case 8 => "audience"
    case 9 => "audiences unordered"
    case 10 => "ref scopes on read grant"
    case 11 => "ref scopes missing"
    case 12 => "ref scope count"
    case 14 => "ref scopes unordered"
    case 15 => "duplicate ref pattern"
    case 16 => "noncanonical decimal"
    case 17 => "decimal out of range"
    case 18 => "noncanonical decimal"
    case 19 => "decimal out of range"
    case 20 => "noncanonical decimal"
    case 21 => "decimal out of range"
    case 22 => "noncanonical hex"
    case 23 => "expiry not after created"
    case _ => "lifetime too long"
  }

  /** The scope test by its two rules. */
  lemma ScopeReason(namespace: string, scope: string)
    requires Grammars.Namespace(namespace)
    ensures Grants.ValidateScope(namespace, scope) ==
            if !IsScope(scope) then Some("repository scope")
            else if namespace + "/" <= scope then None else Some("scope namespace mismatch")
  {
    hide Grammars.Namespace, Grammars.Name, IsNamespace, IsName, Cut, Has;
    CutIsExact(scope, '/', "", "");
    forall ns, name | scope == ns + "/" + name && Grammars.Namespace(ns)
      ensures Cut(scope, '/') == Some((ns, name))
    {
      Grammars.NamespaceIs(ns);
      NamespaceIsField(ns);
      CutIsExact(scope, '/', ns, name);
    }
    if Cut(scope, '/').Some? {
      var (ns, name) := Cut(scope, '/').value;
      CutIsExact(scope, '/', ns, name);
      Grammars.NamespaceIs(ns);
      Grammars.NameIs(name);
      Grammars.NamespaceIs(namespace);
      if IsNamespace(ns) {
        NamespaceIsField(ns);
        NamespaceIsField(namespace);
        SamePrefix(ns, name, namespace);
      }
    }
  }

  lemma SamePrefix(ns: string, name: string, namespace: string)
    requires !Has(ns, '/') && !Has(namespace, '/')
    ensures namespace + "/" <= ns + "/" + name <==> ns == namespace
  {
    hide Has;
    var scope := ns + "/" + name;
    if namespace + "/" <= scope {
      var rest := scope[|namespace| + 1..];
      assert scope == namespace + "/" + rest;
      CutIsExact(scope, '/', namespace, rest);
      CutIsExact(scope, '/', ns, name);
    }
  }

  lemma AudienceReason(ipv6: Ipv6Rule, field: string)
    ensures Grants.ValidateAudiences(ipv6, field) ==
            if Has(field, '*') then Some("audience wildcard")
            else if |Split(field, ',')| > 8 then Some("audience count")
            else if !(forall origin | origin in Split(field, ',') :: OriginOk(ipv6, origin)) then Some("audience")
            else if !StrictlySorted(Split(field, ',')) then Some("audiences unordered")
            else None
  {
    hide OriginOk, Split, Has, StrictlySorted;
    var items := Split(field, ',');
    if forall origin | origin in items :: OriginOk(ipv6, origin) {
      forall i | 0 <= i < |items|
        ensures OriginOk(ipv6, items[i])
      {
        assert items[i] in items;
      }
    }
  }

  lemma ScopesReason(capabilities: string, field: string)
    ensures var entries, fault := Split(field, ';'), Grants.ValidateRefScopes(capabilities, field);
            var sound := forall entry | entry in entries :: Grants.ValidateEntry(entry).None?;
            && (capabilities == "read" && field != "-" ==> fault == Some("ref scopes on read grant"))
            && (capabilities == "read" && field == "-" ==> fault == None)
            && (capabilities != "read" && field == "-" ==> fault == Some("ref scopes missing"))
            && (capabilities != "read" && field != "-" && |entries| > 16 ==> fault == Some("ref scope count"))
            && (capabilities != "read" && field != "-" && |entries| <= 16 && !sound ==>
                  fault == Grants.FirstFault(entries, |entries|) && fault.Some?)
            && (capabilities != "read" && field != "-" && |entries| <= 16 && sound ==>
                  fault == if !StrictlySorted(entries) then Some("ref scopes unordered")
                           else if !Distinct(Grants.PatternsOf(entries)) then Some("duplicate ref pattern") else None)
  {
    hide Split, StrictlySorted, Distinct, Grants.PatternsOf, Grants.ValidateEntry, Grants.FirstFault;
    var entries := Split(field, ';');
    Grants.NoFaultIsAllGood(entries, |entries|);
    assert (forall i | 0 <= i < |entries| :: Grants.ValidateEntry(entries[i]).None?) <==>
             forall entry | entry in entries :: Grants.ValidateEntry(entry).None? by { ByIndex(entries); }
  }

  lemma ByIndex(entries: seq<string>)
    ensures (forall i | 0 <= i < |entries| :: Grants.ValidateEntry(entries[i]).None?) <==>
              forall entry | entry in entries :: Grants.ValidateEntry(entry).None?
  {
    hide Grants.ValidateEntry;
    if forall entry | entry in entries :: Grants.ValidateEntry(entry).None? {
      forall i | 0 <= i < |entries|
        ensures Grants.ValidateEntry(entries[i]).None?
      {
        assert entries[i] in entries;
      }
    }
  }

  /** What the rules of the decimals, 16 to 21, say when they hold up to `k`. */
  lemma DecimalRules(ipv6: Ipv6Rule, f: seq<string>, k: nat)
    requires |f| == 11 && forall j | 16 <= j < k :: GrantRule(ipv6, f, j)
    ensures k > 16 ==> Canonical(f[7])
    ensures k > 17 ==> AtMostDecimal(f[7], 18_446_744_073_709_551_615)
    ensures k > 18 ==> Canonical(f[8])
    ensures k > 19 ==> AtMostDecimal(f[8], 9_223_372_036_854_775_807)
    ensures k > 20 ==> Canonical(f[9])
    ensures k > 21 ==> AtMostDecimal(f[9], 9_223_372_036_854_775_807)
  {
    hide Canonical, AtMostDecimal, Decimal.Text, OriginOk, Split, StrictlySorted, Distinct, Has, Grammars.LowerHex, Grammars.Name,
      Grammars.Namespace, Grants.ValidateEntry, Grants.PatternsOf;
    assert k > 16 ==> GrantRule(ipv6, f, 16);
    assert k > 17 ==> GrantRule(ipv6, f, 17);
    assert k > 18 ==> GrantRule(ipv6, f, 18);
    assert k > 19 ==> GrantRule(ipv6, f, 19);
    assert k > 20 ==> GrantRule(ipv6, f, 20);
    assert k > 21 ==> GrantRule(ipv6, f, 21);
  }

  /** The same for the nonce and the lifetime, 22 to 24. */
  lemma LifetimeRules(ipv6: Ipv6Rule, f: seq<string>, k: nat)
    requires |f| == 11 && forall j | 16 <= j < k :: GrantRule(ipv6, f, j)
    ensures k > 22 ==> Grammars.LowerHex(f[10], 64)
    ensures k > 23 ==> forall c: nat, x: nat | f[8] == Decimal.Text(c) && f[9] == Decimal.Text(x) :: x > c
    ensures k > 24 ==> forall c: nat, x: nat | f[8] == Decimal.Text(c) && f[9] == Decimal.Text(x) :: x <= c + 2_592_000_000
  {
    hide Canonical, AtMostDecimal, Decimal.Text, OriginOk, Split, StrictlySorted, Distinct, Has, Grammars.LowerHex, Grammars.Name,
      Grammars.Namespace, Grants.ValidateEntry, Grants.PatternsOf;
    assert k > 22 ==> GrantRule(ipv6, f, 22);
    assert k > 23 ==> GrantRule(ipv6, f, 23);
    assert k > 24 ==> GrantRule(ipv6, f, 24);
  }

  /** Each of the three decimals, by its two rules. */
  lemma DecimalsReason(f: seq<string>)
    requires |f| == 11
    ensures var e, c, x := ParseDecimal(f[7], U64_MAX), ParseDecimal(f[8], I64_MAX), ParseDecimal(f[9], I64_MAX);
            && (e.Ok? <==> AtMostDecimal(f[7], 18_446_744_073_709_551_615))
            && (c.Ok? <==> AtMostDecimal(f[8], 9_223_372_036_854_775_807))
            && (x.Ok? <==> AtMostDecimal(f[9], 9_223_372_036_854_775_807))
            && (e.Reject? ==> e.reason == if Canonical(f[7]) then "decimal out of range" else "noncanonical decimal")
            && (c.Reject? ==> c.reason == if Canonical(f[8]) then "decimal out of range" else "noncanonical decimal")
            && (x.Reject? ==> x.reason == if Canonical(f[9]) then "decimal out of range" else "noncanonical decimal")
  {
    hide Canonical, AtMostDecimal, ParseDecimal;
    DecimalReason(f[7], U64_MAX);
    DecimalReason(f[8], I64_MAX);
    DecimalReason(f[9], I64_MAX);
  }

  lemma AtMostIsCanonical(text: string, maximum: nat)
    ensures AtMostDecimal(text, maximum) ==> Canonical(text)
  {
    hide Decimal.Text;
  }

  /** The rules of the numbers and the nonce. */
  lemma TimesReason(ipv6: Ipv6Rule, f: seq<string>, k: nat)
    requires |f| == 11 && 16 <= k <= 25 && (k <= 24 ==> !GrantRule(ipv6, f, k)) && forall j | 16 <= j < k :: GrantRule(ipv6, f, j)
    ensures Grants.ValidateTimes(f[7], f[8], f[9], f[10]) == if k == 25 then None else Some(GrantReason(k))
  {
    hide Canonical, AtMostDecimal, ParseDecimal, Decimal.Text, OriginOk, Split, StrictlySorted, Distinct;
    DecimalRules(ipv6, f, k);
    LifetimeRules(ipv6, f, k);
    DecimalsReason(f);
    AtMostIsCanonical(f[7], 18_446_744_073_709_551_615);
    AtMostIsCanonical(f[8], 9_223_372_036_854_775_807);
    AtMostIsCanonical(f[9], 9_223_372_036_854_775_807);
    assert Hex.IsHex(f[10], 32) <==> Grammars.LowerHex(f[10], 64);
    if k >= 23 {
      NumbersAre(f[8], ParseDecimal(f[8], I64_MAX).value);
      NumbersAre(f[9], ParseDecimal(f[9], I64_MAX).value);
    }
  }

  lemma NumbersAre(text: string, n: nat)
    requires ParseDecimal(text, I64_MAX) == Ok(n)
    ensures text == Decimal.Text(n) && forall m: nat | text == Decimal.Text(m) :: m == n
  {
    hide Decimal.Text, ParseDecimal;
    DecimalRoundTrip(text, I64_MAX, n);
    forall m: nat | text == Decimal.Text(m)
      ensures m == n
    {
      Decimal.TextInjective(m, n);
    }
  }

  /** The rules of the lists, 6 to 15, and what they leave to the numbers. */
  lemma ListsReason(ipv6: Ipv6Rule, f: seq<string>, k: nat)
    requires |f| == 11 && 6 <= k && k != 13 && (k <= 15 ==> !GrantRule(ipv6, f, k)) && forall j | 6 <= j < k :: GrantRule(ipv6, f, j)
    ensures 6 <= k <= 9 ==> Grants.ValidateAudiences(ipv6, f[5]) == Some(GrantReason(k))
    ensures k >= 10 ==> Grants.ValidateAudiences(ipv6, f[5]) == None
    ensures 10 <= k <= 15 ==> Grants.ValidateRefScopes(f[4], f[6]) == Some(GrantReason(k))
    ensures k >= 16 ==> Grants.ValidateRefScopes(f[4], f[6]) == None
  {
    hide OriginOk, Split, StrictlySorted, Distinct, Has, Grants.PatternsOf, Grants.ValidateEntry, Grants.ValidateAudiences,
      Grants.ValidateRefScopes, Canonical, AtMostDecimal;
    AudienceReason(ipv6, f[5]);
    ScopesReason(f[4], f[6]);
    assert k > 6 ==> GrantRule(ipv6, f, 6);
    assert k > 7 ==> GrantRule(ipv6, f, 7);
    assert k > 8 ==> GrantRule(ipv6, f, 8);
    assert k > 9 ==> GrantRule(ipv6, f, 9);
    assert k > 10 ==> GrantRule(ipv6, f, 10);
    assert k > 11 ==> GrantRule(ipv6, f, 11);
    assert k > 12 ==> GrantRule(ipv6, f, 12);
    assert k > 13 ==> GrantRule(ipv6, f, 13);
    assert k > 14 ==> GrantRule(ipv6, f, 14);
    assert k > 15 ==> GrantRule(ipv6, f, 15);
  }

  /** A grant is accepted when it keeps all 25 rules (`k == 25`), and otherwise rejected with
      the reason of the first rule it breaks; an entry at fault
      with the reason of its own first rule (`FirstBadEntry`, `FirstEntryRule`). */
  lemma FirstGrantRule(ipv6: Ipv6Rule, f: seq<string>, k: nat)
    requires |f| == 11 && k <= 25 && (k <= 24 ==> !GrantRule(ipv6, f, k)) && forall j | 0 <= j < k :: GrantRule(ipv6, f, j)
    ensures Grants.ValidateFields(ipv6, f) ==
            if k == 25 then None
            else if k == 13 then Grants.FirstFault(Split(f[6], ';'), |Split(f[6], ';')|) else Some(GrantReason(k))
  {
    hide Grants.ValidateScope, Grants.ValidateAudiences, Grants.ValidateRefScopes, Grants.ValidateTimes, IsNamespace,
      Grammars.Namespace, Grammars.Name, Split, Has, OriginOk, Canonical, AtMostDecimal, StrictlySorted, Distinct,
      Grants.ValidateEntry, Grants.FirstFault;
    Grammars.NamespaceIs(f[1]);
    HeadRules(ipv6, f, k);
    assert Hex.IsHex(f[3], 32) <==> Grammars.LowerHex(f[3], 64);
    if k >= 16 {
      TimesReason(ipv6, f, k);
    }
    if k == 13 {
      BeforeEntries(ipv6, f);
    } else if k >= 6 {
      ListsReason(ipv6, f, k);
    }
  }

  lemma BeforeEntries(ipv6: Ipv6Rule, f: seq<string>)
    requires |f| == 11 && !GrantRule(ipv6, f, 13) && forall j | 0 <= j < 13 :: GrantRule(ipv6, f, j)
    ensures Grants.ValidateAudiences(ipv6, f[5]) == None
    ensures Grants.ValidateRefScopes(f[4], f[6]) == Grants.FirstFault(Split(f[6], ';'), |Split(f[6], ';')|)
    ensures Grants.ValidateRefScopes(f[4], f[6]).Some?
  {
    hide OriginOk, Split, StrictlySorted, Distinct, Has, Grants.PatternsOf, Grants.ValidateEntry, Grants.ValidateAudiences,
      Grants.ValidateRefScopes, Grants.FirstFault, Canonical, AtMostDecimal;
    AudienceReason(ipv6, f[5]);
    ScopesReason(f[4], f[6]);
    assert GrantRule(ipv6, f, 6) && GrantRule(ipv6, f, 7) && GrantRule(ipv6, f, 8) && GrantRule(ipv6, f, 9);
    assert GrantRule(ipv6, f, 11) && GrantRule(ipv6, f, 12);
  }

  /** The first six rules, and what they leave. */
  lemma HeadRules(ipv6: Ipv6Rule, f: seq<string>, k: nat)
    requires |f| == 11 && (k <= 24 ==> !GrantRule(ipv6, f, k)) && forall j | 0 <= j < k :: GrantRule(ipv6, f, j)
    ensures k > 0 ==> f[0] == "mkit-write-grant:v1"
    ensures k > 1 ==> Grammars.Namespace(f[1])
    ensures k == 2 ==> Grants.ValidateScope(f[1], f[2]) == Some("repository scope")
    ensures k == 3 ==> Grants.ValidateScope(f[1], f[2]) == Some("scope namespace mismatch")
    ensures k > 3 ==> Grants.ValidateScope(f[1], f[2]) == None
    ensures k > 4 ==> Grammars.LowerHex(f[3], 64)
    ensures k > 5 ==> f[4] == "read" || f[4] == "read,write" || f[4] == "write"
  {
    hide Grammars.Namespace, Grammars.Name, Grants.ValidateScope, OriginOk, Split, StrictlySorted, Distinct, Has, Canonical,
      AtMostDecimal, IsScope, Grants.ValidateEntry, Grants.PatternsOf, Grammars.LowerHex;
    assert k > 0 ==> GrantRule(ipv6, f, 0);
    assert k > 1 ==> GrantRule(ipv6, f, 1);
    assert k > 2 ==> GrantRule(ipv6, f, 2);
    assert k > 3 ==> GrantRule(ipv6, f, 3);
    assert k > 4 ==> GrantRule(ipv6, f, 4);
    assert k > 5 ==> GrantRule(ipv6, f, 5);
    if k > 1 {
      ScopeReason(f[1], f[2]);
      assert k == 2 ==> !GrantRule(ipv6, f, 2);
      assert k == 3 ==> !GrantRule(ipv6, f, 3);
    }
  }
}
