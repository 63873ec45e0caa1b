/** Grant statements have one canonical form: what `validate_grant` accepts is what
    `build_statement` prints, whatever order the lists were given in. */
module GrantForms {
  import opened Option
  import opened ByteStrings
  import opened Sequences
  import opened Texts
  import opened Names
  import opened Statements
  import opened Grants
  import Decimal
  import Hex

  // ----------------------------------------------------------------------- audiences

  lemma NoneHas(parts: seq<string>, sep: char, c: char)
    requires sep != c && forall p | p in parts :: !Has(p, c)
    ensures !Has(Join(parts, sep), c)
  {
    var other := (x: char) => x != c;
    JoinOnly(parts, sep, other);
    var s := Join(parts, sep);
    assert forall i | 0 <= i < |s| :: other(s[i]);
  }

  lemma JoinIsField(parts: seq<string>, sep: char)
    requires parts != [] && FieldChar(sep) && forall p | p in parts :: IsField(p)
    ensures IsField(Join(parts, sep))
  {
    var allowed := (x: char) => FieldChar(x);
    JoinOnly(parts, sep, allowed);
    var s := Join(parts, sep);
    assert forall i | 0 <= i < |s| :: allowed(s[i]);
    assert parts[|parts| - 1] in parts;
    JoinEnd(parts, sep);
  }

  lemma SortedOrigins(ipv6: Ipv6Rule, audiences: seq<string>)
    requires AudiencesOk(ipv6, audiences)
    ensures AudiencesOk(ipv6, Sort(audiences)) && StrictlySorted(Sort(audiences))
  {
    var sorted := Sort(audiences);
    hide OriginOk, Sort;
    SortIsSorted(audiences);
    SortedIsDistinct(sorted);
    SameMembers(sorted, audiences);
    forall i | 0 <= i < |sorted|
      ensures OriginOk(ipv6, sorted[i])
    {
      assert sorted[i] in audiences;
    }
  }

  /** The audiences field of well-formed audiences passes and splits into them, sorted. */
  lemma AudiencesPass(ipv6: Ipv6Rule, audiences: seq<string>)
    requires AudiencesOk(ipv6, audiences)
    ensures var field := AudiencesField(audiences);
            IsField(field) && ValidateAudiences(ipv6, field).None? && Split(field, ',') == Sort(audiences)
  {
    SortedOrigins(ipv6, audiences);
    var sorted := Sort(audiences);
    hide OriginOk, Sort, Has, IsField, Join, Split;
    forall p | p in sorted
      ensures IsField(p) && !Has(p, ',') && !Has(p, '*')
    {
      OriginIsField(ipv6, p);
    }
    JoinIsField(sorted, ',');
    NoneHas(sorted, ',', '*');
    SplitOfJoin(sorted, ',');
  }

  /** An accepted audiences field is the printing of what it splits into. */
  lemma AudiencesBack(ipv6: Ipv6Rule, field: string)
    requires ValidateAudiences(ipv6, field).None?
    ensures AudiencesOk(ipv6, Split(field, ',')) && AudiencesField(Split(field, ',')) == field
  {
    hide OriginOk, Has, Join, Split, Sort;
    SortedIsDistinct(Split(field, ','));
    SortOfSorted(Split(field, ','));
    JoinOfSplit(field, ',');
  }

  // ---------------------------------------------------------------------- ref scopes

  /** The scope an entry spells. */
  function ScopeOf(entry: string): (s: RefScope) {
    match Cut(entry, '=') case None => RefScope(entry, "") case Some((pattern, flags)) => RefScope(pattern, flags)
  }

  function ScopesOf(entries: seq<string>): (scopes: seq<RefScope>)
    ensures |scopes| == |entries|
  {
    seq(|entries|, i requires 0 <= i < |entries| => ScopeOf(entries[i]))
  }

  /** A pattern is a field without a separator. */
  lemma PatternChars(pattern: string)
    requires ValidatePattern(pattern).None?
    ensures IsField(pattern) && !Has(pattern, '=') && !Has(pattern, ';')
  {
    var base := PatternBase(pattern);
    RefNameChars(base);
    hide RefNameOk;
    assert pattern == base || pattern == base + WILDCARD;
  }

  lemma FlagChars(flags: string)
    requires FlagsOk(flags)
    ensures IsField(flags) && !Has(flags, ';')
  {
    assert forall c: char | c in FLAGS :: FieldChar(c) && c != ';';
  }

  lemma EntryPasses(s: RefScope)
    requires RefScopeOk(s)
    ensures ValidateEntry(Entry(s)).None? && ScopeOf(Entry(s)) == s && PatternOf(Entry(s)) == s.pattern
    ensures IsField(Entry(s)) && !Has(Entry(s), ';') && Has(Entry(s), '=')
  {
    hide ValidatePattern, ValidateFlags, Cut, IsField;
    EntryIsField(s);
    CutIsExact(Entry(s), '=', s.pattern, s.flags);
  }

  lemma EntryIsField(s: RefScope)
    requires RefScopeOk(s)
    ensures IsField(Entry(s)) && !Has(Entry(s), ';') && Has(Entry(s), '=') && !Has(s.pattern, '=')
  {
    PatternChars(s.pattern);
    FlagChars(s.flags);
    hide ValidatePattern, ValidateFlags;
    assert Entry(s)[|s.pattern|] == '=';
  }

  lemma EntryBack(entry: string)
    requires ValidateEntry(entry).None?
    ensures RefScopeOk(ScopeOf(entry)) && Entry(ScopeOf(entry)) == entry && ScopeOf(entry).pattern == PatternOf(entry)
  {
    hide ValidatePattern, ValidateFlags;
    CutIsExact(entry, '=', ScopeOf(entry).pattern, ScopeOf(entry).flags);
  }

  lemma EntriesDistinct(scopes: seq<RefScope>)
    requires RefScopesOk(scopes)
    ensures Distinct(Entries(scopes))
  {
    hide RefScopeOk, Entry, ScopeOf;
    forall i, j | 0 <= i < j < |scopes|
      ensures Entries(scopes)[i] != Entries(scopes)[j]
    {
      EntryPasses(scopes[i]);
      EntryPasses(scopes[j]);
    }
  }

  lemma EntryOfSome(scopes: seq<RefScope>, entry: string)
    requires entry in Entries(scopes)
    ensures exists i :: 0 <= i < |scopes| && entry == Entry(scopes[i])
  {
    var i :| 0 <= i < |scopes| && Entries(scopes)[i] == entry;
  }

  /** Sorting entries keeps them good, with distinct patterns. */
  lemma SortedEntries(scopes: seq<RefScope>)
    requires RefScopesOk(scopes)
    ensures var sorted := Sort(Entries(scopes));
            && |sorted| == |scopes| && StrictlySorted(sorted) && Distinct(PatternsOf(sorted))
            && forall e | e in sorted :: ValidateEntry(e).None? && IsField(e) && !Has(e, ';') && Has(e, '=') && Entry(ScopeOf(e)) == e
  {
    hide ValidateEntry, IsField, Has, Sort, Entry, ScopeOf, PatternOf, RefScopeOk;
    var entries := Entries(scopes);
    var sorted := Sort(entries);
    EntriesDistinct(scopes);
    SortIsSorted(entries);
    SortedIsDistinct(sorted);
    SameMembers(sorted, entries);
    forall e | e in sorted
      ensures ValidateEntry(e).None? && IsField(e) && !Has(e, ';') && Has(e, '=') && Entry(ScopeOf(e)) == e
      ensures PatternOf(e) == ScopeOf(e).pattern && ScopeOf(e) in scopes
    {
      EntryOfSome(scopes, e);
      var i :| 0 <= i < |scopes| && e == Entry(scopes[i]);
      EntryPasses(scopes[i]);
    }
    forall i, j | 0 <= i < j < |sorted|
      ensures PatternsOf(sorted)[i] != PatternsOf(sorted)[j]
    {
      var a, b := ScopeOf(sorted[i]), ScopeOf(sorted[j]);
      assert sorted[i] in sorted && sorted[j] in sorted;
      var k, l :| 0 <= k < |scopes| && 0 <= l < |scopes| && scopes[k] == a && scopes[l] == b;
      assert k != l;
    }
  }

  /** The scopes in the order of their entries. */
  function SortedScopes(scopes: seq<RefScope>): (sorted: seq<RefScope>) {
    ScopesOf(Sort(Entries(scopes)))
  }

  lemma RefScopesPass(capabilities: string, scopes: seq<RefScope>)
    requires RefScopesOk(scopes) && capabilities != "read"
    ensures var field := RefScopesField(Some(scopes));
            && IsField(field) && field != "-" && ValidateRefScopes(capabilities, field).None?
            && ScopesOf(Split(field, ';')) == SortedScopes(scopes)
  {
    hide ValidateRefScopes, ValidateEntry, IsField, Sort, Join, Split, Has, Entries, PatternsOf, StrictlySorted, Distinct;
    SortedEntries(scopes);
    var sorted := Sort(Entries(scopes));
    SortedEntriesPrint(sorted);
    SortedEntriesValidate(capabilities, Join(sorted, ';'), sorted);
  }

  /** Good entries print to a field that is not the dash and splits into them. */
  lemma SortedEntriesPrint(entries: seq<string>)
    requires entries != [] && forall e | e in entries :: IsField(e) && !Has(e, ';') && Has(e, '=')
    ensures var field := Join(entries, ';'); IsField(field) && field != "-" && Split(field, ';') == entries
  {
    hide IsField, Join, Split, Has;
    JoinIsField(entries, ';');
    SplitOfJoin(entries, ';');
    assert entries[0] in entries;
    JoinedHas(entries, ';', '=');
    DashHasNoEquals();
  }

  lemma SortedEntriesValidate(capabilities: string, field: string, entries: seq<string>)
    requires capabilities != "read" && field != "-" && Split(field, ';') == entries && |entries| <= MAX_REF_SCOPES
    requires StrictlySorted(entries) && Distinct(PatternsOf(entries))
    requires forall e | e in entries :: ValidateEntry(e).None?
    ensures ValidateRefScopes(capabilities, field).None?
  {
    hide ValidateEntry, Split, PatternsOf, StrictlySorted, Distinct, FirstFault;
    NoFaultIsAllGood(entries, |entries|);
  }

  lemma DashHasNoEquals()
    ensures !Has("-", '=')
  {
  }

  lemma JoinedHas(parts: seq<string>, sep: char, c: char)
    requires parts != [] && Has(parts[0], c)
    ensures Has(Join(parts, sep), c)
  {
    var i :| 0 <= i < |parts[0]| && parts[0][i] == c;
    assert Join(parts, sep)[i] == c;
  }

  lemma RefScopesBack(capabilities: string, field: string)
    requires ValidateRefScopes(capabilities, field).None? && capabilities != "read"
    ensures var scopes := ScopesOf(Split(field, ';'));
            RefScopesOk(scopes) && RefScopesField(Some(scopes)) == field
  {
    hide ValidateEntry, Sort, Entry, ScopeOf, PatternOf, RefScopeOk, Join, Split;
    var entries := Split(field, ';');
    var scopes := ScopesOf(entries);
    NoFaultIsAllGood(entries, |entries|);
    forall i | 0 <= i < |entries|
      ensures RefScopeOk(scopes[i]) && Entry(scopes[i]) == entries[i] && scopes[i].pattern == PatternsOf(entries)[i]
    {
      EntryBack(entries[i]);
    }
    assert Entries(scopes) == entries;
    SortOfSorted(entries);
    JoinOfSplit(field, ';');
  }

  // -------------------------------------------------------------------- other fields

  /** The scope test accepts exactly a star or a name below the grant's own namespace. */
  lemma ScopeTest(namespace: string, scope: string)
    requires IsNamespace(namespace)
    ensures ValidateScope(namespace, scope).None? <==> ScopeOk(namespace, scope)
    ensures ScopeOk(namespace, scope) ==> IsField(scope)
  {
    NamespaceIsField(namespace);
    hide IsNamespace, Cut, IsName;
    if ValidateScope(namespace, scope).None? {
      var name := Cut(scope, '/').value.1;
      CutIsExact(scope, '/', namespace, name);
      assert scope[|namespace| + 1..] == name;
    }
    if ScopeOk(namespace, scope) {
      var name := scope[|namespace| + 1..];
      assert scope == namespace + "/" + name;
      CutIsExact(scope, '/', namespace, name);
      ScopeNameIsField(name);
      FieldGlue(namespace, "/");
      FieldGlue(namespace + "/", name);
    }
  }

  lemma ScopeNameIsField(name: string)
    requires name == "*" || IsName(name)
    ensures IsField(name) && IsField("/")
  {
  }

  lemma TimesTest(epoch: string, created: string, expiry: string, nonce: string)
    ensures ValidateTimes(epoch, created, expiry, nonce).None? ==>
              && Decimal.IsCanonical(epoch) && Decimal.IsCanonical(created) && Decimal.IsCanonical(expiry)
              && Decimal.Value(epoch) <= U64_MAX && Decimal.Value(created) <= I64_MAX && Decimal.Value(expiry) <= I64_MAX
              && Decimal.Value(created) < Decimal.Value(expiry) <= Decimal.Value(created) + GRANT_MAX_LIFETIME_MS
              && Hex.IsHex(nonce, 32)
              && Decimal.Text(Decimal.Value(epoch)) == epoch && Decimal.Text(Decimal.Value(created)) == created
              && Decimal.Text(Decimal.Value(expiry)) == expiry
  {
    hide Decimal.IsCanonical, Decimal.Value, Decimal.Text, Hex.IsHex;
    if ValidateTimes(epoch, created, expiry, nonce).None? {
      Decimal.TextOfValue(epoch);
      Decimal.TextOfValue(created);
      Decimal.TextOfValue(expiry);
    }
  }

  lemma TimesPass(epoch: nat, created: nat, expiry: nat, nonce: string)
    requires epoch <= U64_MAX && created <= I64_MAX && expiry <= I64_MAX
    requires created < expiry <= created + GRANT_MAX_LIFETIME_MS && Hex.IsHex(nonce, 32)
    ensures ValidateTimes(Decimal.Text(epoch), Decimal.Text(created), Decimal.Text(expiry), nonce).None?
    ensures Decimal.AllDigits(Decimal.Text(epoch)) && Decimal.Value(Decimal.Text(epoch)) == epoch
    ensures Decimal.AllDigits(Decimal.Text(created)) && Decimal.Value(Decimal.Text(created)) == created
    ensures Decimal.AllDigits(Decimal.Text(expiry)) && Decimal.Value(Decimal.Text(expiry)) == expiry
  {
    hide Decimal.Value, Decimal.Text, Hex.IsHex;
    Decimal.ValueOfText(epoch);
    Decimal.ValueOfText(created);
    Decimal.ValueOfText(expiry);
  }

  // ------------------------------------------------------------------- the statement

  lemma ConstantFields()
    ensures IsField(DOMAIN) && IsField("-")
  {
  }

  lemma CapabilitiesAreFields(capabilities: string)
    requires capabilities in CAPABILITIES
    ensures IsField(capabilities)
  {
    assert capabilities == "read" || capabilities == "read,write" || capabilities == "write";
  }

  /** A grant's lines, one by one. */
  lemma FieldByField(f: seq<string>, g: Grant)
    requires |f| == FIELD_COUNT
    ensures f == FieldsOf(g) <==>
              && f[0] == DOMAIN && f[1] == g.namespace && f[2] == g.scope && f[3] == g.grantee && f[4] == g.capabilities
              && f[5] == AudiencesField(g.audiences) && f[6] == RefScopesField(g.refScopes)
              && f[7] == Decimal.Text(g.epoch) && f[8] == Decimal.Text(g.created) && f[9] == Decimal.Text(g.expiry)
              && f[10] == g.nonce
  {
    hide AudiencesField, RefScopesField, Decimal.Text;
    var h := FieldsOf(g);
    if f[0] == h[0] && f[1] == h[1] && f[2] == h[2] && f[3] == h[3] && f[4] == h[4] && f[5] == h[5] && f[6] == h[6] &&
       f[7] == h[7] && f[8] == h[8] && f[9] == h[9] && f[10] == h[10] {
      assert f == [f[0], f[1], f[2], f[3], f[4], f[5], f[6], f[7], f[8], f[9], f[10]];
    }
  }

  lemma AllEleven(f: seq<string>)
    requires |f| == FIELD_COUNT
    requires IsField(f[0]) && IsField(f[1]) && IsField(f[2]) && IsField(f[3]) && IsField(f[4]) && IsField(f[5])
    requires IsField(f[6]) && IsField(f[7]) && IsField(f[8]) && IsField(f[9]) && IsField(f[10])
    ensures AllFields(f)
  {
    hide IsField;
  }

  lemma RefScopesFieldPasses(g: Grant)
    requires g.capabilities == "read" <==> g.refScopes.None?
    requires g.refScopes.Some? ==> RefScopesOk(g.refScopes.value)
    ensures IsField(RefScopesField(g.refScopes)) && ValidateRefScopes(g.capabilities, RefScopesField(g.refScopes)).None?
    ensures g.refScopes.None? <==> RefScopesField(g.refScopes) == "-"
  {
    ConstantFields();
    if g.refScopes.Some? {
      RefScopesPass(g.capabilities, g.refScopes.value);
    }
    hide IsField, RefScopesOk;
  }

  lemma FieldsAreFields(ipv6: Ipv6Rule, g: Grant)
    requires GrantOk(ipv6, g)
    ensures AllFields(FieldsOf(g))
  {
    hide IsField, IsNamespace, ScopeOk, Hex.IsHex, AudiencesOk, RefScopesOk, AudiencesField, RefScopesField, Decimal.Text,
      ValidateAudiences, ValidateRefScopes, ValidateScope, FieldsOf, AllFields;
    NamespaceIsField(g.namespace);
    ScopeTest(g.namespace, g.scope);
    HexIsField(g.grantee, 32);
    HexIsField(g.nonce, 32);
    AudiencesPass(ipv6, g.audiences);
    RefScopesFieldPasses(g);
    ConstantFields();
    CapabilitiesAreFields(g.capabilities);
    DecimalIsField(g.epoch);
    DecimalIsField(g.created);
    DecimalIsField(g.expiry);
    FieldByField(FieldsOf(g), g);
    AllEleven(FieldsOf(g));
  }

  /** `build_statement(fields)`. */
  function BuildGrant(ipv6: Ipv6Rule, g: Grant): (statement: Bytes)
    requires GrantOk(ipv6, g)
  {
    FieldsAreFields(ipv6, g);
    JoinFields(FieldsOf(g))
  }

  lemma TimesAreDigits(ipv6: Ipv6Rule, f: seq<string>)
    requires |f| == FIELD_COUNT && ValidateFields(ipv6, f).None?
    ensures Decimal.AllDigits(f[7]) && Decimal.AllDigits(f[8]) && Decimal.AllDigits(f[9])
  {
    hide Decimal.Value, Decimal.Text, Hex.IsHex, IsNamespace, ValidateScope, ValidateAudiences, ValidateRefScopes, ValidateTimes;
    TimesTest(f[7], f[8], f[9], f[10]);
  }

  /** The fields read back from an accepted statement's lines. */
  function ReadFields(ipv6: Ipv6Rule, f: seq<string>): (g: Grant)
    requires |f| == FIELD_COUNT && ValidateFields(ipv6, f).None?
  {
    TimesAreDigits(ipv6, f);
    Grant(f[1], f[2], f[3], f[4], Split(f[5], ','), if f[6] == "-" then None else Some(ScopesOf(Split(f[6], ';'))),
          Decimal.Value(f[7]), Decimal.Value(f[8]), Decimal.Value(f[9]), f[10])
  }

  function ReadBack(ipv6: Ipv6Rule, statement: Bytes): (g: Grant)
    requires ValidateGrant(ipv6, statement).None?
  {
    JoinOfSplitFields(statement, FIELD_COUNT);
    ReadFields(ipv6, SplitFields(statement, FIELD_COUNT).value)
  }

  /** A grant with its lists in canonical order. */
  function Canonical(g: Grant): (c: Grant) {
    g.(audiences := Sort(g.audiences),
       refScopes := if g.refScopes.None? then None else Some(SortedScopes(g.refScopes.value)))
  }

  lemma FieldsPass(ipv6: Ipv6Rule, g: Grant)
    requires GrantOk(ipv6, g)
    ensures ValidateFields(ipv6, FieldsOf(g)).None?
  {
    hide IsField, IsNamespace, ScopeOk, Hex.IsHex, AudiencesOk, RefScopesOk, AudiencesField, RefScopesField, Decimal.Text,
      ValidateAudiences, ValidateRefScopes, ValidateScope, ValidateTimes, Decimal.Value, FieldsOf;
    ScopeTest(g.namespace, g.scope);
    AudiencesPass(ipv6, g.audiences);
    RefScopesFieldPasses(g);
    TimesPass(g.epoch, g.created, g.expiry, g.nonce);
    FieldByField(FieldsOf(g), g);
  }

  lemma ReadOfFields(ipv6: Ipv6Rule, g: Grant)
    requires GrantOk(ipv6, g) && ValidateFields(ipv6, FieldsOf(g)).None?
    ensures ReadFields(ipv6, FieldsOf(g)) == Canonical(g)
  {
    AudiencesPass(ipv6, g.audiences);
    RefScopesFieldPasses(g);
    TimesPass(g.epoch, g.created, g.expiry, g.nonce);
    if g.refScopes.Some? {
      RefScopesPass(g.capabilities, g.refScopes.value);
    }
    hide IsField, IsNamespace, ScopeOk, Hex.IsHex, AudiencesOk, RefScopesOk, AudiencesField, RefScopesField, Decimal.Text,
      ValidateAudiences, ValidateRefScopes, ValidateScope, ValidateTimes, Decimal.Value, ValidateFields, Split, ScopesOf,
      SortedScopes;
  }

  /** Every well-formed grant within the size limit prints to an accepted statement, and
      its fields read back, with the lists in order. */
  lemma BuiltGrantsPass(ipv6: Ipv6Rule, g: Grant)
    requires GrantOk(ipv6, g) && |BuildGrant(ipv6, g)| <= MAX_STATEMENT_BYTES
    ensures ValidateGrant(ipv6, BuildGrant(ipv6, g)).None?
    ensures ReadBack(ipv6, BuildGrant(ipv6, g)) == Canonical(g)
  {
    hide GrantOk, FieldsOf, ValidateFields, SplitFields, JoinFields, AllFields, ReadFields, Canonical;
    FieldsAreFields(ipv6, g);
    SplitOfJoinFields(FieldsOf(g));
    FieldsPass(ipv6, g);
    ReadOfFields(ipv6, g);
  }

  lemma ReadIsOk(ipv6: Ipv6Rule, f: seq<string>)
    requires |f| == FIELD_COUNT && ValidateFields(ipv6, f).None?
    ensures GrantOk(ipv6, ReadFields(ipv6, f))
  {
    ScopeTest(f[1], f[2]);
    AudiencesBack(ipv6, f[5]);
    TimesTest(f[7], f[8], f[9], f[10]);
    ReadScopes(f[4], f[6]);
    hide IsField, IsNamespace, ScopeOk, Hex.IsHex, AudiencesOk, RefScopesOk, AudiencesField, RefScopesField, Decimal.Text,
      ValidateAudiences, ValidateRefScopes, ValidateScope, ValidateTimes, Decimal.Value, Split, ScopesOf;
  }

  lemma ReadScopes(capabilities: string, field: string)
    requires ValidateRefScopes(capabilities, field).None?
    ensures capabilities == "read" <==> field == "-"
    ensures field != "-" ==> RefScopesOk(ScopesOf(Split(field, ';'))) && RefScopesField(Some(ScopesOf(Split(field, ';')))) == field
  {
    if capabilities != "read" {
      RefScopesBack(capabilities, field);
    }
    hide RefScopesOk, RefScopesField, ScopesOf, Split;
  }

  lemma FieldsOfRead(ipv6: Ipv6Rule, f: seq<string>)
    requires |f| == FIELD_COUNT && ValidateFields(ipv6, f).None?
    ensures FieldsOf(ReadFields(ipv6, f)) == f
  {
    hide IsField, IsNamespace, ScopeOk, Hex.IsHex, AudiencesOk, RefScopesOk, AudiencesField, RefScopesField, Decimal.Text,
      ValidateAudiences, ValidateRefScopes, ValidateScope, ValidateTimes, Decimal.Value, Split, ScopesOf, FieldsOf;
    AudiencesBack(ipv6, f[5]);
    TimesTest(f[7], f[8], f[9], f[10]);
    ReadScopes(f[4], f[6]);
    NoScopes();
    FieldByField(f, ReadFields(ipv6, f));
  }

  lemma NoScopes()
    ensures RefScopesField(None) == "-"
  {
  }

  /** Every accepted statement is the printing of the fields read back from it. */
  lemma AcceptedGrantsRebuild(ipv6: Ipv6Rule, statement: Bytes)
    requires ValidateGrant(ipv6, statement).None?
    ensures GrantOk(ipv6, ReadBack(ipv6, statement))
    ensures BuildGrant(ipv6, ReadBack(ipv6, statement)) == statement
  {
    hide GrantOk, FieldsOf, ValidateFields, SplitFields, JoinFields, AllFields, ReadFields;
    JoinOfSplitFields(statement, FIELD_COUNT);
    var f := SplitFields(statement, FIELD_COUNT).value;
    ReadIsOk(ipv6, f);
    FieldsOfRead(ipv6, f);
  }

  /** The accepted statements are exactly the printings of well-formed grants. */
  lemma AcceptedExactly(ipv6: Ipv6Rule, statement: Bytes)
    ensures ValidateGrant(ipv6, statement).None? <==>
              |statement| <= MAX_STATEMENT_BYTES && exists g :: GrantOk(ipv6, g) && BuildGrant(ipv6, g) == statement
  {
    hide GrantOk, BuildGrant, ReadBack;
    if ValidateGrant(ipv6, statement).None? {
      AcceptedGrantsRebuild(ipv6, statement);
      JoinOfSplitFields(statement, FIELD_COUNT);
    }
    hide ValidateGrant;
    if |statement| <= MAX_STATEMENT_BYTES && exists g :: GrantOk(ipv6, g) && BuildGrant(ipv6, g) == statement {
      var g :| GrantOk(ipv6, g) && BuildGrant(ipv6, g) == statement;
      BuiltGrantsPass(ipv6, g);
    }
  }

  // --------------------------------------------------------------- the order of lists

  lemma EntriesWithout(b: seq<RefScope>, k: nat)
    requires k < |b|
    ensures multiset(b) == multiset(b[..k] + b[k + 1..]) + multiset{b[k]}
    ensures multiset(Entries(b)) == multiset(Entries(b[..k] + b[k + 1..])) + multiset{Entry(b[k])}
  {
    hide Entry;
    assert b == b[..k] + [b[k]] + b[k + 1..];
    assert Entries(b) == Entries(b[..k]) + [Entry(b[k])] + Entries(b[k + 1..]);
    assert Entries(b[..k] + b[k + 1..]) == Entries(b[..k]) + Entries(b[k + 1..]);
  }

  lemma {:induction false} SameEntries(a: seq<RefScope>, b: seq<RefScope>)
    requires multiset(a) == multiset(b)
    ensures multiset(Entries(a)) == multiset(Entries(b))
    decreases |a|
  {
    hide Entry, Entries;
    if a == [] {
      assert |b| == |multiset(b)| == 0;
    } else {
      assert a[0] in multiset(b);
      var k :| 0 <= k < |b| && b[k] == a[0];
      EntriesWithout(a, 0);
      EntriesWithout(b, k);
      assert a[..0] + a[1..] == a[1..];
      assert multiset(a[1..]) == multiset(a) - multiset{a[0]};
      assert multiset(b[..k] + b[k + 1..]) == multiset(b) - multiset{a[0]};
      SameEntries(a[1..], b[..k] + b[k + 1..]);
    }
  }

  /** Grants that differ only in the order of their lists print the same statement. */
  lemma OrderDoesNotMatter(ipv6: Ipv6Rule, g: Grant, h: Grant)
    requires GrantOk(ipv6, g) && GrantOk(ipv6, h)
    requires h == g.(audiences := h.audiences, refScopes := h.refScopes)
    requires multiset(g.audiences) == multiset(h.audiences)
    requires g.refScopes.Some? == h.refScopes.Some?
    requires g.refScopes.Some? ==> multiset(g.refScopes.value) == multiset(h.refScopes.value)
    ensures BuildGrant(ipv6, g) == BuildGrant(ipv6, h)
  {
    SortForgetsOrder(g.audiences, h.audiences);
    if g.refScopes.Some? {
      EntriesDistinct(g.refScopes.value);
      EntriesDistinct(h.refScopes.value);
      SameEntries(g.refScopes.value, h.refScopes.value);
      SortForgetsOrder(Entries(g.refScopes.value), Entries(h.refScopes.value));
    }
    hide Sort, Join, Entries, Decimal.Text, IsNamespace, ScopeOk, Hex.IsHex, AudiencesOk, RefScopesOk;
    assert FieldsOf(g) == FieldsOf(h);
  }

  // ------------------------------------------------------------------------ an instance

  /** Grants exist: the smallest read grant is well formed and its statement accepted. */
  lemma SomeGrant(ipv6: Ipv6Rule) returns (g: Grant)
    ensures GrantOk(ipv6, g) && ValidateGrant(ipv6, BuildGrant(ipv6, g)).None?
  {
    var namespace := "0x" + Zeros(40);
    g := Grant(namespace, namespace + "/" + "*", Zeros(64), "read", ["https://a"], None, 0, 0, 1, Zeros(64));
    assert namespace[2..] == Zeros(40);
    assert g.scope[|namespace| + 1..] == "*";
    SomeOrigin(ipv6);
    assert GrantOk(ipv6, g);
    SmallFields(g);
    hide GrantOk, FieldsOf, ValidateGrant, BuildGrant;
    SmallGrantPasses(ipv6, g);
  }

  lemma SmallGrantPasses(ipv6: Ipv6Rule, g: Grant)
    requires GrantOk(ipv6, g) && forall p | p in FieldsOf(g) :: |p| <= 100
    ensures ValidateGrant(ipv6, BuildGrant(ipv6, g)).None?
  {
    FieldsAreFields(ipv6, g);
    hide GrantOk, FieldsOf, Join, AllFields, ValidateGrant;
    JoinBound(FieldsOf(g), '\n', 100);
    BuiltGrantsPass(ipv6, g);
  }

  lemma SmallFields(g: Grant)
    requires |g.namespace| <= 100 && |g.scope| <= 100 && |g.grantee| <= 100 && |g.nonce| <= 100 && g.capabilities == "read"
    requires g.audiences == ["https://a"] && g.refScopes.None? && g.epoch == 0 && g.created == 0 && g.expiry == 1
    ensures forall p | p in FieldsOf(g) :: |p| <= 100
  {
    assert Sort(["https://a"][1..]) == [];
    assert AudiencesField(g.audiences) == "https://a";
  }
}
