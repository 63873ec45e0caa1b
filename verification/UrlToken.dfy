/** URL tokens: the two-segment token, its target and its eight-field statement
    (`scripts/golden/url_token_ref.py`). */
module UrlToken {
  import opened Option
  import opened ByteStrings
  import opened Texts
  import opened Names
  import opened Statements
  import Base64Url
  import Decimal
  import Hex
  import Utf8

  const DOMAIN := "mkit-url-token:v1"
  const MAX_TOKEN_LEN := 8192
  const MAX_PATH_BYTES := 1024
  const MAX_TTL_MS := 24 * 60 * 60 * 1000
  const MAX_REF_NAME_BYTES := 512
  const SIGNATURE_BYTES := 64

  // ------------------------------------------------------------------------- tokens

  /** `encode_token(statement, signature)`. */
  function EncodeToken(statement: Bytes, signature: Bytes): (token: string) {
    Base64Url.Encode(statement) + "." + Base64Url.Encode(signature)
  }

  /** `decode_token(token)`. */
  function DecodeToken(token: string): (parts: Result<(Bytes, Bytes)>) {
    if Utf8.Length(token) > MAX_TOKEN_LEN then Reject("token too long")
    else
      match Cut(token, '.')
      case None => Reject("token format")
      case Some((head, tail)) =>
        if head == "" || tail == "" || Has(tail, '.') then Reject("token format")
        else
          var statement, signature := Base64Url.DecodeStrict(head), Base64Url.DecodeStrict(tail);
          if statement.None? || signature.None? then Reject("token encoding")
          else if |signature.value| != SIGNATURE_BYTES then Reject("signature length")
          else Ok((statement.value, signature.value))
  }

  predicate TokenFits(statement: Bytes, signature: Bytes) {
    statement != [] && |signature| == SIGNATURE_BYTES && |EncodeToken(statement, signature)| <= MAX_TOKEN_LEN
  }

  lemma SegmentHasNoDot(data: Bytes)
    ensures !Has(Base64Url.Encode(data), '.') && IsAscii(Base64Url.Encode(data))
    ensures Base64Url.Encode(data) == "" <==> data == []
  {
    Base64Url.EncodedLength(data);
  }

  lemma TokenLength(statement: Bytes, signature: Bytes)
    ensures IsAscii(EncodeToken(statement, signature))
    ensures Utf8.Length(EncodeToken(statement, signature)) == |EncodeToken(statement, signature)|
  {
    SegmentHasNoDot(statement);
    SegmentHasNoDot(signature);
    hide Base64Url.Encode;
    Utf8.AsciiLength(EncodeToken(statement, signature));
  }

  lemma CutToken(statement: Bytes, signature: Bytes)
    ensures Cut(EncodeToken(statement, signature), '.') ==
            Some((Base64Url.Encode(statement), Base64Url.Encode(signature)))
  {
    SegmentHasNoDot(statement);
    CutIsExact(EncodeToken(statement, signature), '.', Base64Url.Encode(statement), Base64Url.Encode(signature));
  }

  /** A token decodes to `statement` and `signature` exactly when it is their encoding
      and fits: no other text is accepted for them. */
  lemma TokenRoundTrip(token: string, statement: Bytes, signature: Bytes)
    ensures DecodeToken(token) == Ok((statement, signature)) <==>
              token == EncodeToken(statement, signature) && TokenFits(statement, signature)
  {
    hide Base64Url.Encode, Base64Url.DecodeStrict, Utf8.Length, IsAscii;
    if DecodeToken(token) == Ok((statement, signature)) {
      var (head, tail) := Cut(token, '.').value;
      CutIsExact(token, '.', head, tail);
      Base64Url.StrictAcceptsCanonical(head);
      Base64Url.StrictAcceptsCanonical(tail);
      SegmentHasNoDot(statement);
      TokenLength(statement, signature);
    }
    if token == EncodeToken(statement, signature) && TokenFits(statement, signature) {
      SegmentHasNoDot(statement);
      SegmentHasNoDot(signature);
      CutToken(statement, signature);
      Base64Url.DecodeOfEncode(statement);
      Base64Url.DecodeOfEncode(signature);
      TokenLength(statement, signature);
    }
  }

  /** The token of any statement within its own limit fits; the longest statement a
      token can carry is 6078 bytes. */
  lemma StatementTokenFits(statement: Bytes, signature: Bytes)
    requires |signature| == SIGNATURE_BYTES && statement != []
    ensures |statement| <= MAX_STATEMENT_BYTES ==> TokenFits(statement, signature)
    ensures TokenFits(statement, signature) <==> |statement| <= 6078
  {
    Base64Url.EncodedLength(statement);
    Base64Url.EncodedLength(signature);
    hide Base64Url.Encode;
  }

  // ------------------------------------------------------------------------ targets

  datatype Target = ObjectTarget(digest: Bytes) | PathTarget(reference: string, path: string)

  /** Unicode category Cc. */
  predicate IsControl(c: char) {
    c < 0x20 as char || 0x7F as char <= c <= 0x9F as char
  }

  /** `path_ok(path)`. */
  predicate PathOk(path: string) {
    && Utf8.Length(path) <= MAX_PATH_BYTES
    && (forall i | 0 <= i < |path| :: !IsControl(path[i]))
    && (path == "" || var entries := Split(path, '/');
                      forall i | 0 <= i < |entries| :: entries[i] !in ["", ".", ".."])
  }

  /** `ref_name_ok(name)`, here with the length bound. */
  predicate BoundedRefNameOk(name: string) {
    Utf8.Length(name) <= MAX_REF_NAME_BYTES && RefNameOk(name)
  }

  predicate TargetOk(target: Target) {
    match target
    case ObjectTarget(digest) => |digest| == 32
    case PathTarget(reference, path) => BoundedRefNameOk(reference) && PathOk(path)
  }

  /** `target_field(target)`. */
  function TargetField(target: Target): (field: string) {
    match target
    case ObjectTarget(digest) => "object:" + Hex.Encode(digest)
    case PathTarget(reference, path) => "path:" + reference + ":" + Base64Url.Encode(Utf8.Encode(path))
  }

  function ParsePath(rest: string): (target: Option<Target>) {
    match Cut(rest, ':')
    case None => None
    case Some((reference, encoded)) =>
      match Base64Url.DecodeStrict(encoded)
      case None => None
      case Some(bytes) =>
        match Utf8.Decode(bytes)
        case None => None
        case Some(path) =>
          if BoundedRefNameOk(reference) && PathOk(path) then Some(PathTarget(reference, path)) else None
  }

  /** `parse_target(field)`; every failure is "invalid target". */
  function ParseTarget(field: string): (target: Option<Target>) {
    if "object:" <= field then
      var rest := field[|"object:"|..];
      if Hex.IsHex(rest, 32) then Some(ObjectTarget(Hex.Decode(rest))) else None
    else if "path:" <= field then ParsePath(field[|"path:"|..])
    else None
  }

  lemma RefNameHasNoColon(name: string)
    requires BoundedRefNameOk(name)
    ensures !Has(name, ':')
  {
    RefNameChars(name);
  }

  lemma PathRoundTrip(rest: string, reference: string, path: string)
    ensures ParsePath(rest) == Some(PathTarget(reference, path)) <==>
              BoundedRefNameOk(reference) && PathOk(path) &&
              rest == reference + ":" + Base64Url.Encode(Utf8.Encode(path))
  {
    hide Base64Url.Encode, Base64Url.DecodeStrict, Utf8.Encode, Utf8.Decode, BoundedRefNameOk, PathOk;
    if ParsePath(rest) == Some(PathTarget(reference, path)) {
      var encoded := Cut(rest, ':').value.1;
      CutIsExact(rest, ':', reference, encoded);
      Base64Url.StrictAcceptsCanonical(encoded);
      Utf8.EncodeOfDecode(Base64Url.DecodeStrict(encoded).value);
    }
    if BoundedRefNameOk(reference) && rest == reference + ":" + Base64Url.Encode(Utf8.Encode(path)) {
      RefNameHasNoColon(reference);
      CutIsExact(rest, ':', reference, Base64Url.Encode(Utf8.Encode(path)));
      Base64Url.DecodeOfEncode(Utf8.Encode(path));
      Utf8.DecodeOfEncode(path);
    }
  }

  lemma PathIsPathTarget(rest: string)
    ensures ParsePath(rest).Some? ==> ParsePath(rest).value.PathTarget?
  {
  }

  /** A target field is read to `target` exactly when it is that target's own field. */
  lemma TargetRoundTrip(field: string, target: Target)
    ensures ParseTarget(field) == Some(target) <==> TargetOk(target) && field == TargetField(target)
  {
    hide ParseTarget, TargetOk, TargetField;
    if "object:" <= field {
      ObjectFieldRoundTrip(field, target);
    } else if "path:" <= field {
      PathFieldRoundTrip(field, target);
    } else {
      OtherField(field, target);
    }
  }

  lemma ObjectFieldRoundTrip(field: string, target: Target)
    requires "object:" <= field
    ensures ParseTarget(field) == Some(target) <==> TargetOk(target) && field == TargetField(target)
  {
    hide Base64Url.Encode, Utf8.Encode, BoundedRefNameOk, PathOk, ParsePath;
    assert field == "object:" + field[|"object:"|..];
    assert field[0] == 'o';
    if Hex.IsHex(field[|"object:"|..], 32) {
      Hex.EncodeOfDecode(field[|"object:"|..]);
    }
    if target.ObjectTarget? {
      Hex.DecodeOfEncode(target.digest);
    }
  }

  lemma PathFieldRoundTrip(field: string, target: Target)
    requires "path:" <= field
    ensures ParseTarget(field) == Some(target) <==> TargetOk(target) && field == TargetField(target)
  {
    hide Base64Url.Encode, Utf8.Encode, BoundedRefNameOk, PathOk, ParsePath;
    assert field == "path:" + field[|"path:"|..];
    assert field[0] == 'p';
    var rest := field[|"path:"|..];
    PathIsPathTarget(rest);
    if target.PathTarget? {
      PathRoundTrip(rest, target.reference, target.path);
      var own := target.reference + ":" + Base64Url.Encode(Utf8.Encode(target.path));
      assert "path:" + target.reference + ":" + Base64Url.Encode(Utf8.Encode(target.path)) == "path:" + own;
      assert ("path:" + own)[|"path:"|..] == own;
    }
  }

  lemma OtherField(field: string, target: Target)
    requires !("object:" <= field) && !("path:" <= field)
    ensures ParseTarget(field) == None && field != TargetField(target)
  {
    hide Base64Url.Encode, Utf8.Encode, BoundedRefNameOk, PathOk, ParsePath;
    if target.ObjectTarget? {
      assert "object:" <= TargetField(target);
    } else {
      assert "path:" <= TargetField(target);
    }
  }

  lemma TargetIsField(target: Target)
    requires TargetOk(target)
    ensures IsField(TargetField(target))
  {
    hide Hex.Encode, Utf8.Encode, PathOk, RefNameOk;
    match target
    case ObjectTarget(digest) =>
      assert IsField("object:");
      HexIsField(Hex.Encode(digest), 32);
      FieldGlue("object:", Hex.Encode(digest));
    case PathTarget(reference, path) =>
      RefNameChars(reference);
      assert IsField("path:") && IsField(":");
      FieldGlue("path:", reference);
      FieldGlue("path:" + reference, ":");
      var encoded := Base64Url.Encode(Utf8.Encode(path));
      hide Base64Url.Encode;
      var head := "path:" + reference + ":";
      assert forall i | 0 <= i < |encoded| :: FieldChar(encoded[i]);
      assert IsField(head + encoded);
  }

  // --------------------------------------------------------------------- statements

  datatype Statement = Statement(
    audience: string, repository: string, target: Target, epoch: nat, issued: nat, expiry: nat, keyId: string)

  predicate StatementOk(ipv6: Ipv6Rule, st: Statement) {
    && OriginOk(ipv6, st.audience)
    && IdentityOk(st.repository)
    && TargetOk(st.target)
    && st.epoch <= U64_MAX && st.issued <= I64_MAX && st.expiry <= I64_MAX
    && st.issued < st.expiry <= st.issued + MAX_TTL_MS
    && Hex.IsHex(st.keyId, 16)
  }

  function FieldsOf(st: Statement): (fields: seq<string>) {
    [DOMAIN, st.audience, st.repository, TargetField(st.target), Decimal.Text(st.epoch), Decimal.Text(st.issued),
     Decimal.Text(st.expiry), st.keyId]
  }

  lemma AllEight(f: seq<string>)
    requires |f| == 8
    requires IsField(f[0]) && IsField(f[1]) && IsField(f[2]) && IsField(f[3])
    requires IsField(f[4]) && IsField(f[5]) && IsField(f[6]) && IsField(f[7])
    ensures AllFields(f)
  {
    hide IsField;
  }

  lemma FieldsAreFields(ipv6: Ipv6Rule, st: Statement)
    requires StatementOk(ipv6, st)
    ensures AllFields(FieldsOf(st))
  {
    hide IsField, OriginOk, IdentityOk, TargetOk, Hex.IsHex, TargetField, Decimal.Text, FieldsOf, AllFields;
    EightFields(st);
    FieldByField(FieldsOf(st), st);
    OriginIsField(ipv6, st.audience);
    IdentityIsField(st.repository);
    TargetIsField(st.target);
    DecimalIsField(st.epoch);
    DecimalIsField(st.issued);
    DecimalIsField(st.expiry);
    HexIsField(st.keyId, 16);
    DomainIsField();
    AllEight(FieldsOf(st));
  }

  lemma DomainIsField()
    ensures IsField(DOMAIN)
  {
  }

  /** `build_statement(fields)`. */
  function BuildStatement(ipv6: Ipv6Rule, st: Statement): (data: Bytes)
    requires StatementOk(ipv6, st)
  {
    FieldsAreFields(ipv6, st);
    JoinFields(FieldsOf(st))
  }

  function ParseTimes(epoch: string, issued: string, expiry: string): (times: Result<(nat, nat, nat)>) {
    var e := ParseDecimal(epoch, U64_MAX);
    if e.Reject? then Reject(e.reason)
    else
      var i := ParseDecimal(issued, I64_MAX);
      if i.Reject? then Reject(i.reason)
      else
        var x := ParseDecimal(expiry, I64_MAX);
        if x.Reject? then Reject(x.reason)
        else if x.value <= i.value then Reject("expiry not after created")
        else if x.value - i.value > MAX_TTL_MS then Reject("lifetime too long")
        else Ok((e.value, i.value, x.value))
  }

  /** `parse_statement(data)`: eight fields, each rule in order. */
  function ParseStatement(ipv6: Ipv6Rule, data: Bytes): (st: Result<Statement>) {
    var f := SplitFields(data, 8);
    if f.Reject? then Reject(f.reason)
    else
      JoinOfSplitFields(data, 8);
      ParseFields(ipv6, f.value)
  }

  function ParseFields(ipv6: Ipv6Rule, f: seq<string>): (st: Result<Statement>)
    requires |f| == 8
  {
    if f[0] != DOMAIN then Reject("domain")
    else if !OriginOk(ipv6, f[1]) then Reject("audience")
    else if !IdentityOk(f[2]) then Reject("repository")
    else if ParseTarget(f[3]).None? then Reject("invalid target")
    else if ParseTimes(f[4], f[5], f[6]).Reject? then Reject(ParseTimes(f[4], f[5], f[6]).reason)
    else if !Hex.IsHex(f[7], 16) then Reject("noncanonical hex")
    else
      var times := ParseTimes(f[4], f[5], f[6]).value;
      Ok(Statement(f[1], f[2], ParseTarget(f[3]).value, times.0, times.1, times.2, f[7]))
  }

  lemma TimesRoundTrip(f: seq<string>, epoch: nat, issued: nat, expiry: nat)
    requires |f| == 8
    ensures ParseTimes(f[4], f[5], f[6]) == Ok((epoch, issued, expiry)) <==>
              && f[4] == Decimal.Text(epoch) && f[5] == Decimal.Text(issued) && f[6] == Decimal.Text(expiry)
              && epoch <= U64_MAX && issued <= I64_MAX && expiry <= I64_MAX
              && issued < expiry <= issued + MAX_TTL_MS
  {
    DecimalRoundTrip(f[4], U64_MAX, epoch);
    DecimalRoundTrip(f[5], I64_MAX, issued);
    DecimalRoundTrip(f[6], I64_MAX, expiry);
    hide ParseDecimal, Decimal.Text;
  }

  lemma FieldsRoundTrip(ipv6: Ipv6Rule, f: seq<string>, st: Statement)
    requires |f| == 8
    ensures ParseFields(ipv6, f) == Ok(st) <==> StatementOk(ipv6, st) && f == FieldsOf(st)
  {
    hide FieldsOf, ParseTarget, ParseTimes, OriginOk, IdentityOk, TargetOk, TargetField, Decimal.Text, Hex.IsHex;
    FieldByField(f, st);
    TargetRoundTrip(f[3], st.target);
    TimesRoundTrip(f, st.epoch, st.issued, st.expiry);
  }

  lemma FieldByField(f: seq<string>, st: Statement)
    requires |f| == 8
    ensures f == FieldsOf(st) <==>
              && f[0] == DOMAIN && f[1] == st.audience && f[2] == st.repository && f[3] == TargetField(st.target)
              && f[4] == Decimal.Text(st.epoch) && f[5] == Decimal.Text(st.issued) && f[6] == Decimal.Text(st.expiry)
              && f[7] == st.keyId
  {
    hide TargetField, Decimal.Text;
    var g := FieldsOf(st);
    if f[0] == g[0] && f[1] == g[1] && f[2] == g[2] && f[3] == g[3] && f[4] == g[4] && f[5] == g[5] && f[6] == g[6] &&
       f[7] == g[7] {
      assert f == [f[0], f[1], f[2], f[3], f[4], f[5], f[6], f[7]];
    }
  }

  /** A statement is parsed to `st` exactly when `st` is well formed and the bytes are
      its own printing, within the size limit: one form for each, nothing else accepted. */
  lemma StatementRoundTrip(ipv6: Ipv6Rule, data: Bytes, st: Statement)
    ensures ParseStatement(ipv6, data) == Ok(st) <==>
              StatementOk(ipv6, st) && data == BuildStatement(ipv6, st) && |data| <= MAX_STATEMENT_BYTES
  {
    hide SplitFields, ParseFields, FieldsOf, StatementOk, AllFields, JoinFields;
    if ParseStatement(ipv6, data) == Ok(st) {
      JoinOfSplitFields(data, 8);
      FieldsRoundTrip(ipv6, SplitFields(data, 8).value, st);
    }
    if StatementOk(ipv6, st) && data == BuildStatement(ipv6, st) && |data| <= MAX_STATEMENT_BYTES {
      FieldsAreFields(ipv6, st);
      EightFields(st);
      SplitOfJoinFields(FieldsOf(st));
      FieldsRoundTrip(ipv6, FieldsOf(st), st);
    }
  }

  lemma EightFields(st: Statement)
    ensures |FieldsOf(st)| == 8
  {
  }

  /** Every statement the parser accepts travels in a token and comes back. */
  lemma TokenOfStatement(ipv6: Ipv6Rule, data: Bytes, signature: Bytes)
    requires ParseStatement(ipv6, data).Ok? && |signature| == SIGNATURE_BYTES
    ensures DecodeToken(EncodeToken(data, signature)) == Ok((data, signature))
    ensures |EncodeToken(data, signature)| <= MAX_TOKEN_LEN
  {
    JoinOfSplitFields(data, 8);
    assert data != [] by {
      assert AllFields(SplitFields(data, 8).value);
      assert IsField(SplitFields(data, 8).value[7]);
      JoinEnd(SplitFields(data, 8).value, '\n');
    }
    hide ParseStatement, EncodeToken, DecodeToken;
    StatementTokenFits(data, signature);
    TokenRoundTrip(EncodeToken(data, signature), data, signature);
  }

  /** Statements exist: the smallest one is well formed and is parsed. */
  lemma SomeStatement(ipv6: Ipv6Rule, keyId: string) returns (st: Statement)
    requires Hex.IsHex(keyId, 16)
    ensures st.keyId == keyId && StatementOk(ipv6, st)
    ensures ParseStatement(ipv6, BuildStatement(ipv6, st)) == Ok(st)
  {
    st := Statement("https://a", "a", ObjectTarget(seq(32, _ => 0)), 0, 0, 1, keyId);
    SomeOrigin(ipv6);
    CutIsExact("a", '/', "", "");
    Utf8.AsciiLength("a");
    assert IdentityOk("a") && StatementOk(ipv6, st);
    FieldsAreFields(ipv6, st);
    SmallFields(st);
    hide StatementOk, FieldsOf, Join, AllFields;
    JoinBound(FieldsOf(st), '\n', 100);
    EightFields(st);
    StatementRoundTrip(ipv6, BuildStatement(ipv6, st), st);
  }

  lemma SmallFields(st: Statement)
    requires st == Statement("https://a", "a", ObjectTarget(seq(32, _ => 0)), 0, 0, 1, st.keyId) && |st.keyId| == 32
    ensures forall p | p in FieldsOf(st) :: |p| <= 100
  {
  }
}
