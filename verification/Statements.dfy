/** The text rules every statement obeys: printable ASCII fields joined by line feeds
    (`split_fields` of `url_token_ref.py`, the opening of `validate_grant`). */
module Statements {
  import opened Words
  import opened Option
  import opened ByteStrings
  import opened Texts
  import opened Names
  import Decimal

  const MAX_STATEMENT_BYTES := 4096
  const U64_MAX := 0xFFFF_FFFF_FFFF_FFFF
  const I64_MAX := 0x7FFF_FFFF_FFFF_FFFF

  predicate AllowedByte(b: Byte) {
    b == 0x0A || 0x21 <= b <= 0x7E
  }

  /** The loop over the bytes: the reason of the first one that is not allowed. */
  method ScanBytes(data: Bytes) returns (fault: Option<string>)
    ensures fault.None? <==> forall i | 0 <= i < |data| :: AllowedByte(data[i])
    ensures fault == ByteFault(data)
  {
    var i := 0;
    while i < |data|
      invariant i <= |data|
      invariant forall k | 0 <= k < i :: AllowedByte(data[k])
      invariant ByteFault(data) == ByteFault(data[i..])
    {
      if data[i] == 0x0D {
        return Some("carriage return");
      }
      if data[i] != 0x0A && !(0x21 <= data[i] <= 0x7E) {
        return Some("byte out of range");
      }
      i := i + 1;
    }
    return None;
  }

  function ByteFault(data: Bytes): (fault: Option<string>) {
    if data == [] then None
    else if AllowedByte(data[0]) then ByteFault(data[1..])
    else Some(if data[0] == 0x0D then "carriage return" else "byte out of range")
  }

  lemma {:induction false} NoFaultIsAllowed(data: Bytes)
    ensures ByteFault(data).None? <==> forall i | 0 <= i < |data| :: AllowedByte(data[i])
  {
    if data != [] {
      NoFaultIsAllowed(data[1..]);
      assert data == [data[0]] + data[1..];
    }
  }

  /** `split_fields(data, n)`. */
  function SplitFields(data: Bytes, n: nat): (fields: Result<seq<string>>) {
    if |data| > MAX_STATEMENT_BYTES then Reject("statement too long")
    else if ByteFault(data).Some? then Reject(ByteFault(data).value)
    else if data != [] && data[|data| - 1] == 0x0A then Reject("final line feed")
    else
      NoFaultIsAllowed(data);
      var fields := Split(ToText(data), '\n');
      if |fields| != n then Reject("field count")
      else if "" in fields then Reject("empty field")
      else Ok(fields)
  }

  predicate AllFields(fields: seq<string>) {
    forall i | 0 <= i < |fields| :: IsField(fields[i])
  }

  /** `"\n".join(fields).encode("ascii")`. */
  function JoinFields(fields: seq<string>): (data: Bytes)
    requires AllFields(fields)
  {
    JoinedIsAscii(fields);
    ToBytes(Join(fields, '\n'))
  }

  lemma JoinedIsAscii(fields: seq<string>)
    requires AllFields(fields)
    ensures Only(Join(fields, '\n'), c => StatementChar(c)) && IsAscii(Join(fields, '\n'))
  {
    var allowed := (c: char) => StatementChar(c);
    JoinOnly(fields, '\n', allowed);
    var s := Join(fields, '\n');
    assert forall i | 0 <= i < |s| :: allowed(s[i]);
  }

  /** Joining fields and splitting the statement gives the fields back. */
  lemma SplitOfJoinFields(fields: seq<string>)
    requires fields != [] && AllFields(fields) && |JoinFields(fields)| <= MAX_STATEMENT_BYTES
    ensures SplitFields(JoinFields(fields), |fields|) == Ok(fields)
  {
    hide Join, Split, ByteFault;
    var text, data := Join(fields, '\n'), JoinFields(fields);
    JoinedIsAscii(fields);
    JoinedIsAllowed(fields);
    TextOfBytes(text);
    NoFaultIsAllowed(data);
    forall p | p in fields
      ensures !Has(p, '\n')
    {
      FieldHasNoBreak(p);
    }
    SplitOfJoin(fields, '\n');
    assert IsField(fields[|fields| - 1]);
    JoinEnd(fields, '\n');
  }

  lemma JoinedIsAllowed(fields: seq<string>)
    requires AllFields(fields)
    ensures forall i | 0 <= i < |JoinFields(fields)| :: AllowedByte(JoinFields(fields)[i])
  {
    JoinedIsAscii(fields);
    var text, data := Join(fields, '\n'), JoinFields(fields);
    hide Join;
    forall i | 0 <= i < |data|
      ensures AllowedByte(data[i])
    {
      assert StatementChar(text[i]);
    }
  }

  /** A statement that splits is its fields joined. */
  lemma JoinOfSplitFields(data: Bytes, n: nat)
    requires SplitFields(data, n).Ok?
    ensures var fields := SplitFields(data, n).value;
            |fields| == n && AllFields(fields) && JoinFields(fields) == data && |data| <= MAX_STATEMENT_BYTES
  {
    hide Join, Split, ByteFault, SplitFields, IsField, Has;
    SplitFieldsOk(data, n);
    var text := ToText(data);
    var fields := Split(text, '\n');
    BytesOfText(data);
    JoinOfSplit(text, '\n');
    SplitOnly(text, '\n', c => StatementChar(c));
    forall i | 0 <= i < |fields|
      ensures IsField(fields[i])
    {
      assert fields[i] in fields;
      FieldOnly(fields[i]);
    }
  }

  lemma SplitFieldsOk(data: Bytes, n: nat)
    requires SplitFields(data, n).Ok?
    ensures |data| <= MAX_STATEMENT_BYTES && AllAscii(data) && Only(ToText(data), c => StatementChar(c))
    ensures SplitFields(data, n).value == Split(ToText(data), '\n')
    ensures |Split(ToText(data), '\n')| == n && "" !in Split(ToText(data), '\n')
  {
    hide Split, ByteFault;
    NoFaultIsAllowed(data);
  }

  lemma FieldOnly(s: string)
    requires Only(s, c => StatementChar(c)) && !Has(s, '\n') && s != ""
    ensures IsField(s)
  {
    var allowed := (c: char) => StatementChar(c);
    assert forall i | 0 <= i < |s| :: allowed(s[i]) && s[i] != '\n';
  }

  /** `decimal(text, maximum)`. */
  function ParseDecimal(text: string, maximum: nat): (n: Result<nat>) {
    if !Decimal.IsCanonical(text) then Reject("noncanonical decimal")
    else if Decimal.Value(text) > maximum then Reject("decimal out of range")
    else Ok(Decimal.Value(text))
  }

  /** Exactly the printed numbers within the bound are read, each to itself. */
  lemma DecimalRoundTrip(text: string, maximum: nat, n: nat)
    ensures ParseDecimal(text, maximum) == Ok(n) <==> text == Decimal.Text(n) && n <= maximum
  {
    Decimal.ValueOfText(n);
    if Decimal.IsCanonical(text) {
      Decimal.TextOfValue(text);
    }
  }
}
