/** `[u32 LE length][bytes]` fields (`lp_encode` and `lp_fields` of
    `scripts/golden/grants_ref.py`). */
module LengthPrefixed {
  import opened Words
  import opened Option
  import opened ByteStrings

  /** Every length fits its four bytes; `to_bytes(4, "little")` raises otherwise. */
  predicate Framable(fields: seq<Bytes>) {
    forall i | 0 <= i < |fields| :: |fields[i]| < 0x1_0000_0000
  }

  /** `lp_encode(*fields)`. */
  function Encode(fields: seq<Bytes>): (blob: Bytes)
    requires Framable(fields)
  {
    if fields == [] then [] else PackWord(|fields[0]|) + fields[0] + Encode(fields[1..])
  }

  /** What `lp_fields(blob, count)` reads: exactly `count` fields and nothing after. */
  function Fields(blob: Bytes, count: nat): (fields: Option<seq<Bytes>>) {
    if count == 0 then if blob == [] then Some([]) else None
    else if |blob| < 4 then None
    else
      var n, rest := UnpackWord(blob[..4]), blob[4..];
      if |rest| < n then None
      else
        var more := Fields(rest[n..], count - 1);
        if more.None? then None else Some([rest[..n]] + more.value)
  }

  function Prepend(out: seq<Bytes>, more: Option<seq<Bytes>>): (all: Option<seq<Bytes>>) {
    if more.None? then None else Some(out + more.value)
  }

  /** `lp_fields(blob, count)`: the loop that eats the blob. */
  method LpFields(blob: Bytes, count: nat) returns (fields: Option<seq<Bytes>>)
    ensures fields == Fields(blob, count)
  {
    hide UnpackWord;
    var out: seq<Bytes>, rest, i := [], blob, 0;
    assert Fields(blob, count).Some? ==> out + Fields(blob, count).value == Fields(blob, count).value;
    while i < count
      invariant i <= count
      invariant Fields(blob, count) == Prepend(out, Fields(rest, count - i))
    {
      if |rest| < 4 {
        return None;
      }
      var n := UnpackWord(rest[..4]);
      rest := rest[4..];
      if |rest| < n {
        return None;
      }
      ghost var more := Fields(rest[n..], count - i - 1);
      assert more.Some? ==> out + ([rest[..n]] + more.value) == out + [rest[..n]] + more.value;
      out := out + [rest[..n]];
      rest := rest[n..];
      i := i + 1;
    }
    assert out + [] == out;
    return if rest == [] then Some(out) else None;
  }

  lemma PackUnpackWord(b: Bytes)
    requires |b| == 4
    ensures PackWord(UnpackWord(b)) == b
  {
    var b0: int, b1: int, b2: int, b3: int := b[0], b[1], b[2], b[3];
    var hi := b2 + 0x100 * b3;
    var lo := b1 + 0x100 * hi;
    var w: int := UnpackWord(b);
    assert w == b0 + 0x100 * lo;
    LowByte(b2, b3);
    LowByte(b1, hi);
    LowByte(b0, lo);
    DivideTwice(w);
  }

  lemma LowByte(b: int, more: int)
    requires 0 <= b < 0x100
    ensures (b + 0x100 * more) % 0x100 == b && (b + 0x100 * more) / 0x100 == more
  {
  }

  lemma DivideTwice(w: int)
    ensures w / 0x1_0000 == w / 0x100 / 0x100 && w / 0x100_0000 == w / 0x100 / 0x100 / 0x100
  {
  }

  /** Reading back what was encoded gives the same fields. */
  lemma {:induction false} FieldsOfEncode(fields: seq<Bytes>)
    requires Framable(fields)
    ensures Fields(Encode(fields), |fields|) == Some(fields)
  {
    hide PackWord;
    if fields != [] {
      hide Fields;
      FieldsOfEncode(fields[1..]);
      ReadOne(fields[0], Encode(fields[1..]), |fields| - 1);
      assert fields == [fields[0]] + fields[1..];
    }
  }

  /** One field is read back, and the rest after it. */
  lemma ReadOne(first: Bytes, more: Bytes, count: nat)
    requires |first| < 0x1_0000_0000
    ensures Fields(PackWord(|first|) + first + more, count + 1) == Prepend([first], Fields(more, count))
  {
    hide PackWord, UnpackWord;
    UnpackPackWord(|first|);
    var blob := PackWord(|first|) + first + more;
    assert blob[..4] == PackWord(|first|);
    assert blob[4..] == first + more;
    assert (first + more)[..|first|] == first && (first + more)[|first|..] == more;
  }

  /** Every accepted blob is the encoding of what was read from it. */
  lemma {:induction false} EncodeOfFields(blob: Bytes, count: nat)
    requires Fields(blob, count).Some?
    ensures var fields := Fields(blob, count).value; |fields| == count && Framable(fields) && Encode(fields) == blob
  {
    if count > 0 {
      var n, rest := UnpackWord(blob[..4]), blob[4..];
      EncodeOfFields(rest[n..], count - 1);
      PackUnpackWord(blob[..4]);
      hide PackWord, UnpackWord;
      var more := Fields(rest[n..], count - 1).value;
      assert ([rest[..n]] + more)[1..] == more;
      assert blob == blob[..4] + rest[..n] + rest[n..];
    }
  }

  lemma {:induction false} SomeBytesEach(fields: seq<Bytes>)
    requires Framable(fields) && fields != []
    ensures |Encode(fields)| >= 4
  {
  }

  /** The framing tells how many fields there are: no blob has two readings. */
  lemma {:induction false} EncodeInjective(a: seq<Bytes>, b: seq<Bytes>)
    requires Framable(a) && Framable(b) && Encode(a) == Encode(b)
    ensures a == b
  {
    if a == [] || b == [] {
      if a != [] {
        SomeBytesEach(a);
      } else if b != [] {
        SomeBytesEach(b);
      }
    } else {
      FieldsOfEncode(a);
      FieldsOfEncode(b);
      FirstField(a);
      FirstField(b);
      hide Encode;
      EncodeInjective(a[1..], b[1..]);
      assert a == [a[0]] + a[1..] && b == [b[0]] + b[1..];
    }
  }

  lemma FirstField(fields: seq<Bytes>)
    requires Framable(fields) && fields != []
    ensures var blob, n := Encode(fields), |fields[0]|;
            && |blob| >= 4 + n && UnpackWord(blob[..4]) == n
            && fields[0] == blob[4..4 + n] && Encode(fields[1..]) == blob[4 + n..]
  {
    UnpackPackWord(|fields[0]|);
    hide PackWord, UnpackWord;
    assert Encode(fields)[..4] == PackWord(|fields[0]|);
  }

  /** `lp_fields` accepts an encoding under its own count only. */
  lemma CountMatters(fields: seq<Bytes>, count: nat)
    requires Framable(fields)
    ensures Fields(Encode(fields), count).Some? <==> count == |fields|
  {
    FieldsOfEncode(fields);
    if Fields(Encode(fields), count).Some? {
      EncodeOfFields(Encode(fields), count);
      EncodeInjective(Fields(Encode(fields), count).value, fields);
    }
  }
}
