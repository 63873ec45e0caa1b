/** UTF-8, `s.encode("utf-8")` and the strict `b.decode("utf-8")`. Dafny characters are
    Unicode scalar values, so no text holds a surrogate. */
module Utf8 {
  import opened Option
  import opened ByteStrings

  /** The bits below the leading byte go six to a continuation byte. */
  function EncodeChar(c: char): (b: Bytes)
    ensures 1 <= |b| <= 4
  {
    var u := c as int;
    if u < 0x80 then [u]
    else if u < 0x800 then [0xC0 + u / 0x40, 0x80 + u % 0x40]
    else if u < 0x1_0000 then [0xE0 + u / 0x40 / 0x40, 0x80 + u / 0x40 % 0x40, 0x80 + u % 0x40]
    else [0xF0 + u / 0x40 / 0x40 / 0x40, 0x80 + u / 0x40 / 0x40 % 0x40, 0x80 + u / 0x40 % 0x40, 0x80 + u % 0x40]
  }

  function Encode(s: string): (b: Bytes) {
    if s == "" then [] else EncodeChar(s[0]) + Encode(s[1..])
  }

  /** `len(s.encode("utf-8"))`. */
  function Length(s: string): (n: nat) {
    |Encode(s)|
  }

  function More(bits: int, b: int): (more: int) {
    bits * 0x40 + (b - 0x80)
  }

  /** The code point at the head of `b`. */
  function PointAt(b: Bytes): (u: int)
    requires b != [] && Utf8Head(b) > 0
  {
    var n, b0: int := Utf8Head(b), b[0];
    if n == 1 then b0
    else if n == 2 then More(b0 - 0xC0, b[1])
    else if n == 3 then More(More(b0 - 0xE0, b[1]), b[2])
    else More(More(More(b0 - 0xF0, b[1]), b[2]), b[3])
  }

  /** The code point at the head of `b` is a scalar value of the length its bytes claim. */
  lemma PointInRange(b: Bytes)
    requires b != [] && Utf8Head(b) > 0
    ensures 0 <= PointAt(b) < 0xD800 || 0xE000 <= PointAt(b) < 0x11_0000
    ensures match Utf8Head(b) {
              case 1 => PointAt(b) < 0x80
              case 2 => 0x80 <= PointAt(b) < 0x800
              case 3 => 0x800 <= PointAt(b) < 0x1_0000
              case _ => 0x1_0000 <= PointAt(b)
            }
  {
  }

  /** The character at the head of `b`. */
  function CharAt(b: Bytes): (c: char)
    requires b != [] && Utf8Head(b) > 0
  {
    PointInRange(b);
    PointAt(b) as char
  }

  function Decode(b: Bytes): (s: Option<string>)
    ensures s.Some? <==> IsUtf8(b)
  {
    if b == [] then Some("")
    else if Utf8Head(b) == 0 then None
    else
      var rest := Decode(b[Utf8Head(b)..]);
      if rest.None? then None else Some([CharAt(b)] + rest.value)
  }

  lemma HeadOfEncode(c: char, rest: Bytes)
    ensures Utf8Head(EncodeChar(c) + rest) == |EncodeChar(c)|
    ensures CharAt(EncodeChar(c) + rest) == c
  {
    var u := c as int;
    assert u < 0xD800 || 0xE000 <= u < 0x11_0000;
  }

  lemma MoreSplits(bits: int, b: int)
    requires 0x80 <= b <= 0xBF
    ensures More(bits, b) / 0x40 == bits && More(bits, b) % 0x40 == b - 0x80
  {
  }

  lemma EncodeOfHead(b: Bytes)
    requires b != [] && Utf8Head(b) > 0
    ensures EncodeChar(CharAt(b)) == b[..Utf8Head(b)]
  {
    PointInRange(b);
    var n, b0: int := Utf8Head(b), b[0];
    hide More;
    if n == 2 {
      MoreSplits(b0 - 0xC0, b[1]);
    } else if n == 3 {
      MoreSplits(b0 - 0xE0, b[1]);
      MoreSplits(More(b0 - 0xE0, b[1]), b[2]);
    } else if n == 4 {
      MoreSplits(b0 - 0xF0, b[1]);
      MoreSplits(More(b0 - 0xF0, b[1]), b[2]);
      MoreSplits(More(More(b0 - 0xF0, b[1]), b[2]), b[3]);
    }
  }

  /** Every text survives the trip through bytes. */
  lemma {:induction false} DecodeOfEncode(s: string)
    ensures Decode(Encode(s)) == Some(s)
  {
    hide EncodeChar, Utf8Head, CharAt, IsUtf8;
    if s != "" {
      var rest := Encode(s[1..]);
      HeadOfEncode(s[0], rest);
      DecodeOfEncode(s[1..]);
      assert Encode(s)[|EncodeChar(s[0])|..] == rest;
      assert s == [s[0]] + s[1..];
    }
  }

  /** Every byte string that decodes is the encoding of what it decodes to. */
  lemma {:induction false} EncodeOfDecode(b: Bytes)
    requires Decode(b).Some?
    ensures Encode(Decode(b).value) == b
  {
    hide EncodeChar, Utf8Head, CharAt, IsUtf8;
    if b != [] {
      var n := Utf8Head(b);
      EncodeOfDecode(b[n..]);
      EncodeOfHead(b);
      var rest := Decode(b[n..]).value;
      assert ([CharAt(b)] + rest)[1..] == rest;
      assert b == b[..n] + b[n..];
    }
  }

  /** An ASCII text has one byte a character. */
  lemma {:induction false} AsciiLength(s: string)
    requires forall i | 0 <= i < |s| :: s[i] < 0x80 as char
    ensures Length(s) == |s|
  {
    if s != "" {
      AsciiLength(s[1..]);
    }
  }

  lemma {:induction false} AtLeastOneByteEach(s: string)
    ensures Length(s) >= |s|
  {
    if s != "" {
      AtLeastOneByteEach(s[1..]);
    }
  }

  lemma {:induction false} EncodeIsUtf8(s: string)
    ensures IsUtf8(Encode(s))
  {
    DecodeOfEncode(s);
  }

  // --------------------------------------------------------------------------- order

  /** `x` is below `y` at a place both have, so whatever follows does not matter. */
  ghost predicate Precedes(x: Bytes, y: Bytes) {
    exists k :: 0 <= k < |x| && k < |y| && x[..k] == y[..k] && x[k] < y[k]
  }

  lemma PrecedesAt(x: Bytes, y: Bytes, k: nat)
    requires k < |x| && k < |y| && x[..k] == y[..k] && x[k] < y[k]
    ensures Precedes(x, y)
  {
  }

  /** UTF-8 keeps the order of code points, character by character. */
  lemma EncodeCharKeepsOrder(c: char, d: char)
    requires c < d
    ensures Precedes(EncodeChar(c), EncodeChar(d))
  {
    var x, y := EncodeChar(c), EncodeChar(d);
    var u, v := c as int, d as int;
    if x[0] < y[0] {
      PrecedesAt(x, y, 0);
    } else {
      SameLead(c, d);
      if |x| == 2 || x[1] < y[1] {
        PrecedesAt(x, y, 1);
      } else if |x| == 3 || x[2] < y[2] {
        PrecedesAt(x, y, 2);
      } else {
        PrecedesAt(x, y, 3);
      }
    }
  }

  lemma SameLead(c: char, d: char)
    requires c < d && EncodeChar(c)[0] >= EncodeChar(d)[0]
    ensures EncodeChar(c)[0] == EncodeChar(d)[0] && |EncodeChar(c)| == |EncodeChar(d)| >= 2
    ensures EncodeChar(c)[1] <= EncodeChar(d)[1]
    ensures |EncodeChar(c)| >= 3 && EncodeChar(c)[1] == EncodeChar(d)[1] ==> EncodeChar(c)[2] <= EncodeChar(d)[2]
    ensures |EncodeChar(c)| == 2 ==> EncodeChar(c)[1] < EncodeChar(d)[1]
    ensures |EncodeChar(c)| == 3 && EncodeChar(c)[1] == EncodeChar(d)[1] ==> EncodeChar(c)[2] < EncodeChar(d)[2]
    ensures |EncodeChar(c)| == 4 && EncodeChar(c)[1] == EncodeChar(d)[1] && EncodeChar(c)[2] == EncodeChar(d)[2] ==>
              EncodeChar(c)[3] < EncodeChar(d)[3]
  {
    var u, v := c as int, d as int;
    Sixes(u, v);
    if u / 0x40 < v / 0x40 {
      Sixes(u / 0x40, v / 0x40);
      if u / 0x40 / 0x40 < v / 0x40 / 0x40 {
        Sixes(u / 0x40 / 0x40, v / 0x40 / 0x40);
      }
    }
    SameLength(c, d);
  }

  /** The order of two numbers by their last six bits and the rest. */
  lemma Sixes(u: int, v: int)
    requires 0 <= u < v
    ensures u / 0x40 <= v / 0x40 && (u / 0x40 == v / 0x40 ==> u % 0x40 < v % 0x40)
  {
  }

  /** A longer encoding has a larger first byte. */
  lemma SameLength(c: char, d: char)
    requires c < d && EncodeChar(c)[0] >= EncodeChar(d)[0]
    ensures |EncodeChar(c)| == |EncodeChar(d)| >= 2
  {
  }

  lemma {:induction false} BelowBehind(a: Bytes, x: Bytes, y: Bytes)
    ensures Below(a + x, a + y) <==> Below(x, y)
    ensures a + x <= a + y <==> x <= y
  {
    if a == [] {
      assert a + x == x && a + y == y;
    } else {
      BelowBehind(a[1..], x, y);
      assert (a + x)[1..] == a[1..] + x && (a + y)[1..] == a[1..] + y;
      assert a + x <= a + y <==> (a + x)[1..] <= (a + y)[1..];
    }
  }

  lemma {:induction false} PrecedesIsBelow(x: Bytes, y: Bytes, p: Bytes, q: Bytes)
    requires Precedes(x, y)
    ensures Below(x + p, y + q) && !(x + p <= y + q)
  {
    var k :| 0 <= k < |x| && k < |y| && x[..k] == y[..k] && x[k] < y[k];
    assert x + p == x[..k] + (x[k..] + p) && y + q == x[..k] + (y[k..] + q);
    BelowBehind(x[..k], x[k..] + p, y[k..] + q);
    assert (x[k..] + p)[0] == x[k] && (y[k..] + q)[0] == y[k];
  }

  /** A byte that continues a character, and what it holds. */
  predicate Continues(b: int) {
    0x80 <= b < 0xC0
  }

  /** The encoding of a character (section 3 of RFC 3629): the leading byte says how many
      follow, and the bits below the markers are the code point. */
  predicate Spells(u: int, b: Bytes) {
    || (|b| == 1 && var b0: int := b[0]; 0 <= b0 < 0x80 && u == b0)
    || (|b| == 2 && var b0: int, b1: int := b[0], b[1];
                    0xC2 <= b0 < 0xE0 && Continues(b1) && u == (b0 - 0xC0) * 64 + (b1 - 0x80))
    || (|b| == 3 && var b0: int, b1: int, b2: int := b[0], b[1], b[2];
                    0xE0 <= b0 < 0xF0 && Continues(b1) && Continues(b2) && u >= 0x800
                    && u == (b0 - 0xE0) * 4096 + (b1 - 0x80) * 64 + (b2 - 0x80))
    || (|b| == 4 && var b0: int, b1: int, b2: int, b3: int := b[0], b[1], b[2], b[3];
                    0xF0 <= b0 < 0xF5 && Continues(b1) && Continues(b2) && Continues(b3) && u >= 0x1_0000
                    && u == (b0 - 0xF0) * 262_144 + (b1 - 0x80) * 4096 + (b2 - 0x80) * 64 + (b3 - 0x80))
  }

  lemma EncodeCharSpells(c: char)
    ensures Spells(c as int, EncodeChar(c))
  {
    var u := c as int;
    assert u < 0x11_0000;
    Divide(u);
    Divide(u / 0x40);
    Divide(u / 0x40 / 0x40);
  }

  lemma Divide(u: int)
    requires u >= 0
    ensures u == u / 0x40 * 64 + u % 0x40 && 0 <= u % 0x40 < 64
  {
  }
}
