/** Lower-case hexadecimal: `b.hex()`, `bytes.fromhex` and the pattern `[0-9a-f]+`. */
module Hex {
  import opened ByteStrings

  predicate IsHexDigit(c: char) {
    '0' <= c <= '9' || 'a' <= c <= 'f'
  }

  predicate AllHex(s: string) {
    forall i | 0 <= i < |s| :: IsHexDigit(s[i])
  }

  /** `is_hex(text, nbytes)`. */
  predicate IsHex(s: string, nbytes: nat) {
    |s| == 2 * nbytes && AllHex(s)
  }

  function DigitOf(v: nat): (c: char)
    requires v < 16
    ensures IsHexDigit(c)
  {
    if v < 10 then '0' + v as char else 'a' + (v - 10) as char
  }

  function ValueOf(c: char): (v: nat)
    requires IsHexDigit(c)
    ensures v < 16 && DigitOf(v) == c
  {
    if c <= '9' then c as int - '0' as int else c as int - 'a' as int + 10
  }

  lemma ValueOfDigit(v: nat)
    requires v < 16
    ensures ValueOf(DigitOf(v)) == v
  {
  }

  /** `b.hex()`. */
  function Encode(b: Bytes): (s: string)
    ensures |s| == 2 * |b| && AllHex(s)
  {
    if b == [] then "" else [DigitOf(b[0] / 16), DigitOf(b[0] % 16)] + Encode(b[1..])
  }

  /** `bytes.fromhex(s)`. */
  function Decode(s: string): (b: Bytes)
    requires AllHex(s) && |s| % 2 == 0
    ensures |b| == |s| / 2
  {
    if s == "" then [] else [16 * ValueOf(s[0]) + ValueOf(s[1])] + Decode(s[2..])
  }

  lemma {:induction false} DecodeOfEncode(b: Bytes)
    ensures Decode(Encode(b)) == b
  {
    if b != [] {
      DecodeOfEncode(b[1..]);
      ValueOfDigit(b[0] / 16);
      ValueOfDigit(b[0] % 16);
      assert Encode(b)[2..] == Encode(b[1..]);
    }
  }

  lemma TwoDigits(hi: int, lo: int)
    requires 0 <= lo < 16
    ensures (16 * hi + lo) / 16 == hi && (16 * hi + lo) % 16 == lo
  {
  }

  lemma {:induction false} EncodeOfDecode(s: string)
    requires AllHex(s) && |s| % 2 == 0
    ensures Encode(Decode(s)) == s
  {
    hide DigitOf, ValueOf, IsHexDigit;
    if s != "" {
      EncodeOfDecode(s[2..]);
      TwoDigits(ValueOf(s[0]), ValueOf(s[1]));
      assert Decode(s)[1..] == Decode(s[2..]);
      assert s == [s[0], s[1]] + s[2..];
    }
  }

  /** The digits of every byte, high half first. */
  lemma {:induction false} EncodeAt(b: Bytes, i: nat)
    requires i < |b|
    ensures Encode(b)[2 * i] == "0123456789abcdef"[b[i] / 16] && Encode(b)[2 * i + 1] == "0123456789abcdef"[b[i] % 16]
  {
    if i > 0 {
      EncodeAt(b[1..], i - 1);
    }
  }
}
