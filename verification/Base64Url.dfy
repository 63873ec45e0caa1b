/** Unpadded base64url: `b64url`, `b64url_strict` and `b64_canonical` of the reference
    codecs (section 5 of RFC 4648, with the canonical trailing bits of section 3.5). */
module Base64Url {
  import opened Words
  import opened Option
  import opened ByteStrings

  type Six = x: int | 0 <= x < 64

  predicate InAlphabet(c: char) {
    'A' <= c <= 'Z' || 'a' <= c <= 'z' || '0' <= c <= '9' || c == '-' || c == '_'
  }

  function CharOf(v: Six): (c: char)
    ensures InAlphabet(c)
  {
    if v < 26 then 'A' + v as char
    else if v < 52 then 'a' + (v - 26) as char
    else if v < 62 then '0' + (v - 52) as char
    else if v == 62 then '-'
    else '_'
  }

  function ValueOf(c: char): (v: Six)
    requires InAlphabet(c)
    ensures CharOf(v) == c
  {
    if c == '-' then 62
    else if c == '_' then 63
    else if c <= '9' then c as int - '0' as int + 52
    else if c <= 'Z' then c as int - 'A' as int
    else c as int - 'a' as int + 26
  }

  /** The alphabet (table 2 of RFC 4648): A to Z, a to z, 0 to 9, the minus and the underscore. */
  lemma AlphabetIs(v: Six)
    ensures CharOf(v) as int == if v <= 25 then 65 + v
                                else if v <= 51 then 97 + (v - 26)
                                else if v <= 61 then 48 + (v - 52)
                                else if v == 62 then 45 else 95
  {
  }

  lemma ValueOfChar(v: Six)
    ensures ValueOf(CharOf(v)) == v
  {
  }

  // ------------------------------------------------- groups of three bytes, four sextets

  function First(a: Byte): (v: Six) { a / 4 }

  function Second(a: Byte, b: Byte): (v: Six) { a % 4 * 16 + b / 16 }

  function Third(b: Byte, c: Byte): (v: Six) { b % 16 * 4 + c / 64 }

  function Fourth(c: Byte): (v: Six) { c % 64 }

  function Byte0(p: Six, q: Six): (b: Byte) { p * 4 + q / 16 }

  function Byte1(q: Six, r: Six): (b: Byte) { q % 16 * 16 + r / 4 }

  function Byte2(r: Six, s: Six): (b: Byte) { r % 4 * 64 + s }

  /** The sextets of a byte string; a short last group is filled up with zero bits. */
  function Sextets(data: Bytes): (v: seq<Six>) {
    if data == [] then []
    else if |data| == 1 then [First(data[0]), Second(data[0], 0)]
    else if |data| == 2 then [First(data[0]), Second(data[0], data[1]), Third(data[1], 0)]
    else [First(data[0]), Second(data[0], data[1]), Third(data[1], data[2]), Fourth(data[2])] + Sextets(data[3..])
  }

  /** The bytes of some sextets; what is left of a short last group is dropped. */
  function Octets(v: seq<Six>): (data: Bytes)
    requires |v| % 4 != 1
  {
    if |v| == 0 then []
    else if |v| == 2 then [Byte0(v[0], v[1])]
    else if |v| == 3 then [Byte0(v[0], v[1]), Byte1(v[1], v[2])]
    else [Byte0(v[0], v[1]), Byte1(v[1], v[2]), Byte2(v[2], v[3])] + Octets(v[4..])
  }

  predicate AllInAlphabet(s: string) {
    forall i | 0 <= i < |s| :: InAlphabet(s[i])
  }

  function Chars(v: seq<Six>): (s: string)
    ensures |s| == |v| && AllInAlphabet(s)
  {
    seq(|v|, i requires 0 <= i < |v| => CharOf(v[i]))
  }

  function Values(s: string): (v: seq<Six>)
    requires AllInAlphabet(s)
    ensures |v| == |s|
  {
    seq(|s|, i requires 0 <= i < |s| => ValueOf(s[i]))
  }

  /** `base64.urlsafe_b64encode(data).rstrip(b"=")`. */
  function Encode(data: Bytes): (s: string)
    ensures AllInAlphabet(s)
  {
    Chars(Sextets(data))
  }

  /** `b64url_strict(segment)`: decode, encode again, compare. */
  function DecodeStrict(segment: string): (data: Option<Bytes>) {
    if !AllInAlphabet(segment) || |segment| % 4 == 1 then None
    else
      var decoded := Octets(Values(segment));
      if Encode(decoded) != segment then None else Some(decoded)
  }

  // ------------------------------------------------------------------- round trips

  lemma ValuesOfChars(v: seq<Six>)
    ensures Values(Chars(v)) == v
  {
    forall i | 0 <= i < |v|
      ensures Values(Chars(v))[i] == v[i]
    {
      ValueOfChar(v[i]);
    }
  }

  lemma CharsOfValues(s: string)
    requires AllInAlphabet(s)
    ensures Chars(Values(s)) == s
  {
  }

  lemma GroupRoundTrip(a: Byte, b: Byte, c: Byte)
    ensures Byte0(First(a), Second(a, b)) == a
    ensures Byte1(Second(a, b), Third(b, c)) == b
    ensures Byte2(Third(b, c), Fourth(c)) == c
  {
  }

  lemma {:induction false} OctetsOfSextets(data: Bytes)
    ensures |Sextets(data)| % 4 != 1 && Octets(Sextets(data)) == data
    ensures |Sextets(data)| == (4 * |data| + 2) / 3
  {
    hide First, Second, Third, Fourth, Byte0, Byte1, Byte2;
    if |data| == 1 {
      GroupRoundTrip(data[0], 0, 0);
    } else if |data| == 2 {
      GroupRoundTrip(data[0], data[1], 0);
    } else if |data| >= 3 {
      GroupRoundTrip(data[0], data[1], data[2]);
      OctetsOfSextets(data[3..]);
      assert Sextets(data)[4..] == Sextets(data[3..]);
      assert data == [data[0], data[1], data[2]] + data[3..];
    }
  }

  /** Every byte string decodes from its encoding. */
  lemma DecodeOfEncode(data: Bytes)
    ensures DecodeStrict(Encode(data)) == Some(data)
  {
    OctetsOfSextets(data);
    ValuesOfChars(Sextets(data));
  }

  /** `n` bytes take `ceil(4n/3)` characters. */
  lemma EncodedLength(data: Bytes)
    ensures |Encode(data)| == (4 * |data| + 2) / 3
  {
    OctetsOfSextets(data);
  }

  // ---------------------------------------------------------- which texts are accepted

  /** The bits a short last group does not use are zero. */
  predicate ZeroTrailingBits(v: seq<Six>) {
    && (|v| % 4 == 2 ==> v[|v| - 1] % 16 == 0)
    && (|v| % 4 == 3 ==> v[|v| - 1] % 4 == 0)
  }

  lemma GroupBack(p: Six, q: Six, r: Six, s: Six)
    ensures First(Byte0(p, q)) == p
    ensures Second(Byte0(p, q), Byte1(q, r)) == q
    ensures Third(Byte1(q, r), Byte2(r, s)) == r
    ensures Fourth(Byte2(r, s)) == s
    ensures Second(Byte0(p, q), 0) == q <==> q % 16 == 0
    ensures Third(Byte1(q, r), 0) == r <==> r % 4 == 0
  {
  }

  lemma {:induction false} SextetsOfOctets(v: seq<Six>)
    requires |v| % 4 != 1
    ensures Sextets(Octets(v)) == v <==> ZeroTrailingBits(v)
    ensures |Sextets(Octets(v))| == |v|
  {
    if |v| < 4 {
      LastGroup(v);
    } else {
      hide Sextets, Octets;
      SextetsOfOctets(v[4..]);
      FirstGroup(v);
      ZeroTrailingStep(v);
      var four, again := v[..4], Sextets(Octets(v[4..]));
      assert v == four + v[4..];
      assert (four + again)[4..] == again;
    }
  }

  lemma LastGroup(v: seq<Six>)
    requires |v| < 4 && |v| != 1
    ensures Sextets(Octets(v)) == v <==> ZeroTrailingBits(v)
    ensures |Sextets(Octets(v))| == |v|
  {
    hide First, Second, Third, Fourth, Byte0, Byte1, Byte2;
    if |v| == 2 {
      GroupBack(v[0], v[1], 0, 0);
    } else if |v| == 3 {
      GroupBack(v[0], v[1], v[2], 0);
    }
  }

  lemma OctetsStep(v: seq<Six>)
    requires |v| >= 4 && |v| % 4 != 1
    ensures Octets(v) == [Byte0(v[0], v[1]), Byte1(v[1], v[2]), Byte2(v[2], v[3])] + Octets(v[4..])
  {
  }

  lemma SextetsStep(data: Bytes)
    requires |data| >= 3
    ensures Sextets(data)
         == [First(data[0]), Second(data[0], data[1]), Third(data[1], data[2]), Fourth(data[2])] + Sextets(data[3..])
  {
  }

  lemma ZeroTrailingStep(v: seq<Six>)
    requires |v| >= 4 && |v| % 4 != 1
    ensures ZeroTrailingBits(v) <==> ZeroTrailingBits(v[4..])
  {
  }

  lemma FirstGroup(v: seq<Six>)
    requires |v| >= 4 && |v| % 4 != 1
    ensures Sextets(Octets(v)) == v[..4] + Sextets(Octets(v[4..]))
  {
    hide First, Second, Third, Fourth, Byte0, Byte1, Byte2, Octets, Sextets;
    var data := Octets(v);
    OctetsStep(v);
    assert data[3..] == Octets(v[4..]);
    SextetsStep(data);
    GroupBack(v[0], v[1], v[2], v[3]);
    assert v[..4] == [v[0], v[1], v[2], v[3]];
  }

  /** Exactly the alphabet texts of a possible length with zero trailing bits are
      accepted, and each is the encoding of what it decodes to. */
  lemma StrictAcceptsCanonical(segment: string)
    ensures DecodeStrict(segment).Some? <==>
              AllInAlphabet(segment) && |segment| % 4 != 1 && ZeroTrailingBits(Values(segment))
    ensures DecodeStrict(segment).Some? ==> Encode(DecodeStrict(segment).value) == segment
  {
    if AllInAlphabet(segment) && |segment| % 4 != 1 {
      var v := Values(segment);
      SextetsOfOctets(v);
      CharsOfValues(segment);
      ValuesOfChars(Sextets(Octets(v)));
    }
  }

  /** `b64_canonical(segment)`: the header check refuses the empty segment as well. */
  predicate IsCanonicalSegment(segment: string) {
    && AllInAlphabet(segment) && segment != "" && |segment| % 4 != 1
    && Encode(Octets(Values(segment))) == segment
  }

  /** The header check and the token decoder agree on every other text. */
  lemma CanonicalIsStrict(segment: string)
    ensures IsCanonicalSegment(segment) <==> segment != "" && DecodeStrict(segment).Some?
  {
  }

  // ------------------------------------------------------------------ the bit stream

  /** The low `n` bits of `x`, most significant first. */
  function Bits(x: nat, n: nat): (bits: seq<int>)
    ensures |bits| == n
  {
    if n == 0 then [] else Bits(x / 2, n - 1) + [x % 2]
  }

  function BitsOfBytes(data: Bytes): (bits: seq<int>)
    ensures |bits| == 8 * |data|
  {
    if data == [] then [] else Bits(data[0], 8) + BitsOfBytes(data[1..])
  }

  function BitsOfText(s: string): (bits: seq<int>)
    requires AllInAlphabet(s)
    ensures |bits| == 6 * |s|
  {
    if s == "" then [] else Bits(ValueOf(s[0]), 6) + BitsOfText(s[1..])
  }

  /** `t` shifted up by `k` bits. */
  function Up(t: nat, k: nat): (x: nat) {
    if k == 0 then t else 2 * Up(t, k - 1)
  }

  lemma {:induction false} BitsConcat(t: nat, y: nat, m: nat, k: nat)
    requires y < Up(1, k)
    ensures Bits(Up(t, k) + y, m + k) == Bits(t, m) + Bits(y, k)
  {
    if k > 0 {
      var x := Up(t, k) + y;
      assert x / 2 == Up(t, k - 1) + y / 2 && x % 2 == y % 2;
      BitsConcat(t, y / 2, m, k - 1);
      assert Bits(t, m) + (Bits(y / 2, k - 1) + [y % 2]) == Bits(t, m) + Bits(y / 2, k - 1) + [y % 2];
    }
  }

  lemma UpBy(t: nat)
    ensures Up(t, 2) == 4 * t && Up(t, 4) == 16 * t && Up(t, 6) == 64 * t
  {
    assert Up(t, 1) == 2 * t;
    assert Up(t, 2) == 4 * t;
    assert Up(t, 3) == 8 * t;
    assert Up(t, 4) == 16 * t;
    assert Up(t, 5) == 32 * t;
  }

  /** A byte is cut after its first six, four or two bits. */
  lemma CutByte(x: Byte)
    ensures Bits(x, 8) == Bits(x / 4, 6) + Bits(x % 4, 2)
    ensures Bits(x, 8) == Bits(x / 16, 4) + Bits(x % 16, 4)
    ensures Bits(x, 8) == Bits(x / 64, 2) + Bits(x % 64, 6)
  {
    UpBy(1);
    UpBy(x / 4);
    UpBy(x / 16);
    UpBy(x / 64);
    BitsConcat(x / 4, x % 4, 6, 2);
    BitsConcat(x / 16, x % 16, 4, 4);
    BitsConcat(x / 64, x % 64, 2, 6);
  }

  lemma GluedSecond(a: Byte, b: Byte)
    ensures Bits(Second(a, b), 6) == Bits(a % 4, 2) + Bits(b / 16, 4)
  {
    UpBy(1);
    UpBy(a % 4);
    assert Second(a, b) == Up(a % 4, 4) + b / 16;
    hide Bits, Up, Second;
    BitsConcat(a % 4, b / 16, 2, 4);
  }

  lemma GluedThird(b: Byte, c: Byte)
    ensures Bits(Third(b, c), 6) == Bits(b % 16, 4) + Bits(c / 64, 2)
  {
    hide Bits, Up, Third;
    UpBy(1);
    UpBy(b % 16);
    assert Third(b, c) == 4 * (b % 16) + c / 64 by { ThirdIs(b, c); }
    BitsConcat(b % 16, c / 64, 4, 2);
  }

  lemma ThirdIs(b: Byte, c: Byte)
    ensures Third(b, c) == 4 * (b % 16) + c / 64
  {
  }

  lemma GroupBits(a: Byte, b: Byte, c: Byte)
    ensures Bits(First(a), 6) + Bits(Second(a, 0), 6) == Bits(a, 8) + Bits(0, 4)
    ensures Bits(First(a), 6) + Bits(Second(a, b), 6) + Bits(Third(b, 0), 6) == Bits(a, 8) + Bits(b, 8) + Bits(0, 2)
    ensures Bits(First(a), 6) + Bits(Second(a, b), 6) + Bits(Third(b, c), 6) + Bits(Fourth(c), 6) ==
            Bits(a, 8) + Bits(b, 8) + Bits(c, 8)
  {
    CutByte(a);
    CutByte(b);
    CutByte(c);
    GluedSecond(a, b);
    GluedSecond(a, 0);
    GluedThird(b, c);
    GluedThird(b, 0);
    assert First(a) == a / 4 && Fourth(c) == c % 64 && 0 / 16 == 0 && 0 / 64 == 0;
    hide Bits, First, Second, Third, Fourth;
    Regroup(Bits(a / 4, 6), Bits(a % 4, 2), Bits(0, 4), [], [], []);
    Regroup(Bits(a / 4, 6), Bits(a % 4, 2), Bits(b / 16, 4), Bits(b % 16, 4), Bits(0, 2), []);
    Regroup(Bits(a / 4, 6), Bits(a % 4, 2), Bits(b / 16, 4), Bits(b % 16, 4), Bits(c / 64, 2), Bits(c % 64, 6));
  }

  lemma Regroup(p: seq<int>, q: seq<int>, r: seq<int>, s: seq<int>, t: seq<int>, u: seq<int>)
    ensures p + (q + r) + (s + t) + u == (p + q) + (r + s) + (t + u)
    ensures s == t == u == [] ==> p + (q + r) == (p + q) + r
    ensures u == [] ==> p + (q + r) + (s + t) == (p + q) + (r + s) + t
  {
  }

  lemma ZeroBits()
    ensures Bits(0, 4) == [0, 0, 0, 0] && Bits(0, 2) == [0, 0]
  {
    assert Bits(0, 1) == [0] && Bits(0, 3) == [0, 0, 0];
  }

  function Padding(n: nat): (bits: seq<int>) {
    if n % 3 == 1 then [0, 0, 0, 0] else if n % 3 == 2 then [0, 0] else []
  }

  lemma CharsStep(s: string, v: Six, w: seq<Six>)
    requires s == Chars([v] + w)
    ensures BitsOfText(s) == Bits(v, 6) + BitsOfText(Chars(w))
  {
    ValueOfChar(v);
    assert s[1..] == Chars(w);
  }

  function BitsOfSextets(v: seq<Six>): (bits: seq<int>) {
    if v == [] then [] else Bits(v[0], 6) + BitsOfSextets(v[1..])
  }

  lemma {:induction false} BitsOfChars(v: seq<Six>)
    ensures BitsOfText(Chars(v)) == BitsOfSextets(v)
  {
    if v != [] {
      assert v == [v[0]] + v[1..];
      CharsStep(Chars(v), v[0], v[1..]);
      BitsOfChars(v[1..]);
    }
  }

  lemma LastByte(a: Byte)
    ensures BitsOfSextets(Sextets([a])) == BitsOfBytes([a]) + [0, 0, 0, 0]
  {
    var p, q := First(a), Second(a, 0);
    assert Sextets([a]) == [p, q] + [] && [a] == [a] + [];
    GroupBits(a, 0, 0);
    TwoSextets(p, q, []);
    OneByte(a, []);
    ZeroBits();
    hide First, Second, Bits;
    assert Bits(p, 6) + Bits(q, 6) + [] == Bits(p, 6) + Bits(q, 6);
    assert Bits(a, 8) + [] == Bits(a, 8);
  }

  lemma LastTwoBytes(a: Byte, b: Byte)
    ensures BitsOfSextets(Sextets([a, b])) == BitsOfBytes([a, b]) + [0, 0]
  {
    var p, q, r := First(a), Second(a, b), Third(b, 0);
    assert Sextets([a, b]) == [p, q] + [r] && [r] == [r] + [] && [a, b] == [a] + [b] && [b] == [b] + [];
    GroupBits(a, b, 0);
    TwoSextets(p, q, [r]);
    OneSextet(r, []);
    OneByte(a, [b]);
    OneByte(b, []);
    ZeroBits();
    hide First, Second, Third, Bits;
    assert Bits(r, 6) + [] == Bits(r, 6) && Bits(b, 8) + [] == Bits(b, 8);
  }

  lemma {:induction false} SextetBits(data: Bytes)
    ensures BitsOfSextets(Sextets(data)) == BitsOfBytes(data) + Padding(|data|)
  {
    hide Sextets, BitsOfSextets, BitsOfBytes, Padding, Bits;
    if |data| < 3 {
      LastBits(data);
    } else {
      FirstThree(data);
      SextetBits(data[3..]);
      Padding3(|data|);
      var group, bytes := Bits(data[0], 8) + Bits(data[1], 8) + Bits(data[2], 8), BitsOfBytes(data[3..]);
      Assoc(group, [], bytes, Padding(|data| - 3));
    }
  }

  lemma LastBits(data: Bytes)
    requires |data| < 3
    ensures BitsOfSextets(Sextets(data)) == BitsOfBytes(data) + Padding(|data|)
  {
    hide Bits, BitsOfBytes, BitsOfSextets, Sextets;
    if |data| == 1 {
      assert data == [data[0]];
      LastByte(data[0]);
    } else if |data| == 2 {
      assert data == [data[0], data[1]];
      LastTwoBytes(data[0], data[1]);
    } else {
      NoBits();
    }
  }

  lemma NoBits()
    ensures BitsOfSextets(Sextets([])) == [] && BitsOfBytes([]) == [] && Padding(0) == []
  {
  }

  lemma FirstThree(data: Bytes)
    requires |data| >= 3
    ensures var group := Bits(data[0], 8) + Bits(data[1], 8) + Bits(data[2], 8);
            && BitsOfSextets(Sextets(data)) == group + BitsOfSextets(Sextets(data[3..]))
            && BitsOfBytes(data) == group + BitsOfBytes(data[3..])
  {
    var a, b, c, rest := data[0], data[1], data[2], Sextets(data[3..]);
    SextetsStep(data);
    hide First, Second, Third, Fourth, Bits, Sextets, BitsOfSextets, BitsOfBytes;
    GroupBits(a, b, c);
    FourSextets(First(a), Second(a, b), Third(b, c), Fourth(c), rest);
    ThreeBytes(a, b, c, data[3..]);
    ThreeAhead(data);
  }

  lemma Padding3(n: nat)
    requires n >= 3
    ensures Padding(n) == Padding(n - 3)
  {
  }

  lemma ThreeAhead(data: Bytes)
    requires |data| >= 3
    ensures data == [data[0]] + ([data[1]] + ([data[2]] + data[3..]))
  {
  }

  lemma ThreeBytes(x: Byte, y: Byte, z: Byte, rest: Bytes)
    ensures BitsOfBytes([x] + ([y] + ([z] + rest))) == Bits(x, 8) + Bits(y, 8) + Bits(z, 8) + BitsOfBytes(rest)
  {
    hide Bits, BitsOfBytes;
    OneByte(x, [y] + ([z] + rest));
    OneByte(y, [z] + rest);
    OneByte(z, rest);
    Assoc(Bits(x, 8), Bits(y, 8), Bits(z, 8), BitsOfBytes(rest));
  }

  lemma Assoc(p: seq<int>, q: seq<int>, r: seq<int>, s: seq<int>)
    ensures p + (q + (r + s)) == p + q + r + s
    ensures (p + q) + (r + s) == p + q + r + s
  {
  }

  lemma FourSextets(p: Six, q: Six, r: Six, s: Six, rest: seq<Six>)
    ensures BitsOfSextets([p, q, r, s] + rest) == Bits(p, 6) + Bits(q, 6) + Bits(r, 6) + Bits(s, 6) + BitsOfSextets(rest)
  {
    hide Bits, BitsOfSextets;
    TwoSextets(p, q, [r, s] + rest);
    TwoSextets(r, s, rest);
    assert [p, q, r, s] + rest == [p, q] + ([r, s] + rest);
    Assoc(Bits(p, 6) + Bits(q, 6), [], Bits(r, 6) + Bits(s, 6), BitsOfSextets(rest));
    Assoc(Bits(p, 6) + Bits(q, 6), Bits(r, 6), Bits(s, 6), BitsOfSextets(rest));
  }

  lemma OneSextet(p: Six, rest: seq<Six>)
    ensures BitsOfSextets([p] + rest) == Bits(p, 6) + BitsOfSextets(rest)
  {
    assert ([p] + rest)[1..] == rest;
  }

  lemma TwoSextets(p: Six, q: Six, rest: seq<Six>)
    ensures BitsOfSextets([p, q] + rest) == Bits(p, 6) + Bits(q, 6) + BitsOfSextets(rest)
  {
    OneSextet(p, [q] + rest);
    OneSextet(q, rest);
    assert [p, q] + rest == [p] + ([q] + rest);
  }

  lemma OneByte(x: Byte, rest: Bytes)
    ensures BitsOfBytes([x] + rest) == Bits(x, 8) + BitsOfBytes(rest)
  {
    assert ([x] + rest)[1..] == rest;
  }

  /** What base64 means: six bits a character, the text spells the bits of the data
      followed by zero bits up to a whole character. */
  lemma EncodeSpellsTheBits(data: Bytes)
    ensures BitsOfText(Encode(data)) == BitsOfBytes(data) + Padding(|data|)
  {
    BitsOfChars(Sextets(data));
    SextetBits(data);
  }
}
