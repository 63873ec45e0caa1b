/** Bytes, 32-bit words and the little-endian packing the reference hash uses
    (`struct.pack("<8I")`, `struct.unpack("<16I")`). */
module Words {

  type Byte = x: int | 0 <= x < 0x100

  type Word = x: int | 0 <= x < 0x1_0000_0000

  function PackWord(w: Word): (b: seq<Byte>)
    ensures |b| == 4
  {
    [w % 0x100, (w / 0x100) % 0x100, (w / 0x1_0000) % 0x100, w / 0x100_0000]
  }

  function UnpackWord(b: seq<Byte>): (w: Word)
    requires |b| == 4
  {
    var b0: int, b1: int, b2: int, b3: int := b[0], b[1], b[2], b[3];
    b0 + 0x100 * b1 + 0x1_0000 * b2 + 0x100_0000 * b3
  }

  function Pack(ws: seq<Word>): (b: seq<Byte>)
    ensures |b| == 4 * |ws|
  {
    if ws == [] then [] else PackWord(ws[0]) + Pack(ws[1..])
  }

  function Unpack(b: seq<Byte>): (ws: seq<Word>)
    requires |b| % 4 == 0
    ensures |ws| == |b| / 4
  {
    if b == [] then [] else [UnpackWord(b[..4])] + Unpack(b[4..])
  }

  /** A word survives packing. */
  lemma UnpackPackWord(w: Word)
    ensures UnpackWord(PackWord(w)) == w
  {
    var lo, hi := w / 0x100, w / 0x1_0000;
    assert hi == lo / 0x100 && hi / 0x100 == w / 0x100_0000;
  }

  /** Any list of words survives the trip through bytes. */
  lemma {:induction false} UnpackPack(ws: seq<Word>)
    ensures Unpack(Pack(ws)) == ws
  {
    if ws != [] {
      UnpackPackWord(ws[0]);
      UnpackPack(ws[1..]);
      assert Pack(ws)[..4] == PackWord(ws[0]) && Pack(ws)[4..] == Pack(ws[1..]);
    }
  }
}
