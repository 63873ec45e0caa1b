/** BLAKE3 over an arbitrary compression function: chunk chaining, parent nodes,
    the `ROOT` flag, and the part-vector check `check_merge`. Every result holds
    for every compression function `f`. */
module Blake3 {
  import opened Words
  import opened HashTree
  import opened PartMerge

  const BLOCK_LEN := 64

  const CHUNK_START := 1
  const CHUNK_END := 2
  const PARENT := 4
  const ROOT := 8

  /** A chaining value and a message block, as words. */
  type Cv = s: seq<Word> | |s| == 8 witness seq(8, _ => 0)
  type Message = s: seq<Word> | |s| == 16 witness seq(16, _ => 0)

  /** `compress(cv, m, counter, block_len, flags)`, all sixteen output words. */
  type Compressor = (Cv, Message, nat, nat, nat) -> Message

  const IV: Cv := [
    0x6A09E667, 0xBB67AE85, 0x3C6EF372, 0xA54FF53A,
    0x510E527F, 0x9B05688C, 0x1F83D9AB, 0x5BE0CD19
  ]

  /** One compression the hash performed, with everything that went into it. */
  datatype Call = Call(cv: Cv, message: Message, counter: nat, blockLen: nat, flags: nat)

  /** The chaining value that comes out of it. */
  function Out(f: Compressor, call: Call): (cv: Cv) {
    f(call.cv, call.message, call.counter, call.blockLen, call.flags)[..8]
  }

  /** A chaining value together with every compression made to reach it, in order. */
  datatype Run = Run(cv: Cv, calls: seq<Call>)

  function Compress(f: Compressor, before: seq<Call>, call: Call): (r: Run) {
    Run(Out(f, call), before + [call])
  }

  // ---------------------------------------------------------------- chunks

  /** The 64-byte blocks of a chunk; the empty chunk has one empty block. */
  function Blocks(data: seq<Byte>): (blocks: seq<seq<Byte>>)
    ensures |blocks| >= 1
    ensures forall i | 0 <= i < |blocks| :: |blocks[i]| <= BLOCK_LEN
    ensures forall i | 0 <= i < |blocks| - 1 :: |blocks[i]| == BLOCK_LEN
  {
    if |data| <= BLOCK_LEN then [data]
    else [data[..BLOCK_LEN]] + Blocks(data[BLOCK_LEN..])
  }

  function Flatten(blocks: seq<seq<Byte>>): (data: seq<Byte>) {
    if blocks == [] then [] else blocks[0] + Flatten(blocks[1..])
  }

  /** The blocks are the chunk, cut up. */
  lemma {:induction false} BlocksCoverChunk(data: seq<Byte>)
    ensures Flatten(Blocks(data)) == data
  {
    if |data| <= BLOCK_LEN {
      assert Flatten([data]) == data + Flatten([]);
    } else {
      BlocksCoverChunk(data[BLOCK_LEN..]);
      assert Blocks(data)[1..] == Blocks(data[BLOCK_LEN..]);
    }
  }

  /** A block as message words, padded with zero bytes. */
  function WordsOf(block: seq<Byte>): (m: Message)
    requires |block| <= BLOCK_LEN
  {
    Unpack(block + seq(BLOCK_LEN - |block|, _ => 0))
  }

  function BlockFlags(n: nat, count: nat, root: bool): (flags: nat)
    requires n < count
  {
    (if n == 0 then CHUNK_START else 0) +
    (if n == count - 1 then CHUNK_END + (if root then ROOT else 0) else 0)
  }

  /** The chunk after its first `n` blocks. */
  function ChunkRun(f: Compressor, blocks: seq<seq<Byte>>, counter: nat, root: bool, n: nat): (r: Run)
    requires n <= |blocks|
    requires forall i | 0 <= i < |blocks| :: |blocks[i]| <= BLOCK_LEN
    ensures |r.calls| == n
  {
    if n == 0 then Run(IV, [])
    else
      var before := ChunkRun(f, blocks, counter, root, n - 1);
      var block := blocks[n - 1];
      Compress(f, before.calls,
               Call(before.cv, WordsOf(block), counter, |block|, BlockFlags(n - 1, |blocks|, root)))
  }

  /** `chunk_cv(data, counter, root)`, with its compressions. */
  function Chunk(f: Compressor, data: seq<Byte>, counter: nat, root: bool): (r: Run) {
    ChunkRun(f, Blocks(data), counter, root, |Blocks(data)|)
  }

  /** The loop of `chunk_cv`. */
  method ChunkCv(f: Compressor, data: seq<Byte>, counter: nat, root: bool) returns (cv: Cv)
    ensures cv == Chunk(f, data, counter, root).cv
  {
    cv := IV;
    var blocks := Blocks(data);
    var n := 0;
    while n < |blocks|
      invariant n <= |blocks|
      invariant cv == ChunkRun(f, blocks, counter, root, n).cv
    {
      var flags := 0;
      if n == 0 {
        flags := flags + CHUNK_START;
      }
      if n == |blocks| - 1 {
        flags := flags + CHUNK_END + (if root then ROOT else 0);
      }
      cv := f(cv, WordsOf(blocks[n]), counter, |blocks[n]|, flags)[..8];
      n := n + 1;
    }
  }

  // --------------------------------------------------------------- the hash

  /** `parent_cv(left, right, root)`. */
  function ParentCv(f: Compressor, left: Cv, right: Cv, root: bool): (cv: Cv) {
    f(IV, left + right, 0, BLOCK_LEN, PARENT + (if root then ROOT else 0))[..8]
  }

  function Values(f: Compressor): (h: Hasher<Cv>) {
    Hasher((data: seq<Byte>, counter: nat, root: bool) => Chunk(f, data, counter, root).cv,
           (left: Cv, right: Cv, root: bool) => ParentCv(f, left, right, root))
  }

  /** `blake3(data)`. */
  function Digest(f: Compressor, data: seq<Byte>): (digest: seq<Byte>)
    ensures |digest| == 32
  {
    Pack(Subtree(Values(f), data, 0, true))
  }

  // ------------------------------------------------------------------ ROOT

  function ParentRun(f: Compressor, left: Run, right: Run, root: bool): (r: Run) {
    Compress(f, left.calls + right.calls,
             Call(IV, left.cv + right.cv, 0, BLOCK_LEN, PARENT + (if root then ROOT else 0)))
  }

  /** The same hash with every compression recorded. */
  function Runs(f: Compressor): (h: Hasher<Run>) {
    Hasher((data: seq<Byte>, counter: nat, root: bool) => Chunk(f, data, counter, root),
           (left: Run, right: Run, root: bool) => ParentRun(f, left, right, root))
  }

  /** Recording the compressions does not change the value. */
  lemma {:induction false} RunsComputeValues(f: Compressor, data: seq<Byte>, offset: nat, root: bool)
    ensures Subtree(Runs(f), data, offset, root).cv == Subtree(Values(f), data, offset, root)
    decreases |data|
  {
    if |data| > CHUNK_LEN {
      hide Subtree, LeftLen;
      SubtreeCut(Runs(f), data, offset, root);
      SubtreeCut(Values(f), data, offset, root);
      var split := LeftLen(|data|);
      RunsComputeValues(f, data[..split], offset, false);
      RunsComputeValues(f, data[split..], offset + split, false);
    }
  }

  predicate SetsRoot(call: Call) {
    call.flags / ROOT % 2 == 1
  }

  /** Only the last compression sets `ROOT`, and only when `root` asks for it. */
  predicate RootOnlyLast(calls: seq<Call>, root: bool) {
    && |calls| >= 1
    && (forall i | 0 <= i < |calls| - 1 :: !SetsRoot(calls[i]))
    && SetsRoot(calls[|calls| - 1]) == root
  }

  /** `ROOT` is set on the last compression of a root hash and on no other, and
      on no compression of a part. */
  lemma {:induction false} RootFlag(f: Compressor, data: seq<Byte>, offset: nat, root: bool)
    ensures RootOnlyLast(Subtree(Runs(f), data, offset, root).calls, root)
    decreases |data|
  {
    hide LeftLen, ParentRun, RootOnlyLast, Chunk;
    if |data| <= CHUNK_LEN {
      ChunkRootOnlyLast(f, data, offset / CHUNK_LEN, root);
    } else {
      hide Subtree;
      SubtreeCut(Runs(f), data, offset, root);
      var split := LeftLen(|data|);
      RootFlag(f, data[..split], offset, false);
      RootFlag(f, data[split..], offset + split, false);
      ParentRootFlag(f, Subtree(Runs(f), data[..split], offset, false),
                     Subtree(Runs(f), data[split..], offset + split, false), root);
    }
  }

  lemma ParentRootFlag(f: Compressor, left: Run, right: Run, root: bool)
    requires RootOnlyLast(left.calls, false) && RootOnlyLast(right.calls, false)
    ensures RootOnlyLast(ParentRun(f, left, right, root).calls, root)
  {
    assert forall call | call in left.calls + right.calls :: !SetsRoot(call);
  }

  lemma ChunkRootOnlyLast(f: Compressor, data: seq<Byte>, counter: nat, root: bool)
    ensures RootOnlyLast(Chunk(f, data, counter, root).calls, root)
  {
    hide WordsOf, Blocks;
    var blocks := Blocks(data);
    ChunkRootFlag(f, blocks, counter, root, |blocks| - 1);
    assert Chunk(f, data, counter, root).calls[..|blocks| - 1]
        == ChunkRun(f, blocks, counter, root, |blocks| - 1).calls;
  }

  lemma {:induction false} ChunkRootFlag(
      f: Compressor, blocks: seq<seq<Byte>>, counter: nat, root: bool, n: nat)
    requires n < |blocks|
    requires forall i | 0 <= i < |blocks| :: |blocks[i]| <= BLOCK_LEN
    ensures forall call | call in ChunkRun(f, blocks, counter, root, n).calls :: !SetsRoot(call)
  {
    hide WordsOf;
    if n > 0 {
      ChunkRootFlag(f, blocks, counter, root, n - 1);
      assert ChunkRun(f, blocks, counter, root, n).calls[..n - 1]
          == ChunkRun(f, blocks, counter, root, n - 1).calls;
    }
  }

  // ------------------------------------------------------------- the input rule

  const PERIOD := 251

  function Repeat(s: seq<Byte>, n: nat): (r: seq<Byte>)
    ensures |r| == Times(n, |s|)
  {
    if n == 0 then [] else s + Repeat(s, n - 1)
  }

  lemma {:induction false} RepeatAt(s: seq<Byte>, n: nat, i: nat)
    requires |s| == PERIOD && i < Times(n, PERIOD)
    ensures Repeat(s, n)[i] == s[i % PERIOD]
  {
    if i >= PERIOD {
      RepeatAt(s, n - 1, i - PERIOD);
    }
  }

  function Period(): (period: seq<Byte>)
    ensures |period| == PERIOD && forall i | 0 <= i < PERIOD :: period[i] == i
  {
    seq(PERIOD, i requires 0 <= i < PERIOD => i as Byte)
  }

  /** `rule_input(start, length)`. */
  function RuleInput(start: nat, length: nat): (data: seq<Byte>)
    ensures |data| == length
  {
    var head := start % PERIOD;
    var reps := (head + length) / PERIOD + 1;
    TimesIsProduct(reps, PERIOD);
    Repeat(Period(), reps)[head..head + length]
  }

  /** Byte `i` of the input rule is `i % 251`, wherever the slice starts. */
  lemma RuleInputAt(start: nat, length: nat, i: nat)
    requires i < length
    ensures RuleInput(start, length)[i] == (start + i) % PERIOD
  {
    hide Repeat, Times;
    var head := start % PERIOD;
    var reps := (head + length) / PERIOD + 1;
    TimesIsProduct(reps, PERIOD);
    RepeatAt(Period(), reps, head + i);
    SameRest(start, i);
  }

  lemma SameRest(start: nat, i: nat)
    ensures (start % PERIOD + i) % PERIOD == (start + i) % PERIOD
  {
  }

  lemma RuleInputSlice(total: nat, start: nat, length: nat)
    requires start + length <= total
    ensures RuleInput(start, length) == RuleInput(0, total)[start..start + length]
  {
    forall i | 0 <= i < length
      ensures RuleInput(start, length)[i] == RuleInput(0, total)[start + i]
    {
      RuleInputAt(start, length, i);
      RuleInputAt(0, total, start + i);
    }
  }

  // ---------------------------------------------------------------- check_merge

  datatype Part = Part(index: nat, offset: nat, len: nat, cv: seq<Byte>)

  datatype Vector = Vector(partSize: nat, total: nat, parts: seq<Part>, root: seq<Byte>)

  /** `part_cv((offset, length))`: the packed chaining value of one part. */
  function PartCv(f: Compressor, offset: nat, length: nat): (cv: seq<Byte>)
    ensures |cv| == 32
  {
    Pack(Subtree(Values(f), RuleInput(offset, length), offset, false))
  }

  predicate CorrectPart(f: Compressor, v: Vector, i: nat)
    requires i < |v.parts|
  {
    var p := v.parts[i];
    && p.index == i
    && p.offset == Times(i, v.partSize) <= v.total
    && p.len == Min(v.partSize, v.total - p.offset)
    && p.cv == PartCv(f, p.offset, p.len)
  }

  /** What a vector must say to be right: the geometry, every part chaining value
      and the BLAKE3 hash of the whole input. */
  predicate Correct(f: Compressor, v: Vector) {
    && v.partSize < v.total
    && Geometry(v.partSize, v.total, |v.parts|)
    && (forall i | 0 <= i < |v.parts| :: CorrectPart(f, v, i))
    && v.root == Digest(f, RuleInput(0, v.total))
  }

  /** `-(-total // part_size)`. */
  function CeilDiv(n: nat, d: nat): (q: nat)
    requires d > 0 && n > 0
    ensures Geometry(d, n, q)
    ensures forall p: nat | Geometry(d, n, p) :: p == q
  {
    OverBounds(n - 1, d);
    forall p: nat | Geometry(d, n, p)
      ensures p == Over(n - 1, d) + 1
    {
      FewerParts(p - 1, Over(n - 1, d) + 1, d);
      FewerParts(Over(n - 1, d), p, d);
    }
    Over(n - 1, d) + 1
  }

  lemma NoPartYet(f: Compressor, data: seq<Byte>, partSize: nat)
    ensures PartCvs(Values(f), data, partSize, [])
  {
  }

  lemma OneMorePart(f: Compressor, data: seq<Byte>, partSize: nat, cvs: seq<Cv>, cv: Cv)
    requires PartCvs(Values(f), data, partSize, cvs) && Times(|cvs|, partSize) <= |data|
    requires cv == CvOfPart(Values(f), data, partSize, |cvs|)
    ensures PartCvs(Values(f), data, partSize, cvs + [cv])
  {
    hide CvOfPart, Values;
  }

  lemma PartIsCorrect(f: Compressor, v: Vector, i: nat)
    requires i < |v.parts| && Times(i, v.partSize) <= v.total
    ensures var p, offset := v.parts[i], Times(i, v.partSize);
            CorrectPart(f, v, i) <==>
              p.index == i && p.offset == offset && p.len == Min(v.partSize, v.total - offset) && p.cv == PartCv(f, p.offset, p.len)
  {
    hide PartCv;
  }

  /** The reassembly loop of `check_merge` on one vector: accept exactly the
      correct vectors. `cvs` is the cache of part hashes keyed by `(offset, len)`. */
  method CheckVector(f: Compressor, v: Vector, cvs: map<(nat, nat), seq<Byte>>) returns (ok: bool)
    requires IsPartSize(v.partSize)
    requires forall p | p in v.parts :: (p.offset, p.len) in cvs
    requires forall key | key in cvs :: cvs[key] == PartCv(f, key.0, key.1)
    ensures ok <==> Correct(f, v)
  {
    hide Subtree, RuleInput, LeftLen, CeilDiv, Merge, Unpack, Pack, Values, CvOfPart, PartCv, CorrectPart, PartCvs;
    if v.total <= v.partSize {
      return false;
    }
    var count := CeilDiv(v.total, v.partSize);
    if |v.parts| != count {
      return false;
    }
    ghost var data := RuleInput(0, v.total);
    var got: seq<Cv> := [];
    var i, offset := 0, 0;
    NoPartYet(f, data, v.partSize);
    while i < |v.parts|
      invariant i <= |v.parts| && |got| == i
      invariant offset == Times(i, v.partSize)
      invariant forall j | 0 <= j < i :: CorrectPart(f, v, j)
      invariant PartCvs(Values(f), data, v.partSize, got)
    {
      var p := v.parts[i];
      TimesOrdered(i, count - 1, v.partSize);
      PartIsCorrect(f, v, i);
      if p.index != i || p.offset != offset || p.len != Min(v.partSize, v.total - offset) {
        return false;
      }
      var cv := cvs[(p.offset, p.len)];
      if cv != p.cv {
        return false;
      }
      PartFromRule(f, v.partSize, v.total, i);
      OneMorePart(f, data, v.partSize, got, Unpack(cv));
      got := got + [Unpack(cv)];
      i, offset := i + 1, offset + v.partSize;
    }
    MergeIsRoot(Values(f), data, got, v.partSize);
    ok := Pack(Merge(Values(f), got, v.partSize, v.total, 0, count, true)) == v.root;
  }

  /** Part `i` is hashed from its own slice of the input rule; unpacking its
      published bytes gives back the words that were hashed. */
  lemma PartFromRule(f: Compressor, partSize: nat, total: nat, i: nat)
    requires Times(i, partSize) <= total
    ensures Unpack(PartCv(f, Times(i, partSize), Min(partSize, total - Times(i, partSize))))
         == CvOfPart(Values(f), RuleInput(0, total), partSize, i)
  {
    hide Subtree, RuleInput, LeftLen, Unpack, Pack, Values;
    var offset := Times(i, partSize);
    var len := Min(partSize, total - offset);
    RuleInputSlice(total, offset, len);
    assert PartsOf(RuleInput(0, total), partSize, i, i + 1) == RuleInput(offset, len);
    UnpackPack(Subtree(Values(f), RuleInput(offset, len), offset, false));
  }
}
