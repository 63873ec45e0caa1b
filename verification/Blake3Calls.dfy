/** What goes into every compression of a BLAKE3 hash, said by position and not by the
    recursion that makes them: blocks (section 2.4 of the BLAKE3 paper), parents (section
    2.5) and the bytes of the digest. */
module Blake3Calls {
  import opened Words
  import opened HashTree
  import opened Blake3

  /** A byte of the input, zero behind its end. */
  function ByteAt(data: seq<Byte>, k: nat): (b: int) {
    if k < |data| then data[k] else 0
  }

  /** The little-endian word of the four bytes from `k` on. */
  function WordAt(data: seq<Byte>, k: nat): (w: int) {
    ByteAt(data, k) + 256 * ByteAt(data, k + 1) + 65_536 * ByteAt(data, k + 2) + 16_777_216 * ByteAt(data, k + 3)
  }

  /** The sixteen words of the 64 bytes from `start` on. */
  predicate IsMessage(m: Message, data: seq<Byte>, start: nat) {
    forall i | 0 <= i < 16 :: m[i] == WordAt(data, start + 4 * i)
  }

  function BlockCount(length: nat): (n: nat)
    ensures n >= 1
  {
    if length == 0 then 1 else (length + 63) / 64
  }

  function ChunkCount(length: nat): (n: nat)
    ensures n >= 1
  {
    if length == 0 then 1 else (length + 1023) / 1024
  }

  /** Call `n` compresses block `n` of the input: block `n % 16` of chunk `n / 16`. */
  predicate IsBlockCall(f: Compressor, calls: seq<Call>, n: nat, data: seq<Byte>, offset: nat, root: bool)
    requires n < |calls|
  {
    var c := calls[n];
    && c.cv == (if n % 16 == 0
                then [0x6A09E667, 0xBB67AE85, 0x3C6EF372, 0xA54FF53A, 0x510E527F, 0x9B05688C, 0x1F83D9AB, 0x5BE0CD19]
                else f(calls[n - 1].cv, calls[n - 1].message, calls[n - 1].counter, calls[n - 1].blockLen, calls[n - 1].flags)[..8])
    && IsMessage(c.message, data, 64 * n)
    && c.counter == offset / 1024 + n / 16
    && c.blockLen == (if 64 * n + 64 <= |data| then 64 else |data| - 64 * n)
    && c.flags == (if n % 16 == 0 then 1 else 0) +
                  (if n % 16 == 15 || n == BlockCount(|data|) - 1 then 2 + (if root && |data| <= 1024 then 8 else 0) else 0)
  }

  predicate IsParent(c: Call) {
    c.flags / 4 % 2 == 1
  }

  /** The calls without the flag of a parent. */
  function BlockCalls(calls: seq<Call>): (blocks: seq<Call>) {
    if calls == [] then []
    else
      var c := calls[|calls| - 1];
      BlockCalls(calls[..|calls| - 1]) + (if IsParent(c) then [] else [c])
  }

  // ------------------------------------------------------------------------- one chunk

  lemma {:induction false} UnpackAt(b: seq<Byte>, i: nat)
    requires |b| % 4 == 0 && 4 * i + 4 <= |b|
    ensures Unpack(b)[i] == WordAt(b, 4 * i)
  {
    if i > 0 {
      UnpackAt(b[4..], i - 1);
      assert Unpack(b)[i] == Unpack(b[4..])[i - 1];
    }
  }

  lemma {:induction false} BlocksAre(data: seq<Byte>, n: nat)
    ensures |Blocks(data)| == BlockCount(|data|)
    ensures n < |Blocks(data)| ==>
              64 * n <= |data| && Blocks(data)[n] == data[64 * n..if 64 * n + 64 <= |data| then 64 * n + 64 else |data|]
    decreases |data|
  {
    if |data| > 64 {
      var rest := data[64..];
      BlocksAre(rest, if n == 0 then 0 else n - 1);
      assert Blocks(data) == [data[..64]] + Blocks(rest);
    }
  }

  lemma WordsOfBlock(data: seq<Byte>, n: nat)
    requires 64 * n <= |data|
    ensures var block := data[64 * n..if 64 * n + 64 <= |data| then 64 * n + 64 else |data|];
            |block| <= 64 && IsMessage(WordsOf(block), data, 64 * n)
  {
    var block := data[64 * n..if 64 * n + 64 <= |data| then 64 * n + 64 else |data|];
    var padded := block + seq(BLOCK_LEN - |block|, _ => 0);
    forall i | 0 <= i < 16
      ensures WordsOf(block)[i] == WordAt(data, 64 * n + 4 * i)
    {
      UnpackAt(padded, i);
      PaddedAt(data, n, padded, i);
    }
  }

  lemma PaddedAt(data: seq<Byte>, n: nat, padded: seq<Byte>, i: nat)
    requires 64 * n <= |data| && |padded| == 64 && i < 16
    requires forall k | 0 <= k < 64 :: padded[k] == if 64 * n + k < |data| then data[64 * n + k] else 0
    ensures WordAt(padded, 4 * i) == WordAt(data, 64 * n + 4 * i)
  {
  }

  predicate IsChunkCall(f: Compressor, blocks: seq<seq<Byte>>, calls: seq<Call>, i: nat, counter: nat, root: bool)
    requires i < |calls| && i < |blocks| && |blocks[i]| <= BLOCK_LEN
  {
    calls[i] == Call(if i == 0 then IV else Out(f, calls[i - 1]), WordsOf(blocks[i]), counter, |blocks[i]|,
                     BlockFlags(i, |blocks|, root))
  }

  lemma {:induction false} ChunkCalls(f: Compressor, blocks: seq<seq<Byte>>, counter: nat, root: bool, n: nat)
    requires n <= |blocks| && forall i | 0 <= i < |blocks| :: |blocks[i]| <= BLOCK_LEN
    ensures var r := ChunkRun(f, blocks, counter, root, n);
            && r.cv == (if n == 0 then IV else Out(f, r.calls[n - 1]))
            && forall i | 0 <= i < n :: IsChunkCall(f, blocks, r.calls, i, counter, root)
  {
    hide WordsOf, Out, BlockFlags, IsChunkCall;
    if n > 0 {
      ChunkCalls(f, blocks, counter, root, n - 1);
      var before, r := ChunkRun(f, blocks, counter, root, n - 1), ChunkRun(f, blocks, counter, root, n);
      var last := Call(before.cv, WordsOf(blocks[n - 1]), counter, |blocks[n - 1]|, BlockFlags(n - 1, |blocks|, root));
      assert r.calls == before.calls + [last];
      forall i | 0 <= i < n
        ensures IsChunkCall(f, blocks, r.calls, i, counter, root)
      {
        if i < n - 1 {
          ChunkCallKept(f, blocks, before.calls, last, i, counter, root);
        } else {
          LastChunkCall(f, blocks, before.calls, last, counter, root);
        }
      }
    }
  }

  lemma ChunkCallKept(f: Compressor, blocks: seq<seq<Byte>>, calls: seq<Call>, last: Call, i: nat, counter: nat, root: bool)
    requires i < |calls| && i < |blocks| && |blocks[i]| <= BLOCK_LEN && IsChunkCall(f, blocks, calls, i, counter, root)
    ensures IsChunkCall(f, blocks, calls + [last], i, counter, root)
  {
    hide WordsOf, Out, BlockFlags;
  }

  lemma LastChunkCall(f: Compressor, blocks: seq<seq<Byte>>, calls: seq<Call>, last: Call, counter: nat, root: bool)
    requires |calls| < |blocks| && |blocks[|calls|]| <= BLOCK_LEN
    requires last == Call(if calls == [] then IV else Out(f, calls[|calls| - 1]), WordsOf(blocks[|calls|]), counter,
                          |blocks[|calls|]|, BlockFlags(|calls|, |blocks|, root))
    ensures IsChunkCall(f, blocks, calls + [last], |calls|, counter, root)
  {
    hide WordsOf, Out, BlockFlags;
  }

  lemma ChunkBlock(f: Compressor, data: seq<Byte>, offset: nat, root: bool, n: nat)
    requires |data| <= 1024 && n < |Blocks(data)|
    ensures IsBlockCall(f, Chunk(f, data, offset / 1024, root).calls, n, data, offset, root)
    ensures !IsParent(Chunk(f, data, offset / 1024, root).calls[n])
  {
    hide WordsOf, IsMessage, Blocks, BlockFlags, ChunkRun;
    BlocksAre(data, n);
    WordsOfBlock(data, n);
    ChunkCalls(f, Blocks(data), offset / 1024, root, |Blocks(data)|);
    var calls := Chunk(f, data, offset / 1024, root).calls;
    assert IsChunkCall(f, Blocks(data), calls, n, offset / 1024, root);
    FlagsAre(n, |data|, root);
  }

  lemma FlagsAre(n: nat, length: nat, root: bool)
    requires length <= 1024 && n < BlockCount(length)
    ensures n < 16 && BlockFlags(n, BlockCount(length), root) / 4 % 2 == 0
    ensures BlockFlags(n, BlockCount(length), root) ==
            (if n % 16 == 0 then 1 else 0) +
            (if n % 16 == 15 || n == BlockCount(length) - 1 then 2 + (if root then 8 else 0) else 0)
  {
  }

  lemma {:induction false} AllBlocks(calls: seq<Call>)
    requires forall i | 0 <= i < |calls| :: !IsParent(calls[i])
    ensures BlockCalls(calls) == calls
  {
    hide IsParent;
    if calls != [] {
      var init, c := calls[..|calls| - 1], calls[|calls| - 1];
      AllBlocks(init);
      assert calls == init + [c];
    }
  }

  predicate BlocksInOrder(f: Compressor, calls: seq<Call>, data: seq<Byte>, offset: nat, root: bool) {
    |calls| == BlockCount(|data|) && forall n | 0 <= n < |calls| :: IsBlockCall(f, calls, n, data, offset, root)
  }

  lemma ChunkInOrder(f: Compressor, data: seq<Byte>, offset: nat, root: bool)
    requires |data| <= 1024
    ensures var calls := Chunk(f, data, offset / 1024, root).calls;
            && BlockCalls(calls) == calls && BlocksInOrder(f, calls, data, offset, root)
            && Chunk(f, data, offset / 1024, root).cv == Out(f, calls[|calls| - 1])
  {
    var calls := Chunk(f, data, offset / 1024, root).calls;
    BlocksAre(data, 0);
    ChunkCalls(f, Blocks(data), offset / 1024, root, |Blocks(data)|);
    hide Chunk, IsBlockCall, Blocks, BlockCount, IsParent, BlockCalls, ChunkRun, IsChunkCall;
    assert |calls| == |Blocks(data)| by { ChunkLength(f, data, offset / 1024, root); }
    forall n | 0 <= n < |calls|
      ensures IsBlockCall(f, calls, n, data, offset, root) && !IsParent(calls[n])
    {
      ChunkBlock(f, data, offset, root, n);
    }
    AllBlocks(calls);
  }

  lemma ChunkLength(f: Compressor, data: seq<Byte>, counter: nat, root: bool)
    ensures |Chunk(f, data, counter, root).calls| == |Blocks(data)|
  {
  }

  // -------------------------------------------------------------------------- the tree

  lemma {:induction false} BlockCallsConcat(a: seq<Call>, b: seq<Call>)
    ensures BlockCalls(a + b) == BlockCalls(a) + BlockCalls(b)
  {
    hide BlockCalls, IsParent;
    if b == [] {
      assert a + b == a;
      NoBlockCalls();
    } else {
      var init, c := b[..|b| - 1], b[|b| - 1];
      BlockCallsConcat(a, init);
      BlockCallsOneMore(init, c);
      BlockCallsOneMore(a + init, c);
      assert b == init + [c] && a + b == a + init + [c];
    }
  }

  lemma NoBlockCalls()
    ensures BlockCalls([]) == []
  {
  }

  lemma LeftMessage(m: Message, data: seq<Byte>, split: nat, start: nat)
    requires start + 64 <= split <= |data| && IsMessage(m, data[..split], start)
    ensures IsMessage(m, data, start)
  {
  }

  lemma RightMessage(m: Message, data: seq<Byte>, split: nat, start: nat)
    requires split <= |data| && IsMessage(m, data[split..], start)
    ensures IsMessage(m, data, split + start)
  {
    forall k: nat
      ensures ByteAt(data[split..], k) == ByteAt(data, split + k)
    {
    }
  }

  lemma LeftBlock(f: Compressor, left: seq<Call>, right: seq<Call>, data: seq<Byte>, q: nat, offset: nat, root: bool, n: nat)
    requires 1024 * q < |data| && n < |left| == 16 * q && IsBlockCall(f, left, n, data[..1024 * q], offset, false)
    ensures IsBlockCall(f, left + right, n, data, offset, root)
  {
    hide IsMessage;
    LeftMessage(left[n].message, data, 1024 * q, 64 * n);
    assert n % 16 > 0 ==> (left + right)[n - 1] == left[n - 1];
  }

  lemma RightBlock(f: Compressor, left: seq<Call>, right: seq<Call>, data: seq<Byte>, q: nat, offset: nat, root: bool, n: nat)
    requires 0 < q && 1024 * q < |data| && |left| == 16 * q && n < |right|
    requires IsBlockCall(f, right, n, data[1024 * q..], offset + 1024 * q, false)
    ensures IsBlockCall(f, left + right, 16 * q + n, data, offset, root)
  {
    hide IsMessage;
    RightMessage(right[n].message, data, 1024 * q, 64 * n);
    assert (offset + 1024 * q) / 1024 == offset / 1024 + q;
    assert (16 * q + n) / 16 == q + n / 16 && (16 * q + n) % 16 == n % 16;
    assert n % 16 > 0 ==> (left + right)[16 * q + n - 1] == right[n - 1];
  }

  lemma TwoInOrder(f: Compressor, left: seq<Call>, right: seq<Call>, data: seq<Byte>, q: nat, offset: nat, root: bool)
    requires 0 < q && 1024 * q < |data|
    requires BlocksInOrder(f, left, data[..1024 * q], offset, false)
    requires BlocksInOrder(f, right, data[1024 * q..], offset + 1024 * q, false)
    ensures BlocksInOrder(f, left + right, data, offset, root)
  {
    hide IsBlockCall;
    assert |left| == 16 * q;
    forall n | 0 <= n < |left + right|
      ensures IsBlockCall(f, left + right, n, data, offset, root)
    {
      if n < 16 * q {
        LeftBlock(f, left, right, data, q, offset, root, n);
      } else {
        RightBlock(f, left, right, data, q, offset, root, n - 16 * q);
      }
    }
  }

  /** The top of a tree: the calls of the left part, those of the right part, and then one
      compression of the left value followed by the right value. */
  lemma TopCall(f: Compressor, data: seq<Byte>, offset: nat, root: bool)
    requires |data| > 1024
    ensures var split := LeftLen(|data|);
            var left, right := Subtree(Runs(f), data[..split], offset, false), Subtree(Runs(f), data[split..], offset + split, false);
            var all, flags := Subtree(Runs(f), data, offset, root), if root then 12 else 4;
            && split < |data| <= 2 * split
            && all.calls == left.calls + right.calls + [Call(IV, left.cv + right.cv, 0, 64, flags)]
            && all.cv == f(IV, left.cv + right.cv, 0, 64, flags)[..8]
            && left.cv == Subtree(Values(f), data[..split], offset, false)
            && right.cv == Subtree(Values(f), data[split..], offset + split, false)
  {
    hide LeftLen, Subtree, Runs, Values;
    var split := LeftLen(|data|);
    SubtreeCut(Runs(f), data, offset, root);
    RunsComputeValues(f, data[..split], offset, false);
    RunsComputeValues(f, data[split..], offset + split, false);
    ParentIs(f, Subtree(Runs(f), data[..split], offset, false), Subtree(Runs(f), data[split..], offset + split, false), root);
  }

  lemma ParentIs(f: Compressor, left: Run, right: Run, root: bool)
    ensures var flags := if root then 12 else 4;
            Runs(f).parent(left, right, root) ==
            Run(f(IV, left.cv + right.cv, 0, 64, flags)[..8],
                left.calls + right.calls + [Call(IV, left.cv + right.cv, 0, 64, flags)])
  {
  }

  /** Block `j` of chunk `i` is compressed once, as call `16 i + j` of those that are not
      parents: its own bytes, the counter `offset / 1024 + i`, its byte count, the flags its
      position calls for, on the initial value or the value of the block before it. There is
      one parent for every chunk but the first, and the last call gives the value. */
  lemma {:induction false} BlocksCompressed(f: Compressor, data: seq<Byte>, offset: nat, root: bool)
    ensures var r := Subtree(Runs(f), data, offset, root);
            && BlocksInOrder(f, BlockCalls(r.calls), data, offset, root)
            && |r.calls| == BlockCount(|data|) + ChunkCount(|data|) - 1
            && r.cv == Out(f, r.calls[|r.calls| - 1])
    decreases |data|
  {
    hide LeftLen, LeftChunks, Chunk, BlocksInOrder, Subtree, BlockCalls, BlockCount, ChunkCount, Runs, Values, Out;
    if |data| <= CHUNK_LEN {
      ChunkTree(f, data, offset, root);
    } else {
      var split, q := LeftLen(|data|), LeftChunks(|data|);
      var left, right := Subtree(Runs(f), data[..split], offset, false), Subtree(Runs(f), data[split..], offset + split, false);
      TopCall(f, data, offset, root);
      BlocksCompressed(f, data[..split], offset, false);
      BlocksCompressed(f, data[split..], offset + split, false);
      TwoInOrder(f, BlockCalls(left.calls), BlockCalls(right.calls), data, q, offset, root);
      BlocksOfTop(left.calls, right.calls, Call(IV, left.cv + right.cv, 0, 64, if root then 12 else 4));
      CountsAdd(|data|, q);
      TopIsLast(f, left, right, root);
    }
  }

  lemma TopIsLast(f: Compressor, left: Run, right: Run, root: bool)
    ensures var top := Call(IV, left.cv + right.cv, 0, 64, if root then 12 else 4);
            var calls := left.calls + right.calls + [top];
            && |calls| == |left.calls| + |right.calls| + 1
            && Out(f, calls[|calls| - 1]) == f(IV, left.cv + right.cv, 0, 64, if root then 12 else 4)[..8]
  {
  }

  lemma ChunkTree(f: Compressor, data: seq<Byte>, offset: nat, root: bool)
    requires |data| <= 1024
    ensures var r := Subtree(Runs(f), data, offset, root);
            && BlocksInOrder(f, BlockCalls(r.calls), data, offset, root)
            && |r.calls| == BlockCount(|data|) + ChunkCount(|data|) - 1
            && r.cv == Out(f, r.calls[|r.calls| - 1])
  {
    hide Chunk, BlocksInOrder, Subtree, BlockCalls, BlockCount, Out;
    SubtreeLeaf(Runs(f), data, offset, root);
    ChunkInOrder(f, data, offset, root);
    InOrderCount(f, data, offset, root);
  }

  lemma InOrderCount(f: Compressor, data: seq<Byte>, offset: nat, root: bool)
    requires |data| <= 1024
    ensures |Chunk(f, data, offset / 1024, root).calls| == BlockCount(|data|)
  {
    BlocksAre(data, 0);
  }

  lemma BlocksOfTop(left: seq<Call>, right: seq<Call>, top: Call)
    requires top.flags == 4 || top.flags == 12
    ensures BlockCalls(left + right + [top]) == BlockCalls(left) + BlockCalls(right)
  {
    hide BlockCalls;
    BlockCallsConcat(left, right);
    ParentIsNoBlock(left + right, top);
  }

  lemma ParentIsNoBlock(calls: seq<Call>, top: Call)
    requires top.flags == 4 || top.flags == 12
    ensures BlockCalls(calls + [top]) == BlockCalls(calls)
  {
    hide BlockCalls;
    BlockCallsOneMore(calls, top);
  }

  lemma BlockCallsOneMore(calls: seq<Call>, c: Call)
    ensures BlockCalls(calls + [c]) == if IsParent(c) then BlockCalls(calls) else BlockCalls(calls) + [c]
  {
    hide IsParent;
    var all := calls + [c];
    assert all[..|all| - 1] == calls && all[|all| - 1] == c;
  }

  lemma CountsAdd(length: nat, q: nat)
    requires 0 < q && 1024 * q < length
    ensures BlockCount(1024 * q) + BlockCount(length - 1024 * q) == BlockCount(length)
    ensures ChunkCount(1024 * q) + ChunkCount(length - 1024 * q) == ChunkCount(length)
  {
    hide BlockCount, ChunkCount;
    BlocksAdd(length - 1024 * q, 16 * q);
    ChunksAdd(length - 1024 * q, q);
  }

  lemma BlocksAdd(rest: nat, m: nat)
    requires rest > 0 && m > 0
    ensures BlockCount(64 * m) == m && BlockCount(rest + 64 * m) == BlockCount(rest) + m
  {
  }

  lemma ChunksAdd(rest: nat, m: nat)
    requires rest > 0 && m > 0
    ensures ChunkCount(1024 * m) == m && ChunkCount(rest + 1024 * m) == ChunkCount(rest) + m
  {
  }

  // ------------------------------------------------------------------------ the digest

  lemma {:induction false} PackAt(ws: seq<Word>, i: nat)
    requires i < |ws|
    ensures |Pack(ws)| == 4 * |ws|
    ensures Pack(ws)[4 * i] == ws[i] % 256 && Pack(ws)[4 * i + 1] == ws[i] / 256 % 256
    ensures Pack(ws)[4 * i + 2] == ws[i] / 65_536 % 256 && Pack(ws)[4 * i + 3] == ws[i] / 16_777_216
  {
    if |ws| > 1 {
      PackAt(ws[1..], if i == 0 then 0 else i - 1);
    }
  }

  /** The bytes of a digest: the words that come out of the last compression of a root
      hash, each with its low byte first. */
  lemma DigestBytes(f: Compressor, data: seq<Byte>, i: nat)
    requires i < 8
    ensures var calls, digest := Subtree(Runs(f), data, 0, true).calls, Digest(f, data);
            && calls != [] && |digest| == 32
            && var w := Out(f, calls[|calls| - 1])[i];
               && digest[4 * i] == w % 256 && digest[4 * i + 1] == w / 256 % 256
               && digest[4 * i + 2] == w / 65_536 % 256 && digest[4 * i + 3] == w / 16_777_216
  {
    BlocksCompressed(f, data, 0, true);
    RunsComputeValues(f, data, 0, true);
    PackAt(Subtree(Values(f), data, 0, true), i);
    hide Subtree, Pack;
  }
}
