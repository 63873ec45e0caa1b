/** The tree recursion of `scripts/golden/blake3_subtree_ref.py`: `left_len`,
    `subtree` and `merge`, over any chunk hash and any parent hash. */
module HashTree {
  import opened Words

  const CHUNK_LEN := 1024

  /** What the recursion is built from: `chunk(data, counter, root)` and
      `parent(left, right, root)`. */
  datatype Hasher<!T> = Hasher(chunk: (seq<Byte>, nat, bool) -> T, parent: (T, T, bool) -> T)

  // --------------------------------------------------------- left-balanced split

  function Pow2(k: nat): (p: nat)
    ensures p >= 1
  {
    if k == 0 then 1 else 2 * Pow2(k - 1)
  }

  function BitLength(x: nat): (bits: nat)
    ensures x > 0 ==> bits >= 1 && Pow2(bits - 1) <= x < Pow2(bits)
  {
    if x == 0 then 0 else 1 + BitLength(x / 2)
  }

  /** The exponent of the left subtree of an `n`-byte input, in chunks. */
  function LeftExponent(n: nat): (k: nat)
    requires n > CHUNK_LEN
  {
    BitLength((n - 1) / CHUNK_LEN) - 1
  }

  /** The left subtree of an `n`-byte input, in chunks. */
  function LeftChunks(n: nat): (chunks: nat)
    requires n > CHUNK_LEN
    ensures chunks == Pow2(LeftExponent(n))
    ensures CHUNK_LEN * chunks < n <= 2 * CHUNK_LEN * chunks
  {
    Pow2(LeftExponent(n))
  }

  /** `left_len`: `CHUNK_LEN << (full_chunks.bit_length() - 1)`. */
  function LeftLen(n: nat): (left: nat)
    requires n > CHUNK_LEN
    ensures left < n <= 2 * left
    ensures left == CHUNK_LEN * LeftChunks(n)
  {
    CHUNK_LEN * Pow2(LeftExponent(n))
  }

  lemma {:induction false} Pow2Monotone(a: nat, b: nat)
    requires a <= b
    ensures Pow2(a) <= Pow2(b)
  {
    if a < b {
      Pow2Monotone(a, b - 1);
    }
  }

  lemma {:induction false} Pow2Split(a: nat, b: nat)
    ensures Pow2(a + b) == Pow2(a) * Pow2(b)
  {
    if a > 0 {
      Pow2Split(a - 1, b);
      assert Pow2(a + b) == 2 * Pow2((a - 1) + b);
    }
  }

  /** At most one power of two lies in `[n / 2, n)`. */
  lemma SplitIsUnique(n: nat, j: nat, k: nat)
    requires Pow2(j) < n <= 2 * Pow2(j)
    requires Pow2(k) < n <= 2 * Pow2(k)
    ensures j == k
  {
    if j != k {
      var a, b := if j < k then j else k, if j < k then k else j;
      Pow2Monotone(a + 1, b);
    }
  }

  /** `subtree(data, offset, root)`. */
  function Subtree<T>(h: Hasher<T>, data: seq<Byte>, offset: nat, root: bool): (value: T)
    decreases |data|
  {
    if |data| <= CHUNK_LEN then h.chunk(data, offset / CHUNK_LEN, root)
    else
      var split := LeftLen(|data|);
      h.parent(Subtree(h, data[..split], offset, false), Subtree(h, data[split..], offset + split, false), root)
  }

  lemma SubtreeCut<T>(h: Hasher<T>, data: seq<Byte>, offset: nat, root: bool)
    requires |data| > CHUNK_LEN
    ensures Subtree(h, data, offset, root)
         == h.parent(Subtree(h, data[..LeftLen(|data|)], offset, false),
                     Subtree(h, data[LeftLen(|data|)..], offset + LeftLen(|data|), false),
                     root)
  {
  }

  lemma SubtreeLeaf<T>(h: Hasher<T>, data: seq<Byte>, offset: nat, root: bool)
    requires |data| <= CHUNK_LEN
    ensures Subtree(h, data, offset, root) == h.chunk(data, offset / CHUNK_LEN, root)
  {
  }

  // ------------------------------------------------- what the recursion builds

  /** A hash tree, apart from any recursion that builds one. */
  datatype Tree = Leaf(data: seq<Byte>, counter: nat) | Node(left: Tree, right: Tree)

  function Leaves(t: Tree): (leaves: seq<Tree>)
    ensures |leaves| >= 1
  {
    match t
    case Leaf(_, _) => [t]
    case Node(l, r) => Leaves(l) + Leaves(r)
  }

  /** A complete tree of `Pow2(k)` full chunks. */
  predicate Complete(t: Tree, k: nat) {
    match t
    case Leaf(data, _) => k == 0 && |data| == CHUNK_LEN
    case Node(l, r) => k > 0 && Complete(l, k - 1) && Complete(r, k - 1)
  }

  /** Section 2.1 of the BLAKE3 paper: every left subtree is a complete tree of
      full chunks, and no right subtree has more chunks than its sibling. */
  ghost predicate LeftBalanced(t: Tree) {
    match t
    case Leaf(data, _) => |data| <= CHUNK_LEN
    case Node(l, r) =>
      && (exists k: nat :: Complete(l, k))
      && LeftBalanced(r)
      && |Leaves(r)| <= |Leaves(l)|
  }

  /** The input cut into 1024-byte chunks with consecutive counters. */
  function Chunks(data: seq<Byte>, counter: nat): (leaves: seq<Tree>)
    ensures |leaves| >= 1
  {
    if |data| <= CHUNK_LEN then [Leaf(data, counter)]
    else [Leaf(data[..CHUNK_LEN], counter)] + Chunks(data[CHUNK_LEN..], counter + 1)
  }

  /** Chunk `i` is bytes `[1024 i, 1024 (i + 1))`, cut at the end of the data,
      and carries counter `first + i`: the chunks partition the data. */
  lemma {:induction false} ChunkAt(data: seq<Byte>, first: nat, i: nat)
    requires i < |Chunks(data, first)|
    ensures i * CHUNK_LEN <= |data|
    ensures i < |Chunks(data, first)| - 1 ==> (i + 1) * CHUNK_LEN < |data|
    ensures i == |Chunks(data, first)| - 1 ==> |data| <= (i + 1) * CHUNK_LEN
    ensures Chunks(data, first)[i] ==
            Leaf(if (i + 1) * CHUNK_LEN < |data| then data[i * CHUNK_LEN..(i + 1) * CHUNK_LEN]
                 else data[i * CHUNK_LEN..],
                 first + i)
  {
    if |data| > CHUNK_LEN && i > 0 {
      ChunkAt(data[CHUNK_LEN..], first + 1, i - 1);
      assert Chunks(data, first)[i] == Chunks(data[CHUNK_LEN..], first + 1)[i - 1];
    }
  }

  lemma {:induction false} ChunksSplit(data: seq<Byte>, counter: nat, chunks: nat, cut: nat)
    requires 0 < chunks && cut == chunks * CHUNK_LEN < |data|
    ensures Chunks(data, counter) == Chunks(data[..cut], counter) + Chunks(data[cut..], counter + chunks)
    ensures |Chunks(data[..cut], counter)| == chunks
  {
    if chunks > 1 {
      ChunksSplit(data[CHUNK_LEN..], counter + 1, chunks - 1, cut - CHUNK_LEN);
      CutTwice(data, cut);
    }
  }

  lemma CutTwice(data: seq<Byte>, cut: nat)
    requires CHUNK_LEN <= cut <= |data|
    ensures data[..cut][..CHUNK_LEN] == data[..CHUNK_LEN]
    ensures data[..cut][CHUNK_LEN..] == data[CHUNK_LEN..][..cut - CHUNK_LEN]
    ensures data[CHUNK_LEN..][cut - CHUNK_LEN..] == data[cut..]
  {
  }

  lemma {:induction false} CompleteLeaves(t: Tree, k: nat)
    requires Complete(t, k)
    ensures |Leaves(t)| == Pow2(k)
  {
    match t
    case Leaf(_, _) =>
    case Node(l, r) =>
      CompleteLeaves(l, k - 1);
      CompleteLeaves(r, k - 1);
  }

  /** The recursion of `subtree`, with the tree made explicit. */
  function Shape(data: seq<Byte>, counter: nat): (t: Tree)
    decreases |data|
  {
    if |data| <= CHUNK_LEN then Leaf(data, counter)
    else
      var split := LeftLen(|data|);
      Node(Shape(data[..split], counter), Shape(data[split..], counter + LeftChunks(|data|)))
  }

  lemma ShapeOfChunk(data: seq<Byte>, counter: nat)
    requires |data| <= CHUNK_LEN
    ensures LeftBalanced(Shape(data, counter))
    ensures Leaves(Shape(data, counter)) == Chunks(data, counter)
  {
  }

  lemma ShapeCut(data: seq<Byte>, counter: nat)
    requires |data| > CHUNK_LEN
    ensures Shape(data, counter)
         == Node(Shape(data[..LeftLen(|data|)], counter), Shape(data[LeftLen(|data|)..], counter + LeftChunks(|data|)))
  {
  }

  lemma ShapeLeaf(data: seq<Byte>, counter: nat)
    requires |data| <= CHUNK_LEN || |data| == CHUNK_LEN * Pow2(0)
    ensures Shape(data, counter) == Leaf(data, counter) && |data| <= CHUNK_LEN && Pow2(0) == 1
  {
  }

  lemma {:induction false} ShapeComplete(data: seq<Byte>, counter: nat, k: nat)
    requires |data| == CHUNK_LEN * Pow2(k)
    ensures Complete(Shape(data, counter), k)
    decreases k
  {
    hide LeftLen, LeftChunks, Shape, Pow2;
    if k == 0 {
      ShapeLeaf(data, counter);
    } else {
      LeftOfComplete(|data|, k);
      var split := LeftLen(|data|);
      ShapeCut(data, counter);
      ShapeComplete(data[..split], counter, k - 1);
      ShapeComplete(data[split..], counter + LeftChunks(|data|), k - 1);
    }
  }

  /** A power of two of chunks is cut in half. */
  lemma LeftOfComplete(n: nat, k: nat)
    requires k > 0 && n == CHUNK_LEN * Pow2(k)
    ensures n > CHUNK_LEN && LeftLen(n) == CHUNK_LEN * Pow2(k - 1) && n == 2 * LeftLen(n)
  {
    assert Pow2(k) == 2 * Pow2(k - 1);
    hide LeftLen, BitLength, LeftExponent;
    assert Pow2(LeftExponent(n)) < Pow2(k) <= 2 * Pow2(LeftExponent(n));
    hide Pow2;
    SplitIsUnique(Pow2(k), LeftExponent(n), k - 1);
  }

  lemma {:induction false} ShapeLeaves(data: seq<Byte>, counter: nat)
    ensures Leaves(Shape(data, counter)) == Chunks(data, counter)
    decreases |data|
  {
    hide LeftLen, LeftChunks, Chunks, Shape;
    if |data| <= CHUNK_LEN {
      ShapeOfChunk(data, counter);
    } else {
      ShapeCut(data, counter);
      var chunks, split := LeftChunks(|data|), LeftLen(|data|);
      ShapeLeaves(data[..split], counter);
      ShapeLeaves(data[split..], counter + chunks);
      ChunksSplit(data, counter, chunks, split);
    }
  }

  /** The recursion builds the left-balanced tree over the chunks of the data. */
  lemma {:induction false} ShapeLeftBalanced(data: seq<Byte>, counter: nat)
    ensures LeftBalanced(Shape(data, counter))
    ensures Leaves(Shape(data, counter)) == Chunks(data, counter)
    decreases |data|
  {
    hide LeftLen, LeftChunks, Chunks, Shape, Complete, Leaves, LeftBalanced;
    ShapeLeaves(data, counter);
    if |data| <= CHUNK_LEN {
      ShapeOfChunk(data, counter);
    } else {
      ShapeCut(data, counter);
      var chunks, split := LeftChunks(|data|), LeftLen(|data|);
      ShapeLeaves(data[..split], counter);
      ShapeLeftBalanced(data[split..], counter + chunks);
      ShapeComplete(data[..split], counter, LeftExponent(|data|));
      ChunksSplit(data, counter, chunks, split);
      ChunkCount(data[split..], counter + chunks, chunks);
      NodeLeftBalanced(Shape(data[..split], counter), Shape(data[split..], counter + chunks), LeftExponent(|data|));
    }
  }

  lemma NodeLeftBalanced(l: Tree, r: Tree, k: nat)
    requires Complete(l, k) && LeftBalanced(r) && |Leaves(r)| <= |Leaves(l)|
    ensures LeftBalanced(Node(l, r))
  {
  }

  lemma {:induction false} ChunkCount(data: seq<Byte>, counter: nat, bound: nat)
    requires 1 <= bound && |data| <= bound * CHUNK_LEN
    ensures |Chunks(data, counter)| <= bound
  {
    if |data| > CHUNK_LEN {
      ChunkCount(data[CHUNK_LEN..], counter + 1, bound - 1);
    }
  }

  lemma LeftBalancedSplit(t: Tree) returns (k: nat)
    requires t.Node? && LeftBalanced(t)
    ensures Complete(t.left, k) && |Leaves(t.left)| == Pow2(k)
    ensures Pow2(k) < |Leaves(t)| <= 2 * Pow2(k)
  {
    k :| Complete(t.left, k);
    CompleteLeaves(t.left, k);
  }

  /** Two complete trees over the same leaves are one tree. */
  lemma {:induction false} CompleteUnique(s: Tree, t: Tree, k: nat)
    requires Complete(s, k) && Complete(t, k) && Leaves(s) == Leaves(t)
    ensures s == t
    decreases k
  {
    if k > 0 {
      CompleteLeaves(s.left, k - 1);
      CompleteLeaves(t.left, k - 1);
      assert Leaves(s.left) == Leaves(s)[..Pow2(k - 1)] == Leaves(t.left);
      assert Leaves(s.right) == Leaves(s)[Pow2(k - 1)..] == Leaves(t.right);
      CompleteUnique(s.left, t.left, k - 1);
      CompleteUnique(s.right, t.right, k - 1);
    } else {
      assert s == Leaves(s)[0] && t == Leaves(t)[0];
    }
  }

  /** The left-balanced rule leaves no freedom: a left-balanced tree is
      determined by its leaves. */
  lemma {:induction false} LeftBalancedUnique(s: Tree, t: Tree)
    requires LeftBalanced(s) && LeftBalanced(t) && Leaves(s) == Leaves(t)
    ensures s == t
  {
    if s.Node? && t.Node? {
      var j := LeftBalancedSplit(s);
      var k := LeftBalancedSplit(t);
      SplitIsUnique(|Leaves(s)|, j, k);
      assert Leaves(s.left) == Leaves(s)[..Pow2(k)] == Leaves(t.left);
      assert Leaves(s.right) == Leaves(s)[Pow2(k)..] == Leaves(t.right);
      CompleteUnique(s.left, t.left, k);
      LeftBalancedUnique(s.right, t.right);
    } else {
      assert s == Leaves(s)[0] && t == Leaves(t)[0];
    }
  }

  /** The value of a tree: chunks at the leaves, parents above, `root` at the top only. */
  function TreeHash<T>(h: Hasher<T>, t: Tree, root: bool): (value: T) {
    match t
    case Leaf(data, counter) => h.chunk(data, counter, root)
    case Node(l, r) => h.parent(TreeHash(h, l, false), TreeHash(h, r, false), root)
  }

  /** `subtree` is the hash of the one left-balanced tree over the chunks that
      start at `offset`, whatever tree a reader writes down for it. */
  lemma {:induction false} SubtreeHashesTheLeftBalancedTree<T>(
      h: Hasher<T>, data: seq<Byte>, offset: nat, root: bool, t: Tree)
    requires offset % CHUNK_LEN == 0
    requires LeftBalanced(t) && Leaves(t) == Chunks(data, offset / CHUNK_LEN)
    ensures Subtree(h, data, offset, root) == TreeHash(h, t, root)
  {
    ShapeLeftBalanced(data, offset / CHUNK_LEN);
    LeftBalancedUnique(Shape(data, offset / CHUNK_LEN), t);
    SubtreeHashesShape(h, data, offset, root);
  }

  lemma OffsetOfRight(offset: nat, chunks: nat)
    requires offset % CHUNK_LEN == 0
    ensures (offset + CHUNK_LEN * chunks) / CHUNK_LEN == offset / CHUNK_LEN + chunks
    ensures (offset + CHUNK_LEN * chunks) % CHUNK_LEN == 0
  {
    assert offset == CHUNK_LEN * (offset / CHUNK_LEN);
  }

  lemma {:induction false} SubtreeHashesShape<T>(h: Hasher<T>, data: seq<Byte>, offset: nat, root: bool)
    requires offset % CHUNK_LEN == 0
    ensures Subtree(h, data, offset, root) == TreeHash(h, Shape(data, offset / CHUNK_LEN), root)
    decreases |data|
  {
    hide LeftLen, LeftChunks, Shape, Subtree;
    if |data| <= CHUNK_LEN {
      ShapeLeaf(data, offset / CHUNK_LEN);
      SubtreeLeaf(h, data, offset, root);
    } else {
      var chunks, split := LeftChunks(|data|), LeftLen(|data|);
      var counter := offset / CHUNK_LEN;
      ShapeCut(data, counter);
      SubtreeCut(h, data, offset, root);
      OffsetOfRight(offset, chunks);
      SubtreeHashesShape(h, data[..split], offset, false);
      SubtreeHashesShape(h, data[split..], offset + split, false);
    }
  }
}
