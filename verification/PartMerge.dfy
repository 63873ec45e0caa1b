/** Part uploads: a file is hashed part by part as non-root subtrees and the part
    values are merged by the same left-balanced rule (`merge`). */
module PartMerge {
  import opened Words
  import opened HashTree
  import opened Arithmetic

  /** A part size is a power-of-two number of chunks. */
  ghost predicate IsPartSize(partSize: nat) {
    exists k: nat :: partSize == CHUNK_LEN * Pow2(k)
  }

  function Min(a: nat, b: nat): (m: nat)
    ensures m <= a && m <= b && (m == a || m == b)
  {
    if a <= b then a else b
  }

  /** `n * partSize`, by repeated addition so that proofs stay linear. */
  function Times(n: nat, partSize: nat): (product: nat) {
    if n == 0 then 0 else Times(n - 1, partSize) + partSize
  }

  lemma {:induction false} TimesIsProduct(n: nat, partSize: nat)
    ensures Times(n, partSize) == n * partSize
  {
    if n > 0 {
      TimesIsProduct(n - 1, partSize);
      assert n * partSize == (n - 1) * partSize + partSize;
    }
  }

  lemma {:induction false} TimesPlus(m: nat, n: nat, partSize: nat)
    ensures Times(m + n, partSize) == Times(m, partSize) + Times(n, partSize)
  {
    if n > 0 {
      TimesPlus(m, n - 1, partSize);
      assert m + n - 1 == m + (n - 1);
    }
  }

  lemma TimesOrdered(m: nat, n: nat, partSize: nat)
    requires m <= n
    ensures Times(m, partSize) <= Times(n, partSize)
  {
    TimesPlus(m, n - m, partSize);
  }

  lemma FewerParts(m: nat, n: nat, partSize: nat)
    requires Times(m, partSize) < Times(n, partSize)
    ensures m < n
  {
  }

  /** `n // d`, by repeated subtraction for the same reason. */
  function Over(n: nat, d: nat): (quotient: nat)
    requires d > 0
  {
    if n < d then 0 else 1 + Over(n - d, d)
  }

  lemma {:induction false} OverIsQuotient(n: nat, d: nat)
    requires d > 0
    ensures Over(n, d) == n / d
  {
    if n >= d {
      OverIsQuotient(n - d, d);
      DivStep(n - d, d);
    } else {
      SmallMod(n, d);
    }
  }

  lemma {:induction false} OverBounds(n: nat, d: nat)
    requires d > 0
    ensures Times(Over(n, d), d) <= n < Times(Over(n, d) + 1, d)
  {
    if n >= d {
      OverBounds(n - d, d);
    }
  }

  lemma {:induction false} OverTimes(q: nat, d: nat)
    requires d > 0
    ensures Over(Times(q, d), d) == q
  {
    if q > 0 {
      OverTimes(q - 1, d);
    }
  }

  /** Where parts `..hi` of a `total`-byte file end. */
  function EndOf(partSize: nat, total: nat, hi: nat): (end: nat) {
    Min(Times(hi, partSize), total)
  }

  /** The left subtree of anything longer than a part is a whole number of parts. */
  lemma LeftLenInParts(partSize: nat, length: nat) returns (q: nat)
    requires IsPartSize(partSize)
    requires partSize < length
    ensures CHUNK_LEN <= partSize && q > 0
    ensures LeftLen(length) == Times(q, partSize)
    ensures Over(LeftLen(length), partSize) == q
  {
    var k: nat :| partSize == CHUNK_LEN * Pow2(k);
    var j := LeftExponent(length);
    if j < k {
      Pow2Monotone(j + 1, k);
      assert false;
    }
    q := Pow2(j - k);
    Pow2Split(k, j - k);
    TimesIsProduct(q, partSize);
    ScaledProduct(Pow2(k), q, Pow2(j));
    OverTimes(q, partSize);
  }

  lemma ScaledProduct(a: nat, b: nat, c: nat)
    requires c == a * b
    ensures CHUNK_LEN * c == b * (CHUNK_LEN * a)
  {
  }

  /** The length in bytes of parts `lo..hi`. */
  function Length(partSize: nat, total: nat, lo: nat, hi: nat): (length: int) {
    EndOf(partSize, total, hi) - Times(lo, partSize)
  }

  /** Parts `lo..hi` of a file whose last part begins before its end. */
  predicate Parts(partSize: nat, total: nat, lo: nat, hi: nat) {
    lo < hi && Times(hi - 1, partSize) < total
  }

  /** The split of two or more parts falls on a part boundary strictly inside them. */
  lemma MergeSplit(partSize: nat, total: nat, lo: nat, hi: nat)
    requires IsPartSize(partSize)
    requires lo + 2 <= hi && Parts(partSize, total, lo, hi)
    ensures CHUNK_LEN <= partSize
    ensures CHUNK_LEN < Length(partSize, total, lo, hi)
    ensures var mid := lo + Over(LeftLen(Length(partSize, total, lo, hi)), partSize);
            && lo < mid < hi && Parts(partSize, total, lo, mid)
            && Times(mid, partSize)
            == Times(lo, partSize) + LeftLen(Length(partSize, total, lo, hi))
             < EndOf(partSize, total, hi)
  {
    hide LeftLen, Times, Over, IsPartSize;
    LeastPartSize(partSize);
    TimesOrdered(lo + 1, hi - 1, partSize);
    TimesPlus(lo, 1, partSize);
    TimesPlus(hi - 1, 1, partSize);
    OneTime(partSize);
    TimesPlus(lo, hi - lo, partSize);
    var length := Length(partSize, total, lo, hi);
    var q := LeftLenInParts(partSize, length);
    FewerParts(q, hi - lo, partSize);
    TimesPlus(lo, q, partSize);
    TimesOrdered(lo + q - 1, hi - 1, partSize);
  }

  lemma LeastPartSize(partSize: nat)
    requires IsPartSize(partSize)
    ensures CHUNK_LEN <= partSize
  {
    var k: nat :| partSize == CHUNK_LEN * Pow2(k);
  }

  lemma OneTime(partSize: nat)
    ensures Times(1, partSize) == partSize
  {
  }

  /** Where `merge` cuts: `lo + left_len(length) // part_size`. */
  function MergeMid(partSize: nat, total: nat, lo: nat, hi: nat): (mid: nat)
    requires IsPartSize(partSize)
    requires lo + 2 <= hi && Parts(partSize, total, lo, hi)
    ensures lo < mid < hi && Parts(partSize, total, lo, mid)
    ensures CHUNK_LEN < Length(partSize, total, lo, hi)
    ensures Times(mid, partSize) == Times(lo, partSize) + LeftLen(Length(partSize, total, lo, hi))
    ensures Times(mid, partSize) < EndOf(partSize, total, hi)
  {
    MergeSplit(partSize, total, lo, hi);
    lo + Over(LeftLen(Length(partSize, total, lo, hi)), partSize)
  }

  /** `merge(cvs, part_size, total, lo, hi, root)`. */
  function Merge<T>(h: Hasher<T>, cvs: seq<T>, partSize: nat, total: nat, lo: nat, hi: nat, root: bool): (cv: T)
    requires IsPartSize(partSize)
    requires hi <= |cvs| && Parts(partSize, total, lo, hi)
    decreases hi - lo
  {
    if hi - lo == 1 then cvs[lo]
    else
      var mid := MergeMid(partSize, total, lo, hi);
      h.parent(Merge(h, cvs, partSize, total, lo, mid, false),
               Merge(h, cvs, partSize, total, mid, hi, false),
               root)
  }

  /** Bytes of parts `lo..hi`. */
  function PartsOf(data: seq<Byte>, partSize: nat, lo: nat, hi: nat): (part: seq<Byte>)
    requires lo <= hi && Times(lo, partSize) <= |data|
    ensures |part| == Length(partSize, |data|, lo, hi)
  {
    TimesOrdered(lo, hi, partSize);
    data[Times(lo, partSize)..EndOf(partSize, |data|, hi)]
  }

  /** The non-root chaining value of part `i`. */
  function CvOfPart<T>(h: Hasher<T>, data: seq<Byte>, partSize: nat, i: nat): (cv: T)
    requires Times(i, partSize) <= |data|
  {
    Subtree(h, PartsOf(data, partSize, i, i + 1), Times(i, partSize), false)
  }

  /** `cvs` holds the non-root chaining value of every part of `data`. */
  predicate PartCvs<T(==)>(h: Hasher<T>, data: seq<Byte>, partSize: nat, cvs: seq<T>) {
    forall i | 0 <= i < |cvs| ::
      Times(i, partSize) <= |data| && cvs[i] == CvOfPart(h, data, partSize, i)
  }

  /** A subtree of parts, cut at its split. */
  lemma SubtreeOfParts<T>(
      h: Hasher<T>, data: seq<Byte>, partSize: nat, lo: nat, mid: nat, hi: nat, root: bool)
    requires lo < mid < hi && Times(mid, partSize) < EndOf(partSize, |data|, hi)
    requires CHUNK_LEN < Length(partSize, |data|, lo, hi)
    requires Times(mid, partSize) ==
             Times(lo, partSize) + LeftLen(Length(partSize, |data|, lo, hi))
    ensures Subtree(h, PartsOf(data, partSize, lo, hi), Times(lo, partSize), root)
         == h.parent(
                     Subtree(h, PartsOf(data, partSize, lo, mid), Times(lo, partSize), false),
                     Subtree(h, PartsOf(data, partSize, mid, hi), Times(mid, partSize), false),
                     root)
  {
    hide LeftLen, Times, Subtree;
    var whole := PartsOf(data, partSize, lo, hi);
    var split := LeftLen(Length(partSize, |data|, lo, hi));
    SubtreeCut(h, whole, Times(lo, partSize), root);
    assert EndOf(partSize, |data|, mid) == Times(mid, partSize);
    assert whole[..split] == PartsOf(data, partSize, lo, mid);
    assert whole[split..] == PartsOf(data, partSize, mid, hi);
  }

  lemma MergeCut<T>(h: Hasher<T>, cvs: seq<T>, partSize: nat, total: nat, lo: nat, mid: nat, hi: nat, root: bool)
    requires IsPartSize(partSize)
    requires hi <= |cvs| && lo + 2 <= hi && Parts(partSize, total, lo, hi)
    requires mid == MergeMid(partSize, total, lo, hi)
    ensures Merge(h, cvs, partSize, total, lo, hi, root)
         == h.parent(Merge(h, cvs, partSize, total, lo, mid, false),
                     Merge(h, cvs, partSize, total, mid, hi, false),
                     root)
  {
  }

  /** Merging the chaining values of consecutive parts hashes their bytes as one
      subtree. A single part is already a non-root subtree. */
  lemma {:induction false} MergeIsSubtree<T>(
      h: Hasher<T>, data: seq<Byte>, cvs: seq<T>, partSize: nat, lo: nat, hi: nat, root: bool)
    requires IsPartSize(partSize)
    requires hi <= |cvs| && Parts(partSize, |data|, lo, hi)
    requires PartCvs(h, data, partSize, cvs)
    requires root ==> lo + 2 <= hi
    ensures Times(lo, partSize) <= |data|
    ensures Merge(h, cvs, partSize, |data|, lo, hi, root)
         == Subtree(h, PartsOf(data, partSize, lo, hi), Times(lo, partSize), root)
    decreases hi - lo
  {
    hide LeftLen, Subtree, Merge, PartsOf;
    TimesOrdered(lo, hi - 1, partSize);
    if hi - lo >= 2 {
      var mid := MergeMid(partSize, |data|, lo, hi);
      SubtreeOfParts(h, data, partSize, lo, mid, hi, root);
      MergeCut(h, cvs, partSize, |data|, lo, mid, hi, root);
      MergeIsSubtree(h, data, cvs, partSize, lo, mid, false);
      MergeIsSubtree(h, data, cvs, partSize, mid, hi, false);
    } else {
      MergeOne(h, cvs, partSize, |data|, lo, root);
      assert cvs[lo] == CvOfPart(h, data, partSize, lo);
    }
  }

  lemma MergeOne<T>(h: Hasher<T>, cvs: seq<T>, partSize: nat, total: nat, lo: nat, root: bool)
    requires IsPartSize(partSize)
    requires lo < |cvs| && Parts(partSize, total, lo, lo + 1)
    ensures Merge(h, cvs, partSize, total, lo, lo + 1, root) == cvs[lo]
  {
  }

  /** `count` parts of size `partSize` make up `total` bytes, none of them empty. */
  predicate Geometry(partSize: nat, total: nat, count: nat) {
    count >= 1 && Times(count - 1, partSize) < total <= Times(count, partSize)
  }

  /** For every input longer than one part, merging the part values gives exactly
      the root value of the whole input. */
  lemma MergeIsRoot<T>(h: Hasher<T>, data: seq<Byte>, cvs: seq<T>, partSize: nat)
    requires IsPartSize(partSize)
    requires partSize < |data|
    requires Geometry(partSize, |data|, |cvs|)
    requires PartCvs(h, data, partSize, cvs)
    ensures Parts(partSize, |data|, 0, |cvs|)
    ensures Merge(h, cvs, partSize, |data|, 0, |cvs|, true) == Subtree(h, data, 0, true)
  {
    hide LeftLen, Subtree, Merge;
    assert Times(1, partSize) == partSize;
    assert |cvs| >= 2;
    MergeIsSubtree(h, data, cvs, partSize, 0, |cvs|, true);
    assert PartsOf(data, partSize, 0, |cvs|) == data;
  }
}
