/** The text operations the statement codecs share: ASCII bytes, `split`, `join`,
    splitting at the first separator, and the byte order of texts. */
module Texts {
  import opened Option
  import opened ByteStrings
  import opened Sequences

  datatype Result<T> = Ok(value: T) | Reject(reason: string)

  // ------------------------------------------------------------------------ ASCII

  predicate IsAscii(s: string) {
    forall i | 0 <= i < |s| :: s[i] < 0x80 as char
  }

  /** `s.encode("ascii")`. */
  function ToBytes(s: string): (b: Bytes)
    requires IsAscii(s)
    ensures |b| == |s| && forall i | 0 <= i < |s| :: b[i] == s[i] as int
  {
    seq(|s|, i requires 0 <= i < |s| => s[i] as int)
  }

  predicate AllAscii(b: Bytes) {
    forall i | 0 <= i < |b| :: b[i] < 0x80
  }

  /** `b.decode("ascii")`. */
  function ToText(b: Bytes): (s: string)
    requires AllAscii(b)
    ensures |s| == |b| && forall i | 0 <= i < |b| :: s[i] as int == b[i]
  {
    seq(|b|, i requires 0 <= i < |b| => b[i] as char)
  }

  lemma BytesOfText(b: Bytes)
    requires AllAscii(b)
    ensures IsAscii(ToText(b)) && ToBytes(ToText(b)) == b
  {
  }

  lemma TextOfBytes(s: string)
    requires IsAscii(s)
    ensures AllAscii(ToBytes(s)) && ToText(ToBytes(s)) == s
  {
  }

  // ------------------------------------------------------------- splitting and joining

  predicate Has(s: string, c: char) {
    exists i :: 0 <= i < |s| && s[i] == c
  }

  /** Every character of `s` is allowed. */
  ghost predicate Only(s: string, allowed: char -> bool) {
    forall i | 0 <= i < |s| :: allowed(s[i])
  }

  function IndexOf(s: string, c: char): (i: nat)
    ensures i <= |s| && !Has(s[..i], c)
    ensures i < |s| ==> s[i] == c
    ensures i == |s| <==> !Has(s, c)
  {
    if s == "" || s[0] == c then 0
    else
      var rest := IndexOf(s[1..], c);
      assert s == [s[0]] + s[1..] && s[..1 + rest] == [s[0]] + s[1..][..rest];
      1 + rest
  }

  /** `s.split(c)`. */
  function Split(s: string, c: char): (parts: seq<string>)
    ensures |parts| >= 1
  {
    var i := IndexOf(s, c);
    if i == |s| then [s] else [s[..i]] + Split(s[i + 1..], c)
  }

  /** `c.join(parts)`. */
  function Join(parts: seq<string>, c: char): (s: string) {
    if parts == [] then "" else if |parts| == 1 then parts[0] else parts[0] + [c] + Join(parts[1..], c)
  }

  /** `s.split(c, 1)`, `s.partition(c)`: the texts before and after the first `c`. */
  function Cut(s: string, c: char): (halves: Option<(string, string)>) {
    var i := IndexOf(s, c);
    if i == |s| then None else Some((s[..i], s[i + 1..]))
  }

  lemma IndexOfFirst(a: string, c: char, b: string)
    requires !Has(a, c)
    ensures IndexOf(a + [c] + b, c) == |a|
  {
    var s := a + [c] + b;
    var i := IndexOf(s, c);
    assert s[|a|] == c;
    assert forall k | 0 <= k < |a| :: s[k] == a[k];
    assert forall k | 0 <= k < i :: s[..i][k] == s[k];
  }

  /** Cutting at the first separator is exact, and undoes gluing. */
  lemma CutIsExact(s: string, c: char, a: string, b: string)
    ensures Cut(s, c) == Some((a, b)) <==> s == a + [c] + b && !Has(a, c)
    ensures Cut(s, c).None? <==> !Has(s, c)
  {
    var i := IndexOf(s, c);
    if s == a + [c] + b && !Has(a, c) {
      IndexOfFirst(a, c, b);
      assert s[..|a|] == a && s[|a| + 1..] == b;
    }
  }

  /** Joining undoes splitting; no part holds the separator. */
  lemma {:induction false} JoinOfSplit(s: string, c: char)
    ensures Join(Split(s, c), c) == s
    ensures forall p | p in Split(s, c) :: !Has(p, c)
  {
    hide Join, Split, Has;
    var i := IndexOf(s, c);
    SplitStep(s, c);
    if i < |s| {
      JoinOfSplit(s[i + 1..], c);
      JoinStep(s[..i], Split(s[i + 1..], c), c);
      assert s == s[..i] + [c] + s[i + 1..];
    } else {
      assert s[..i] == s;
      JoinOne(s, c);
    }
  }

  lemma SplitStep(s: string, c: char)
    ensures var i := IndexOf(s, c);
            Split(s, c) == if i < |s| then [s[..i]] + Split(s[i + 1..], c) else [s]
  {
    hide IndexOf, Has;
  }

  lemma JoinStep(a: string, parts: seq<string>, c: char)
    requires parts != []
    ensures Join([a] + parts, c) == a + [c] + Join(parts, c)
  {
    assert ([a] + parts)[1..] == parts;
  }

  lemma JoinOne(s: string, c: char)
    ensures Join([s], c) == s
  {
  }

  /** Splitting undoes joining when no part holds the separator. */
  lemma {:induction false} SplitOfJoin(parts: seq<string>, c: char)
    requires parts != [] && forall p | p in parts :: !Has(p, c)
    ensures Split(Join(parts, c), c) == parts
  {
    hide Split;
    if |parts| == 1 {
      SplitNothing(parts[0], c);
      assert parts == [parts[0]];
    } else {
      SplitOfJoin(parts[1..], c);
      SplitFirst(parts[0], c, Join(parts[1..], c));
      assert parts == [parts[0]] + parts[1..];
    }
  }

  lemma SplitNothing(s: string, c: char)
    requires !Has(s, c)
    ensures Split(s, c) == [s]
  {
    assert IndexOf(s, c) == |s|;
  }

  lemma SplitFirst(a: string, c: char, b: string)
    requires !Has(a, c)
    ensures Split(a + [c] + b, c) == [a] + Split(b, c)
  {
    IndexOfFirst(a, c, b);
    var s := a + [c] + b;
    assert s[..|a|] == a && s[|a| + 1..] == b;
  }

  /** A joined text is made of its parts' characters and the separator. */
  lemma {:induction false} JoinOnly(parts: seq<string>, c: char, allowed: char -> bool)
    requires allowed(c) && forall p | p in parts :: Only(p, allowed)
    ensures Only(Join(parts, c), allowed)
  {
    if |parts| > 1 {
      JoinOnly(parts[1..], c, allowed);
      assert parts[0] in parts;
    }
  }

  lemma {:induction false} SplitOnly(s: string, c: char, allowed: char -> bool)
    requires Only(s, allowed)
    ensures forall p | p in Split(s, c) :: Only(p, allowed)
  {
    var i := IndexOf(s, c);
    if i < |s| {
      SplitOnly(s[i + 1..], c, allowed);
    }
  }

  lemma {:induction false} JoinEnd(parts: seq<string>, c: char)
    requires parts != [] && parts[|parts| - 1] != ""
    ensures var s, last := Join(parts, c), parts[|parts| - 1]; s != "" && s[|s| - 1] == last[|last| - 1]
  {
    if |parts| > 1 {
      JoinEnd(parts[1..], c);
    }
  }

  lemma {:induction false} JoinBound(parts: seq<string>, c: char, bound: nat)
    requires forall p | p in parts :: |p| <= bound
    ensures |Join(parts, c)| <= |parts| * (bound + 1)
  {
    if |parts| > 1 {
      JoinBound(parts[1..], c, bound);
      assert parts[0] in parts;
      OneTimeMore(|parts| - 1, bound + 1);
    } else if |parts| == 1 {
      assert parts[0] in parts;
    }
  }

  lemma OneTimeMore(n: nat, d: nat)
    ensures (n + 1) * d == n * d + d
  {
  }

  // ---------------------------------------------------------------------- byte order

  function Codes(s: string): (codes: seq<int>) {
    seq(|s|, i requires 0 <= i < |s| => s[i] as int)
  }

  /** `a.encode() < b.encode()`: UTF-8 keeps the order of code points. */
  predicate Before(a: string, b: string) {
    Below(Codes(a), Codes(b))
  }

  lemma CodesInjective(a: string, b: string)
    requires Codes(a) == Codes(b)
    ensures a == b
  {
    forall i | 0 <= i < |a|
      ensures a[i] == b[i]
    {
      assert Codes(a)[i] == Codes(b)[i];
    }
  }

  lemma BeforeIsAnOrder(a: string, b: string, c: string)
    ensures !Before(a, a)
    ensures Before(a, b) && Before(b, c) ==> Before(a, c)
    ensures a == b || Before(a, b) || Before(b, a)
  {
    BelowIrreflexive(Codes(a));
    BelowTotal(Codes(a), Codes(b));
    if Codes(a) == Codes(b) {
      CodesInjective(a, b);
    }
    if Before(a, b) && Before(b, c) {
      BelowTransitive(Codes(a), Codes(b), Codes(c));
    }
  }

  predicate StrictlySorted(list: seq<string>) {
    forall i | 0 < i < |list| :: Before(list[i - 1], list[i])
  }

  // -------------------------------------------------------------------------- sorting

  function Insert(x: string, sorted: seq<string>): (r: seq<string>)
    ensures multiset(r) == multiset(sorted) + multiset{x}
  {
    if sorted == [] then [x]
    else if Before(sorted[0], x) then
      assert sorted == [sorted[0]] + sorted[1..];
      [sorted[0]] + Insert(x, sorted[1..])
    else [x] + sorted
  }

  /** `sorted(list, key=str.encode)`. */
  function Sort(list: seq<string>): (sorted: seq<string>)
    ensures multiset(sorted) == multiset(list)
  {
    if list == [] then []
    else
      assert list == [list[0]] + list[1..];
      Insert(list[0], Sort(list[1..]))
  }

  lemma {:induction false} InsertSorted(x: string, sorted: seq<string>)
    requires StrictlySorted(sorted) && x !in sorted
    ensures StrictlySorted(Insert(x, sorted))
    ensures Insert(x, sorted)[0] == x || (sorted != [] && Insert(x, sorted)[0] == sorted[0])
  {
    if sorted != [] {
      BeforeIsAnOrder(sorted[0], x, x);
      if Before(sorted[0], x) {
        InsertSorted(x, sorted[1..]);
        SortedCons(sorted[0], Insert(x, sorted[1..]));
      } else {
        assert sorted[0] in sorted;
        SortedCons(x, sorted);
      }
    }
  }

  lemma SortedCons(x: string, list: seq<string>)
    requires StrictlySorted(list) && (list != [] ==> Before(x, list[0]))
    ensures StrictlySorted([x] + list)
  {
    hide Before;
    var longer := [x] + list;
    forall i | 0 < i < |longer|
      ensures Before(longer[i - 1], longer[i])
    {
      if i > 1 {
        assert Before(list[i - 1 - 1], list[i - 1]);
      }
    }
  }

  /** Sorting distinct texts puts them in strictly increasing order. */
  lemma {:induction false} SortIsSorted(list: seq<string>)
    requires Distinct(list)
    ensures StrictlySorted(Sort(list))
  {
    if list != [] {
      SortIsSorted(list[1..]);
      SameMembers(Sort(list[1..]), list[1..]);
      InsertSorted(list[0], Sort(list[1..]));
    }
  }

  lemma SameMembers(a: seq<string>, b: seq<string>)
    requires multiset(a) == multiset(b)
    ensures |a| == |b| && forall x :: x in a <==> x in b
  {
    assert |multiset(a)| == |a| && |multiset(b)| == |b|;
    forall x
      ensures x in a <==> x in b
    {
      assert x in a <==> x in multiset(a);
      assert x in b <==> x in multiset(b);
    }
  }

  lemma {:induction false} FirstIsLeast(list: seq<string>, k: nat)
    requires StrictlySorted(list) && 0 < k < |list|
    ensures Before(list[0], list[k])
  {
    if k > 1 {
      FirstIsLeast(list, k - 1);
      BeforeIsAnOrder(list[0], list[k - 1], list[k]);
    }
  }

  lemma SameFirst(a: seq<string>, b: seq<string>)
    requires StrictlySorted(a) && StrictlySorted(b) && a != [] && b != [] && a[0] in b && b[0] in a
    ensures a[0] == b[0]
  {
    var i :| 0 <= i < |b| && b[i] == a[0];
    var j :| 0 <= j < |a| && a[j] == b[0];
    if i > 0 {
      FirstIsLeast(b, i);
    }
    if j > 0 {
      FirstIsLeast(a, j);
    }
    BeforeIsAnOrder(a[0], b[0], a[0]);
  }

  lemma SameRest(a: seq<string>, b: seq<string>)
    requires a != [] && b != [] && a[0] == b[0] && multiset(a) == multiset(b)
    ensures multiset(a[1..]) == multiset(b[1..])
  {
    assert a == [a[0]] + a[1..] && b == [b[0]] + b[1..];
    assert multiset(a[1..]) == multiset(a) - multiset{a[0]};
  }

  lemma TailSorted(list: seq<string>)
    requires StrictlySorted(list) && list != []
    ensures StrictlySorted(list[1..])
  {
  }

  /** Two strictly sorted lists with the same members are the same list. */
  lemma {:induction false} SortedUnique(a: seq<string>, b: seq<string>)
    requires StrictlySorted(a) && StrictlySorted(b) && multiset(a) == multiset(b)
    ensures a == b
  {
    hide Before;
    SameMembers(a, b);
    if a != [] {
      assert a[0] in a && b[0] in b;
      SameFirst(a, b);
      SameRest(a, b);
      TailSorted(a);
      TailSorted(b);
      hide StrictlySorted;
      SortedUnique(a[1..], b[1..]);
      assert a == [a[0]] + a[1..] && b == [b[0]] + b[1..];
    }
  }

  lemma {:induction false} SortedIsDistinct(list: seq<string>)
    requires StrictlySorted(list)
    ensures Distinct(list)
  {
    if list != [] {
      SortedIsDistinct(list[1..]);
      forall k | 0 < k < |list|
        ensures list[k] != list[0]
      {
        FirstIsLeast(list, k);
        BeforeIsAnOrder(list[0], list[k], list[0]);
      }
      assert list == [list[0]] + list[1..];
    }
  }

  /** A list already in order is left alone. */
  lemma SortOfSorted(list: seq<string>)
    requires StrictlySorted(list)
    ensures Sort(list) == list
  {
    SortedIsDistinct(list);
    SortIsSorted(list);
    SortedUnique(Sort(list), list);
  }

  /** The order a list is given in does not matter. */
  lemma SortForgetsOrder(a: seq<string>, b: seq<string>)
    requires Distinct(a) && Distinct(b) && multiset(a) == multiset(b)
    ensures Sort(a) == Sort(b)
  {
    SortIsSorted(a);
    SortIsSorted(b);
    SortedUnique(Sort(a), Sort(b));
  }
}
