/** `ListRefs`: prefix range scans and keyset pages (`apps/repo-worker/src/refs.rs`
    and `list_refs` of `worker_impl/refstore.rs`). The table is its primary-key
    index: ref names in strictly increasing byte order. */
module RefListing {
  import opened Words
  import opened Option
  import opened ByteStrings
  import Utf8

  // ----------------------------------------------------------- prefix successor

  /** Drop trailing 0xFF bytes and increment the last remaining one. */
  function RawSuccessor(prefix: Bytes): (next: Option<Bytes>) {
    if prefix == [] then None
    else
      var init, last := prefix[..|prefix| - 1], prefix[|prefix| - 1];
      if last == 0xFF then RawSuccessor(init) else Some(init + [last + 1])
  }

  /** `prefix_successor(prefix)`: the successor, when it is text. */
  function Successor(prefix: Bytes): (next: Option<Bytes>) {
    var raw := RawSuccessor(prefix);
    if raw.Some? && IsUtf8(raw.value) then raw else None
  }

  method PrefixSuccessor(prefix: Bytes) returns (next: Option<Bytes>)
    ensures next == Successor(prefix)
  {
    var bytes := prefix;
    while bytes != []
      invariant RawSuccessor(bytes) == RawSuccessor(prefix)
      decreases |bytes|
    {
      var n := |bytes|;
      if bytes[n - 1] == 0xFF {
        bytes := bytes[..n - 1];
      } else {
        bytes := bytes[n - 1 := bytes[n - 1] + 1];
        assert bytes == RawSuccessor(prefix).value;
        return if IsUtf8(bytes) then Some(bytes) else None;
      }
    }
    return None;
  }

  /** The key to the range scan: a name has the prefix exactly when it lies in the
      half-open range from the prefix to its successor, or, when no byte string
      follows all of them, when it is not before the prefix. */
  lemma {:induction false} PrefixIsRange(p: Bytes, s: Bytes)
    ensures RawSuccessor(p).Some? ==> (p <= s <==> AtMost(p, s) && Below(s, RawSuccessor(p).value))
    ensures RawSuccessor(p).None? ==> (p <= s <==> AtMost(p, s))
    decreases |p|
  {
    if p != [] {
      SuccessorOfTail(p);
      if s != [] {
        PrefixIsRange(p[1..], s[1..]);
        assert p <= s <==> p[0] == s[0] && p[1..] <= s[1..];
        assert p == [p[0]] + p[1..] && s == [s[0]] + s[1..];
      }
    } else {
      BelowTotal(p, s);
    }
  }

  /** The successor, read from the front. */
  lemma {:induction false} SuccessorOfTail(p: Bytes)
    requires p != []
    ensures RawSuccessor(p)
         == match RawSuccessor(p[1..])
            case Some(t) => Some([p[0]] + t)
            case None => if p[0] == 0xFF then None else Some([p[0] + 1])
  {
    if |p| > 1 {
      var init := p[..|p| - 1];
      SuccessorOfTail(init);
      assert p[1..][..|p| - 2] == init[1..];
      assert p[1..][|p| - 2] == p[|p| - 1];
      if p[|p| - 1] != 0xFF {
        assert init + [p[|p| - 1] + 1] == [p[0]] + (init[1..] + [p[|p| - 1] + 1]);
      }
    } else {
      assert p[1..] == [] && p[..0] == [];
      assert p[0] != 0xFF ==> p[..0] + [p[0] + 1] == [p[0] + 1];
    }
  }

  // -------------------------------------------------------------- the range scan

  /** `list_refs_lower_bound(prefix, start_after)`. */
  datatype Bound = Bound(lo: Bytes, strict: bool) | Refused

  function LowerBound(prefix: Bytes, startAfter: Bytes): (b: Bound) {
    if startAfter == [] then Bound(prefix, false)
    else if prefix <= startAfter then Bound(startAfter, true)
    else Refused
  }

  /** `resolve_page_cap(page_size)`: no cap for 0, else clamped to 1..1000. */
  function PageCap(pageSize: nat): (cap: Option<nat>)
    ensures cap.None? <==> pageSize == 0
    ensures cap.Some? ==> 1 <= cap.value <= 1000 && cap.value <= pageSize && (cap.value == pageSize || cap.value == 1000)
  {
    if pageSize == 0 then None else Some(if pageSize > 1000 then 1000 else pageSize)
  }

  function Filter(keep: Bytes -> bool, names: seq<Bytes>): (kept: seq<Bytes>) {
    if names == [] then []
    else (if keep(names[0]) then [names[0]] else []) + Filter(keep, names[1..])
  }

  /** The `WHERE` clause: above `lo`, or at it, and below `hi` when there is one. */
  predicate InRange(name: Bytes, lo: Bytes, strict: bool, hi: Option<Bytes>) {
    && (if strict then Below(lo, name) else AtMost(lo, name))
    && (hi.Some? ==> Below(name, hi.value))
  }

  function Scan(index: seq<Bytes>, lo: Bytes, strict: bool, hi: Option<Bytes>): (matches: seq<Bytes>) {
    Filter(name => InRange(name, lo, strict, hi), index)
  }

  datatype Page = Page(rows: seq<Bytes>, cursor: Bytes) | Rejected

  /** `list_refs(prefix, start_after, page_size)`, without the count. */
  function ListRefs(index: seq<Bytes>, prefix: Bytes, startAfter: Bytes, pageSize: nat): (page: Page) {
    match LowerBound(prefix, startAfter)
    case Refused => Rejected
    case Bound(lo, strict) =>
      var hi := Successor(prefix);
      var matches := Scan(index, lo, strict, hi);
      match PageCap(pageSize)
      case None => Page(matches, [])
      case Some(cap) =>
        var rows := if |matches| > cap + 1 then matches[..cap + 1] else matches;
        if |rows| > cap then Page(rows[..cap], rows[cap - 1]) else Page(rows, [])
  }

  predicate Sorted(names: seq<Bytes>) {
    forall i, j | 0 <= i < j < |names| :: Below(names[i], names[j])
  }

  /** The refs a caller means: those with the prefix, in order. */
  function WithPrefix(index: seq<Bytes>, prefix: Bytes): (names: seq<Bytes>) {
    Filter(name => prefix <= name, index)
  }

  lemma {:induction false} FilterMembers(keep: Bytes -> bool, names: seq<Bytes>)
    ensures forall x :: x in Filter(keep, names) <==> x in names && keep(x)
  {
    if names != [] {
      FilterMembers(keep, names[1..]);
      assert names == [names[0]] + names[1..];
    }
  }

  lemma {:induction false} FilterSorted(keep: Bytes -> bool, names: seq<Bytes>)
    requires Sorted(names)
    ensures Sorted(Filter(keep, names))
  {
    if names != [] {
      FilterSorted(keep, names[1..]);
      FilterMembers(keep, names[1..]);
      var rest := Filter(keep, names[1..]);
      forall i | 0 <= i < |rest|
        ensures Below(names[0], rest[i])
      {
        assert rest[i] in names[1..];
      }
    }
  }

  lemma {:induction false} FilterAgree(f: Bytes -> bool, g: Bytes -> bool, names: seq<Bytes>)
    requires forall x | x in names :: f(x) == g(x)
    ensures Filter(f, names) == Filter(g, names)
  {
    if names != [] {
      FilterAgree(f, g, names[1..]);
    }
  }

  lemma {:induction false} FilterTwice(f: Bytes -> bool, g: Bytes -> bool, names: seq<Bytes>)
    ensures Filter(f, Filter(g, names)) == Filter(x => f(x) && g(x), names)
  {
    if names != [] {
      var rest := Filter(g, names[1..]);
      FilterTwice(f, g, names[1..]);
      if g(names[0]) {
        assert ([names[0]] + rest)[1..] == rest;
      } else {
        assert [] + rest == rest;
      }
    }
  }

  lemma {:induction false} FilterSuffix(keep: Bytes -> bool, names: seq<Bytes>, k: nat)
    requires k <= |names|
    requires forall i | 0 <= i < k :: !keep(names[i])
    requires forall i | k <= i < |names| :: keep(names[i])
    ensures Filter(keep, names) == names[k..]
  {
    if names != [] {
      FilterSuffix(keep, names[1..], if k == 0 then 0 else k - 1);
    }
  }

  /** U+10FFFF, the last character. */
  const TOP: Bytes := [0xF4, 0x8F, 0xBF, 0xBF]

  /** Nothing but last characters, the empty text included. */
  predicate OnlyTop(p: Bytes) {
    p == [] || (|p| >= 4 && p[..4] == TOP && OnlyTop(p[4..]))
  }

  /** The prefixes whose scan is exact: there is a text successor, or none is needed. */
  predicate Exact(prefix: Bytes) {
    Successor(prefix).Some? || OnlyTop(prefix)
  }

  /** Ref names are text. */
  predicate AllText(index: seq<Bytes>) {
    forall i | 0 <= i < |index| :: IsUtf8(index[i])
  }

  lemma AtMostTail(p: Bytes, s: Bytes)
    requires p != [] && AtMost(p, s)
    ensures s != [] && (p[0] < s[0] || (p[0] == s[0] && AtMost(p[1..], s[1..])))
  {
  }

  /** A text not before U+10FFFF starts with it. */
  lemma StartsWithTop(p: Bytes, s: Bytes)
    requires |p| >= 4 && p[..4] == TOP && IsUtf8(s) && AtMost(p, s)
    ensures |s| >= 4 && s[..4] == TOP && IsUtf8(s[4..]) && AtMost(p[4..], s[4..])
  {
    assert p[0] == TOP[0] && p[1] == TOP[1] && p[2] == TOP[2] && p[3] == TOP[3];
    AtMostTail(p, s);
    assert s[0] == 0xF4 && Utf8Head(s) == 4;
    AtMostTail(p[1..], s[1..]);
    AtMostTail(p[1..][1..], s[1..][1..]);
    AtMostTail(p[1..][1..][1..], s[1..][1..][1..]);
    assert p[1..][1..][1..][1..] == p[4..] && s[1..][1..][1..][1..] == s[4..];
  }

  /** No text follows the texts that start with last characters. */
  lemma {:induction false} TopIsLast(p: Bytes, s: Bytes)
    requires OnlyTop(p) && IsUtf8(s)
    ensures p <= s <==> AtMost(p, s)
  {
    if p <= s {
      PrefixAtMost(p, s);
    }
    if p != [] && AtMost(p, s) {
      StartsWithTop(p, s);
      TopIsLast(p[4..], s[4..]);
      assert p == p[..4] + p[4..] && s == s[..4] + s[4..];
    }
  }

  lemma RangeIsPrefix(prefix: Bytes, x: Bytes)
    requires Exact(prefix) && IsUtf8(x)
    ensures InRange(x, prefix, false, Successor(prefix)) == (prefix <= x)
  {
    PrefixIsRange(prefix, x);
    if OnlyTop(prefix) {
      TopIsLast(prefix, x);
    }
  }

  /** The first page scans exactly the refs with the prefix. */
  lemma FirstScan(index: seq<Bytes>, prefix: Bytes)
    requires Exact(prefix) && AllText(index)
    ensures Scan(index, prefix, false, Successor(prefix)) == WithPrefix(index, prefix)
  {
    hide Exact;
    forall x | x in index
      ensures InRange(x, prefix, false, Successor(prefix)) == (prefix <= x)
    {
      RangeIsPrefix(prefix, x);
    }
    FilterAgree(name => InRange(name, prefix, false, Successor(prefix)), name => prefix <= name, index);
  }

  /** A page after the cursor `names[k - 1]` scans exactly the rest. */
  lemma LaterScan(index: seq<Bytes>, prefix: Bytes, k: nat)
    requires Sorted(index) && AllText(index) && Exact(prefix) && 0 < k <= |WithPrefix(index, prefix)|
    ensures Scan(index, WithPrefix(index, prefix)[k - 1], true, Successor(prefix)) == WithPrefix(index, prefix)[k..]
    ensures prefix <= WithPrefix(index, prefix)[k - 1] && WithPrefix(index, prefix)[k - 1] in index
  {
    var names := WithPrefix(index, prefix);
    var has, cursor := (name: Bytes) => prefix <= name, names[k - 1];
    var after := (name: Bytes) => Below(cursor, name);
    FilterMembers(has, index);
    FilterSorted(has, index);
    assert cursor in names;
    hide Exact;
    forall x | x in index
      ensures InRange(x, cursor, true, Successor(prefix)) == (Below(cursor, x) && prefix <= x)
    {
      RangeIsPrefix(prefix, x);
      PrefixAtMost(prefix, cursor);
      if Below(cursor, x) && prefix != cursor {
        BelowTransitive(prefix, cursor, x);
      }
    }
    FilterAgree(name => InRange(name, cursor, true, Successor(prefix)), x => after(x) && has(x), index);
    FilterTwice(after, has, index);
    forall i | 0 <= i < |names|
      ensures after(names[i]) <==> k <= i
    {
      if i == k - 1 {
        BelowIrreflexive(cursor);
      } else if i < k - 1 && Below(cursor, names[i]) {
        BelowTransitive(cursor, names[i], cursor);
        BelowIrreflexive(cursor);
      }
    }
    FilterSuffix(after, names, k);
  }

  /** One page: the next `cap` matches, and a cursor exactly when more follow. */
  lemma PageIsExact(index: seq<Bytes>, prefix: Bytes, pageSize: nat, k: nat)
    requires Sorted(index) && AllText(index) && [] !in index && Exact(prefix) && pageSize > 0
    requires k <= |WithPrefix(index, prefix)|
    ensures var names, cap := WithPrefix(index, prefix), PageCap(pageSize).value;
            ListRefs(index, prefix, if k == 0 then [] else names[k - 1], pageSize) ==
            if k + cap < |names| then Page(names[k..k + cap], names[k + cap - 1]) else Page(names[k..], [])
  {
    hide WithPrefix, Scan, Sorted, AllText, ListRefs, Exact, PageCap, Successor;
    var names, cap := WithPrefix(index, prefix), PageCap(pageSize).value;
    if k == 0 {
      FirstScan(index, prefix);
      assert names[0..] == names;
      FirstPage(index, prefix, pageSize);
    } else {
      LaterScan(index, prefix, k);
      PageAfter(index, prefix, names[k - 1], pageSize);
    }
    assert k + cap < |names| ==> names[k..][..cap] == names[k..k + cap];
  }

  lemma FirstPage(index: seq<Bytes>, prefix: Bytes, pageSize: nat)
    requires pageSize > 0
    ensures var matches, cap := Scan(index, prefix, false, Successor(prefix)), PageCap(pageSize).value;
            ListRefs(index, prefix, [], pageSize) ==
            if cap < |matches| then Page(matches[..cap], matches[cap - 1]) else Page(matches, [])
  {
    hide Scan, Successor;
  }

  lemma PageAfter(index: seq<Bytes>, prefix: Bytes, cursor: Bytes, pageSize: nat)
    requires pageSize > 0 && prefix <= cursor && cursor in index && [] !in index
    ensures var matches, cap := Scan(index, cursor, true, Successor(prefix)), PageCap(pageSize).value;
            ListRefs(index, prefix, cursor, pageSize) ==
            if cap < |matches| then Page(matches[..cap], matches[cap - 1]) else Page(matches, [])
  {
    hide Scan, Successor;
  }

  /** What any request is answered, whatever its cursor: a cursor without the prefix is
      refused; otherwise the names of the listing that come after the cursor, at most 1000
      and at most as many as asked for, all of them for a page size of zero, and the last
      of them as the next cursor exactly when more follow. */
  lemma AnyRequest(index: seq<Bytes>, prefix: Bytes, startAfter: Bytes, pageSize: nat)
    requires Sorted(index) && AllText(index) && Exact(prefix)
    ensures startAfter != [] && !(prefix <= startAfter) ==> ListRefs(index, prefix, startAfter, pageSize) == Rejected
    ensures startAfter == [] || prefix <= startAfter ==>
              var rest := Filter(name => Below(startAfter, name) || startAfter == [], WithPrefix(index, prefix));
              var cap := if pageSize == 0 then |rest| else if pageSize > 1000 then 1000 else pageSize;
              ListRefs(index, prefix, startAfter, pageSize) ==
              if cap < |rest| then Page(rest[..cap], rest[cap - 1]) else Page(rest, [])
  {
    if startAfter == [] || prefix <= startAfter {
      ScanIsRest(index, prefix, startAfter);
    }
    hide Scan, Filter, WithPrefix, Successor, Sorted, AllText, Exact;
  }

  lemma ScanIsRest(index: seq<Bytes>, prefix: Bytes, startAfter: Bytes)
    requires AllText(index) && Exact(prefix) && (startAfter == [] || prefix <= startAfter)
    ensures Scan(index, if startAfter == [] then prefix else startAfter, startAfter != [], Successor(prefix))
         == Filter(name => Below(startAfter, name) || startAfter == [], WithPrefix(index, prefix))
  {
    hide Exact;
    var has, after := (name: Bytes) => prefix <= name, (name: Bytes) => Below(startAfter, name) || startAfter == [];
    var lo := if startAfter == [] then prefix else startAfter;
    forall x | x in index
      ensures InRange(x, lo, startAfter != [], Successor(prefix)) == (after(x) && has(x))
    {
      RangeIsPrefix(prefix, x);
      if startAfter != [] {
        PrefixAtMost(prefix, startAfter);
        if Below(startAfter, x) && prefix != startAfter {
          BelowTransitive(prefix, startAfter, x);
        }
      }
    }
    FilterAgree(name => InRange(name, lo, startAfter != [], Successor(prefix)), x => after(x) && has(x), index);
    FilterTwice(after, has, index);
  }

  /** A page size of zero lists everything at once. */
  lemma WholePage(index: seq<Bytes>, prefix: Bytes)
    requires Exact(prefix) && AllText(index)
    ensures ListRefs(index, prefix, [], 0) == Page(WithPrefix(index, prefix), [])
  {
    hide WithPrefix, Scan, Below;
    FirstScan(index, prefix);
  }

  /** One page more: the listing goes on where it stopped, and ends when no cursor comes. */
  lemma NextPage(index: seq<Bytes>, prefix: Bytes, pageSize: nat, all: seq<Bytes>, cursor: Bytes)
    requires Sorted(index) && AllText(index) && [] !in index && Exact(prefix) && pageSize > 0
    requires all <= WithPrefix(index, prefix) && cursor == if all == [] then [] else all[|all| - 1]
    ensures var page := ListRefs(index, prefix, cursor, pageSize);
            && page.Page? && all + page.rows <= WithPrefix(index, prefix)
            && (page.cursor == [] ==> all + page.rows == WithPrefix(index, prefix))
            && (page.cursor != [] ==> page.rows != [] && page.cursor == (all + page.rows)[|all + page.rows| - 1])
  {
    hide WithPrefix, ListRefs, Exact, Sorted, AllText, PageCap;
    var names := WithPrefix(index, prefix);
    PageIsExact(index, prefix, pageSize, |all|);
    PageNotEmpty(index, names, prefix);
    GoesOn(names, all, |all| + PageCap(pageSize).value);
  }

  lemma GoesOn(names: seq<Bytes>, all: seq<Bytes>, n: nat)
    requires all <= names && |all| <= n
    ensures names == all + names[|all|..]
    ensures n < |names| ==> all + names[|all|..n] == names[..n]
  {
  }

  /** Follow the cursors until none is issued. */
  method ListAll(index: seq<Bytes>, prefix: Bytes, pageSize: nat) returns (all: seq<Bytes>)
    requires Sorted(index) && AllText(index) && [] !in index && Exact(prefix)
    ensures all == WithPrefix(index, prefix)
  {
    hide WithPrefix, ListRefs, Exact, Sorted, AllText;
    var cursor: Bytes := [];
    all := [];
    while true
      invariant pageSize == 0 ==> all == [] && cursor == []
      invariant all <= WithPrefix(index, prefix)
      invariant cursor == if all == [] then [] else all[|all| - 1]
      decreases |WithPrefix(index, prefix)| - |all|
    {
      var page := ListRefs(index, prefix, cursor, pageSize);
      if pageSize == 0 {
        WholePage(index, prefix);
        return page.rows;
      }
      NextPage(index, prefix, pageSize, all, cursor);
      all := all + page.rows;
      if page.cursor == [] {
        return;
      }
      cursor := page.cursor;
    }
  }

  /** No listed name is empty, so a cursor is never mistaken for the end. */
  lemma PageNotEmpty(index: seq<Bytes>, names: seq<Bytes>, prefix: Bytes)
    requires names == WithPrefix(index, prefix) && [] !in index
    ensures forall i | 0 <= i < |names| :: names[i] != []
  {
    FilterMembers(name => prefix <= name, index);
    forall i | 0 <= i < |names|
      ensures names[i] != []
    {
      assert names[i] in names;
    }
  }

  /** What a full listing is: the refs with the prefix, all of them, once each, in order. */
  lemma ListingIsExact(index: seq<Bytes>, prefix: Bytes)
    requires Sorted(index)
    ensures Sorted(WithPrefix(index, prefix))
    ensures forall x :: x in WithPrefix(index, prefix) <==> x in index && prefix <= x
  {
    FilterSorted(name => prefix <= name, index);
    FilterMembers(name => prefix <= name, index);
  }

  // ---------------------------------------------------------- which prefixes qualify

  /** The characters of a ref name or prefix (SPEC-REFS section 3). */
  predicate GrammarByte(b: Byte) {
    || 0x30 <= b <= 0x39
    || 0x41 <= b <= 0x5A
    || 0x61 <= b <= 0x7A
    || b == 0x2D || b == 0x2E || b == 0x2F || b == 0x5F
  }

  /** Every prefix the grammar admits has a text successor, unless it is empty. */
  lemma GrammarPrefixIsExact(prefix: Bytes)
    requires forall i | 0 <= i < |prefix| :: GrammarByte(prefix[i])
    ensures Exact(prefix)
    ensures Successor(prefix).None? <==> prefix == []
  {
    if prefix != [] {
      AsciiIsUtf8(RawSuccessor(prefix).value);
    }
  }

  /** A prefix whose successor is not text is scanned without an upper bound and
      lists a ref outside it: the fallback is not exact. */
  lemma NoUpperBoundIsInexact()
    ensures var prefix, stranger := [0x7F], [0xC2, 0x80];
            && IsUtf8(prefix) && IsUtf8(stranger) && !Exact(prefix) && !(prefix <= stranger)
            && ListRefs([stranger], prefix, [], 0) == Page([stranger], [])
  {
    var prefix: Bytes, stranger: Bytes := [0x7F], [0xC2, 0x80];
    assert prefix[..0] + [0x80] == [0x80];
    assert RawSuccessor(prefix) == Some([0x80]);
    assert prefix[1..] == [] && stranger[2..] == [] && stranger[1..] == [0x80];
    assert !IsUtf8([0x80]);
    assert Below(prefix, stranger);
    var keep := (name: Bytes) => InRange(name, prefix, false, None);
    assert Filter(keep, [stranger]) == [stranger] + Filter(keep, []);
  }

  const LAST_CHAR: char := 0x10FFFF as char

  predicate OnlyLast(t: string) {
    forall i | 0 <= i < |t| :: t[i] == LAST_CHAR
  }

  function NextChar(c: char): (d: char)
    requires c != LAST_CHAR
    ensures c < d
  {
    if c == 0xD7FF as char then 0xE000 as char else (c as int + 1) as char
  }

  /** The text with its last character below U+10FFFF moved on, and what follows dropped. */
  function StrangerTo(t: string): (stranger: string)
    requires !OnlyLast(t)
    ensures stranger != ""
  {
    if OnlyLast(t[1..]) then [NextChar(t[0])] else [t[0]] + StrangerTo(t[1..])
  }

  lemma EncodeOne(c: char)
    ensures Utf8.Encode([c]) == Utf8.EncodeChar(c)
  {
    assert [c][1..] == "" && Utf8.Encode("") == [];
    hide Utf8.EncodeChar;
    assert Utf8.EncodeChar(c) + [] == Utf8.EncodeChar(c);
  }

  lemma {:induction false} StrangerIsAbove(t: string)
    requires !OnlyLast(t)
    ensures var p, s := Utf8.Encode(t), Utf8.Encode(StrangerTo(t)); Below(p, s) && !(p <= s)
  {
    var c, rest := t[0], Utf8.Encode(t[1..]);
    hide Utf8.EncodeChar, NextChar, Below;
    if OnlyLast(t[1..]) {
      Utf8.EncodeCharKeepsOrder(c, NextChar(c));
      Utf8.PrecedesIsBelow(Utf8.EncodeChar(c), Utf8.EncodeChar(NextChar(c)), rest, []);
      EncodeOne(NextChar(c));
      assert Utf8.EncodeChar(NextChar(c)) + [] == Utf8.EncodeChar(NextChar(c));
    } else {
      StrangerIsAbove(t[1..]);
      var more := StrangerTo(t[1..]);
      Utf8.BelowBehind(Utf8.EncodeChar(c), rest, Utf8.Encode(more));
      assert ([c] + more)[1..] == more;
    }
  }

  lemma {:induction false} OnlyLastIsOnlyTop(t: string)
    requires OnlyLast(t)
    ensures OnlyTop(Utf8.Encode(t))
  {
    if t != "" {
      OnlyLastIsOnlyTop(t[1..]);
      assert Utf8.EncodeChar(LAST_CHAR) == TOP;
      var p := Utf8.Encode(t);
      assert p[..4] == TOP && p[4..] == Utf8.Encode(t[1..]);
    }
  }

  /** Every other text prefix lists a text outside it: the prefix with its last character
      below U+10FFFF replaced by the next one. */
  lemma InexactListsAStranger(prefix: Bytes) returns (stranger: Bytes)
    requires IsUtf8(prefix) && !Exact(prefix)
    ensures IsUtf8(stranger) && !(prefix <= stranger)
    ensures ListRefs([stranger], prefix, [], 0) == Page([stranger], [])
  {
    var t := Utf8.Decode(prefix).value;
    Utf8.EncodeOfDecode(prefix);
    if OnlyLast(t) {
      OnlyLastIsOnlyTop(t);
    }
    StrangerIsAbove(t);
    stranger := Utf8.Encode(StrangerTo(t));
    Utf8.EncodeIsUtf8(StrangerTo(t));
    hide Utf8.Encode, Utf8.Decode, OnlyLast, OnlyTop, IsUtf8, StrangerTo, RawSuccessor;
    OneAbove(prefix, stranger);
  }

  lemma OneAbove(prefix: Bytes, stranger: Bytes)
    requires Successor(prefix).None? && Below(prefix, stranger)
    ensures ListRefs([stranger], prefix, [], 0) == Page([stranger], [])
  {
    hide Below, RawSuccessor, IsUtf8;
    var keep := (name: Bytes) => InRange(name, prefix, false, None);
    assert Filter(keep, [stranger]) == [stranger] + Filter(keep, []);
  }

  /** The condition is exact: over tables of text names a text prefix is always listed
      right exactly when it has a text successor or consists of last characters only. */
  lemma ListedRightIff(prefix: Bytes)
    requires IsUtf8(prefix)
    ensures (forall index | Sorted(index) && AllText(index) ::
               ListRefs(index, prefix, [], 0) == Page(WithPrefix(index, prefix), [])) <==> Exact(prefix)
  {
    if Exact(prefix) {
      forall index | Sorted(index) && AllText(index)
        ensures ListRefs(index, prefix, [], 0) == Page(WithPrefix(index, prefix), [])
      {
        WholePage(index, prefix);
      }
    } else {
      var stranger := InexactListsAStranger(prefix);
      hide ListRefs, Exact;
      assert Sorted([stranger]) && AllText([stranger]);
      NotListed(prefix, stranger);
    }
  }

  lemma NotListed(prefix: Bytes, stranger: Bytes)
    requires !(prefix <= stranger)
    ensures WithPrefix([stranger], prefix) == []
  {
    var keep := (name: Bytes) => prefix <= name;
    assert Filter(keep, [stranger]) == Filter(keep, []);
  }
}
