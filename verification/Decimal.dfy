/** Canonical unsigned decimals: `str(n)`, `${n}`, and the pattern
    `(0|[1-9][0-9]*)` that admits exactly those texts. */
module Decimal {

  predicate IsDigit(c: char) {
    '0' <= c <= '9'
  }

  function DigitOf(d: nat): (c: char)
    requires d < 10
    ensures IsDigit(c) && c as int - '0' as int == d
  {
    '0' + d as char
  }

  /** `str(n)`. */
  function Text(n: nat): (s: string)
    ensures |s| >= 1
    ensures forall i | 0 <= i < |s| :: IsDigit(s[i])
  {
    if n < 10 then [DigitOf(n)] else Text(n / 10) + [DigitOf(n % 10)]
  }

  predicate AllDigits(s: string) {
    forall i | 0 <= i < |s| :: IsDigit(s[i])
  }

  /** `(0|[1-9][0-9]*)`, matched against the whole text. */
  predicate IsCanonical(s: string) {
    |s| >= 1 && AllDigits(s) && (|s| == 1 || s[0] != '0')
  }

  /** `int(s)`. */
  function Value(s: string): (n: nat)
    requires AllDigits(s)
  {
    if s == [] then 0 else 10 * Value(s[..|s| - 1]) + (s[|s| - 1] as int - '0' as int)
  }

  /** Every number prints canonically and reads back. */
  lemma {:induction false} ValueOfText(n: nat)
    ensures IsCanonical(Text(n)) && Value(Text(n)) == n
    ensures n > 0 ==> Text(n)[0] != '0'
  {
    if n >= 10 {
      ValueOfText(n / 10);
      assert Text(n)[..|Text(n)| - 1] == Text(n / 10);
    } else {
      assert Text(n)[..0] == [];
    }
  }

  /** Every canonical text is the print of its value: the two are one to one. */
  lemma {:induction false} TextOfValue(s: string)
    requires IsCanonical(s)
    ensures Text(Value(s)) == s
    ensures s[0] != '0' ==> Value(s) > 0
  {
    var init, d := s[..|s| - 1], s[|s| - 1] as int - '0' as int;
    if |s| > 1 {
      TextOfValue(init);
      assert Value(s) / 10 == Value(init) && Value(s) % 10 == d;
      assert s == init + [DigitOf(d)];
    } else {
      assert Value(init) == 0;
    }
  }

  lemma TextInjective(m: nat, n: nat)
    requires Text(m) == Text(n)
    ensures m == n
  {
    ValueOfText(m);
    ValueOfText(n);
  }

  function Tens(k: nat): (n: nat)
    ensures n > 0
  {
    if k == 0 then 1 else 10 * Tens(k - 1)
  }

  /** Digit `k` from the right, as many digits as the number needs. */
  lemma {:induction false} DigitAt(n: nat, k: nat)
    requires k < |Text(n)|
    ensures Text(n)[|Text(n)| - 1 - k] == "0123456789"[n / Tens(k) % 10]
    ensures |Text(n)| == 1 || n >= Tens(|Text(n)| - 1)
  {
    if n >= 10 {
      DigitAt(n / 10, if k == 0 then 0 else k - 1);
      if k > 0 {
        DivideByTens(n, k);
      }
    }
  }

  lemma DivideByTens(n: nat, k: nat)
    requires k > 0
    ensures n / Tens(k) == n / 10 / Tens(k - 1)
  {
    var d := Tens(k - 1);
    var q, r := n / 10 / d, n / 10 % d;
    assert n / 10 == q * d + r;
    assert q * Tens(k) == 10 * (q * d);
    QuotientIs(n, Tens(k), q, 10 * r + n % 10);
  }

  lemma QuotientIs(n: nat, d: nat, q: nat, r: nat)
    requires d > 0 && r < d && n == q * d + r
    ensures n / d == q
  {
    var p, s := n / d, n % d;
    assert n == p * d + s;
    if p < q {
      OneMoreTimes(p, q, d);
    } else if q < p {
      OneMoreTimes(q, p, d);
    }
  }

  lemma {:induction false} OneMoreTimes(p: nat, q: nat, d: nat)
    requires p < q
    ensures q * d >= p * d + d
    decreases q - p
  {
    if p + 1 < q {
      OneMoreTimes(p + 1, q, d);
    }
    assert (p + 1) * d == p * d + d;
  }
}
