/** Division facts the solver does not find by itself when the divisor is a variable. */
module Arithmetic {

  lemma SmallMultiple(k: int, d: nat)
    requires 0 < k * d + d && k * d < d
    ensures k == 0
  {
  }

  lemma SmallMod(x: nat, d: nat)
    requires x < d
    ensures x % d == x && x / d == 0
  {
    assert (x / d) * d == x - x % d;
    SmallMultiple(x / d, d);
  }

  lemma DivStep(x: nat, d: nat)
    requires d > 0
    ensures (x + d) / d == x / d + 1
    ensures (x + d) % d == x % d
  {
    var k := (x + d) / d - (x / d + 1);
    assert k * d == x % d - (x + d) % d;
    SmallMultiple(k, d);
  }

  lemma {:induction false} ModShift(x: nat, q: nat, d: nat)
    requires d > 0
    ensures (x + q * d) % d == x % d
  {
    if q > 0 {
      ModShift(x, q - 1, d);
      DivStep(x + (q - 1) * d, d);
      assert x + q * d == x + (q - 1) * d + d;
    }
  }

  lemma ModAdd(x: nat, t: nat, d: nat)
    requires d > 0
    ensures (x % d + t) % d == (x + t) % d
  {
    var q := x / d;
    assert x + t == x % d + t + q * d;
    ModShift(x % d + t, q, d);
  }
}
