/** Facts about multiplication and division that the proofs use by name. */
module Arithmetic {

  lemma MulMono(x: int, y: int, d: nat)
    requires x <= y
    ensures x * d <= y * d
  {
  }

  lemma MulCancel(x: int, y: int, d: nat)
    requires x * d < y * d
    ensures x < y
  {
    if x >= y { MulMono(y, x, d); }
  }

  /** Quotient and remainder are determined by the division equation. */
  lemma DivModIs(x: int, d: nat, q: int, r: nat)
    requires d > 0 && x == q * d + r && r < d
    ensures x / d == q && x % d == r
  {
    var e := x / d - q;
    assert e * d == r - x % d;
    MulCancel(e, 1, d);
    MulCancel(-1, e, d);
  }

  lemma AddMultiple(a: nat, b: nat, d: nat)
    requires d > 0 && a % d == 0 && b % d == 0
    ensures (a + b) % d == 0
  {
    assert (a / d + b / d) * d == a + b;
    DivModIs(a + b, d, a / d + b / d, 0);
  }

  lemma SubMultiple(a: int, b: int, d: nat)
    requires d > 0 && a % d == 0 && b % d == 0
    ensures (a - b) % d == 0
  {
    assert (a / d - b / d) * d == a - b;
    DivModIs(a - b, d, a / d - b / d, 0);
  }

  lemma TimesMultiple(q: nat, m: nat, d: nat)
    requires d > 0 && m % d == 0
    ensures (q * m) % d == 0
  {
    var k := m / d;
    assert q * m == q * (k * d) == (q * k) * d;
    DivModIs(q * m, d, q * k, 0);
  }

  lemma QuotientAtMost(x: nat, d: nat)
    requires d > 0
    ensures x / d <= x
  {
    var q := x / d;
    assert x == q * d + x % d;
    MulMono(1, d, q);
  }

  /** Going back by the divisor does not change the remainder. */
  lemma ModShift(x: nat, d: nat)
    requires 0 < d <= x
    ensures x % d == (x - d) % d
  {
    var q, r := (x - d) / d, (x - d) % d;
    assert x - d == q * d + r;
    assert (q + 1) * d == q * d + d;
    DivModIs(x, d, q + 1, r);
  }
}
