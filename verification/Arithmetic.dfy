/** Products and remainders. */
module Arithmetic {
  lemma MulNonNegative(a: int, b: int)
    requires a >= 0 && b >= 0
    ensures a * b >= 0
  {}

  lemma MultipleNotSmall(k: int, m: int)
    requires k != 0 && m > 0
    ensures k * m >= m || k * m <= -m
  {
    if k > 0 {
      MulNonNegative(k - 1, m);
      assert k * m == (k - 1) * m + m;
    } else {
      MulNonNegative(-k - 1, m);
      assert k * m == -((-k - 1) * m) - m;
    }
  }

  lemma Remainder(q: nat, m: nat, r: nat)
    requires r < m
    ensures (q * m + r) % m == r
  {
    var x := q * m + r;
    var k := x / m - q;
    assert x == (x / m) * m + x % m;
    assert k * m == r - x % m;
    if k != 0 {
      MultipleNotSmall(k, m);
    }
  }

  lemma SelfDivides(p: nat)
    requires p > 0
    ensures p % p == 0
  {
    Remainder(1, p, 0);
  }

  /** Divisibility is transitive. */
  lemma DividesThrough(p: nat, d: nat, x: nat)
    requires p > 0 && d > 0 && d % p == 0 && x % d == 0
    ensures x % p == 0
  {
    var a, b := d / p, x / d;
    assert d == a * p && x == b * d;
    assert x == b * (a * p) == (b * a) * p + 0;
    MulNonNegative(b, a);
    Remainder(b * a, p, 0);
  }
}
