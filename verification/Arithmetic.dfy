/** Products and quotients of integers that need more than linear reasoning. Division keeps a
    non-negative remainder. */
module Arithmetic {

  lemma MulMono(x: int, y: int, z: int)
    requires y <= z
    ensures x >= 0 ==> x * y <= x * z
    ensures x <= 0 ==> x * z <= x * y
  {
    if x >= 0 {
      assert x * (z - y) >= 0;
    } else {
      assert (-x) * (z - y) >= 0;
    }
  }

  lemma MulStrict(x: int, y: int, z: int)
    requires y < z
    ensures x > 0 ==> x * y < x * z
    ensures x < 0 ==> x * z < x * y
  {
    MulMono(x, y + 1, z);
  }

  /** For a positive divisor, `q` is at most the quotient exactly when `q * d` fits. */
  lemma QuotientLeast(e: int, d: int, q: int)
    requires d > 0
    ensures q * d <= e <==> q <= e / d
  {
    var k := e / d;
    assert e == k * d + e % d;
    if q <= k {
      MulMono(d, q, k);
    } else {
      MulMono(d, k + 1, q);
      assert (k + 1) * d == k * d + d;
    }
  }

  lemma DivMonoNumerator(x: int, y: int, d: int)
    requires x <= y && d > 0
    ensures x / d <= y / d
  {
    QuotientLeast(x, d, x / d);
    QuotientLeast(y, d, x / d);
  }

  lemma DivMonoDivisor(e: int, c: int, y: int)
    requires 0 < c <= y
    ensures e >= 0 ==> 0 <= e / y <= e / c
    ensures e < 0 ==> e / c <= e / y < 0
  {
    var q := e / y;
    QuotientLeast(e, y, q);
    QuotientLeast(e, y, 0);
    QuotientLeast(e, c, 0);
    if e >= 0 {
      MulMono(q, c, y);
      QuotientLeast(e, c, q);
    } else {
      var p := e / c;
      QuotientLeast(e, c, p);
      MulMono(p, c, y);
      QuotientLeast(e, y, p);
    }
  }

  lemma DivNegDivisor(e: int, d: int)
    requires d < 0
    ensures e / d == -(e / -d)
  {
    var q, r := e / d, e % d;
    assert e == q * d + r;
    assert q * d == (-q) * (-d);
    QuotientLeast(e, -d, -q);
    QuotientLeast(e, -d, -q + 1);
    assert (-q + 1) * (-d) == (-q) * (-d) - d;
  }
}
