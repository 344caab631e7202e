/** Extremes, and facts about floored division, which Python's `//` and Dafny's `/` share for positive divisors. */
module Arith {

  function Min(a: int, b: int): int { if a <= b then a else b }
  function Max(a: int, b: int): int { if a >= b then a else b }
  function MinReal(a: real, b: real): real { if a <= b then a else b }
  function MaxReal(a: real, b: real): real { if a >= b then a else b }

  lemma FactorPositive(d: int, n: int)
    requires 0 < d && d * n < d
    ensures n <= 0
  {
    if n > 0 {
      ProductMonotone(1, n, d);
    }
  }

  lemma ProductMonotone(a: int, b: int, d: int)
    requires a <= b && 0 <= d
    ensures a * d <= b * d && d * a <= d * b
  {
  }

  /** The floor is the only integer whose multiple brackets the dividend. */
  lemma FloorIs(x: int, d: int, q: int)
    requires 0 < d && d * q <= x < d * q + d
    ensures x / d == q
  {
    var r := x / d;
    assert x == d * r + x % d;
    assert d * (q - r) == d * q - d * r < d;
    assert d * (r - q) == d * r - d * q < d;
    FactorPositive(d, q - r);
    FactorPositive(d, r - q);
  }

  lemma FloorBounds(x: int, d: int)
    requires 0 < d
    ensures d * (x / d) <= x < d * (x / d) + d
  {
    assert x == d * (x / d) + x % d;
  }

  lemma FloorMonotone(x: int, y: int, d: int)
    requires x <= y && 0 < d
    ensures x / d <= y / d
  {
    FloorBounds(x, d);
    FloorBounds(y, d);
    var p, q := x / d, y / d;
    assert d * (p - q) == d * p - d * q < d;
    FactorPositive(d, p - q);
  }

  lemma FloorExact(a: int, d: int)
    requires 0 < d
    ensures a * d / d == a
  {
    FloorIs(a * d, d, a);
  }

  /** A floored pro-rata slice of a non-negative amount stays within the amount. */
  lemma SliceWithin(a: int, part: int, whole: int)
    requires 0 <= a && 0 <= part <= whole && 0 < whole
    ensures 0 <= a * part / whole <= a
    ensures part == 0 ==> a * part / whole == 0
  {
    ProductMonotone(part, whole, a);
    ProductMonotone(0, part, a);
    FloorExact(a, whole);
    FloorMonotone(a * part, a * whole, whole);
    FloorMonotone(0, a * part, whole);
    FloorIs(0, whole, 0);
  }
}
