/** Small facts about products and Euclidean division that the other modules use by name. */
module Arith {

  lemma MulAtLeast(a: int, m: int)
    requires a >= 1 && m >= 0
    ensures a * m >= m
  {
    assert (a - 1) * m >= 0;
  }

  lemma MulMonotone(a: int, b: int, m: int)
    requires a <= b && m >= 0
    ensures a * m <= b * m
  {
    assert (b - a) * m >= 0;
  }

  lemma DivUnique(m: int, q: int, r: int, d: int, e: int)
    requires q * m + r == d * m + e
    requires 0 <= r < m && 0 <= e < m
    ensures q == d && r == e
  {
    assert (q - d) * m == e - r && (d - q) * m == r - e;
    if q > d {
      MulAtLeast(q - d, m);
    } else if q < d {
      MulAtLeast(d - q, m);
    }
  }

  lemma DivMod(x: int, m: int)
    requires m > 0
    ensures x == (x / m) * m + x % m && 0 <= x % m < m
  {
  }

  lemma DivModIs(x: int, m: int, q: int, r: int)
    requires 0 <= r < m && x == q * m + r
    ensures x / m == q && x % m == r
  {
    DivMod(x, m);
    DivUnique(m, q, r, x / m, x % m);
  }

  lemma DivBounds(x: int, m: int, low: int, high: int)
    requires m > 0 && low * m <= x < high * m
    ensures low <= x / m < high
  {
    DivMod(x, m);
    var d := x / m;
    assert (d + 1) * m == d * m + m;
    if d < low {
      MulMonotone(d + 1, low, m);
    }
    if d >= high {
      MulMonotone(high, d, m);
    }
  }
}
