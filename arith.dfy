/** Facts about Euclidean division and products that the solver does not find on its own. */
module Arith {

  lemma MulAtLeast(x: int, d: int)
    requires d > 0 && x >= 1
    ensures x * d >= d
  {
  }

  lemma MulZero(x: int, d: int)
    requires d > 0 && -d < x * d < d
    ensures x == 0
  {
    if x > 0 {
      MulAtLeast(x, d);
    } else if x < 0 {
      MulAtLeast(-x, d);
    }
  }

  /** Euclidean division characterised by its bounds. */
  lemma DivIff(n: int, d: int, q: int)
    requires d > 0
    ensures n / d == q <==> q * d <= n < q * d + d
  {
    var t, r := n / d, n % d;
    assert n == t * d + r && 0 <= r < d;
    if q * d <= n < q * d + d {
      assert (t - q) * d == n - r - q * d;
      MulZero(t - q, d);
    }
  }

  /** A quotient of a number below m * d is below m. */
  lemma DivBelow(n: int, d: int, m: int)
    requires d > 0 && 0 <= n < m * d
    ensures 0 <= n / d < m
  {
    var t, r := n / d, n % d;
    assert n == t * d + r && 0 <= r < d;
    assert (m - t) * d == m * d - n + r;
    if m - t <= 0 {
      MulAtLeast(t - m + 1, d);
    }
    if t < 0 {
      MulAtLeast(-t, d);
    }
  }

  /** In a row-major grid of m columns, position a * m + b comes before n * m when a < n. */
  lemma MulBelow(a: int, b: int, n: int, m: int)
    requires 0 <= a < n && 0 <= b < m
    ensures 0 <= a * m + b < n * m
  {
    assert a * m <= (n - 1) * m;
  }

  /** Scaling numerator and divisor by the same factor leaves the quotient unchanged. */
  lemma DivScale(a: int, d: int, f: int)
    requires d > 0 && f > 0
    ensures (a * f) / (d * f) == a / d
  {
    var q := a / d;
    DivIff(a, d, q);
    assert q * (d * f) == (q * d) * f && a * f >= (q * d) * f && a * f < (q * d + d) * f by {
      assert (a - q * d) * f >= 0 && (q * d + d - a) * f > 0 by {
        MulAtLeast(q * d + d - a, f);
      }
    }
    DivIff(a * f, d * f, q);
  }
}
