/** Amounts are counted in micro-units (one millionth of a token), so that the
    source's `round(x, 6)` becomes rounding a quotient to the nearest integer.
    This module holds the one rounding rule the whole model uses. */
module Rounding {

  /** Micro-units per token: the source's SCALING_FACTOR. */
  const Micro: int := 1_000_000

  /** `r` is `n / d` rounded to the nearest integer, a tie going up:
      n/d - 1/2 < r <= n/d + 1/2. */
  predicate IsRounding(r: int, n: int, d: int)
  {
    2 * n - d < 2 * r * d <= 2 * n + d
  }

  /** `n / d` rounded to the nearest integer (half-up). */
  function RoundDiv(n: int, d: int): (r: int)
    requires d > 0
    ensures IsRounding(r, n, d)
  {
    var q := (2 * n + d) / (2 * d);
    DivBounds(2 * n + d, 2 * d);
    q
  }

  /** The Euclidean quotient brackets its dividend. */
  lemma DivBounds(a: int, b: int)
    requires b > 0
    ensures b * (a / b) <= a < b * (a / b) + b
  {
    assert a == b * (a / b) + a % b;
  }

  /** Only one integer is the rounding of a quotient. */
  lemma RoundingIsUnique(r1: int, r2: int, n: int, d: int)
    requires d > 0
    requires IsRounding(r1, n, d) && IsRounding(r2, n, d)
    ensures r1 == r2
  {
    MulCancel(2 * d, r1, r2 + 1);
    MulCancel(2 * d, r2, r1 + 1);
  }

  /** A positive factor can be cancelled from a strict inequality. */
  lemma MulCancel(p: int, x: int, y: int)
    requires p > 0 && p * x < p * y
    ensures x < y
  {
  }

  /** Rounding an exact multiple gives the multiplier back. */
  lemma RoundExact(k: int, d: int)
    requires d > 0
    ensures RoundDiv(k * d, d) == k
  {
    assert IsRounding(k, k * d, d);
    RoundingIsUnique(RoundDiv(k * d, d), k, k * d, d);
  }

  /** A quotient between two integer bounds rounds to between those bounds. */
  lemma RoundBetween(n: int, d: int, lo: int, hi: int)
    requires d > 0
    requires lo * d <= n <= hi * d
    ensures lo <= RoundDiv(n, d) <= hi
  {
    var r := RoundDiv(n, d);
    MulCancel(2 * d, r, hi + 1);
    MulCancel(2 * d, lo - 1, r);
  }

  /** A share of `p / d` (between 0 and 1) of a non-negative amount, rounded,
      lies between nothing and the whole amount. */
  lemma ShareBounds(a: int, p: int, d: int)
    requires 0 <= p <= d && d > 0
    ensures a >= 0 ==> 0 <= RoundDiv(a * p, d) <= a
  {
    if a >= 0 {
      assert 0 <= a * p <= a * d by { MulMono(a, p, d); }
      RoundBetween(a * p, d, 0, a);
    }
  }

  lemma MulMono(a: int, p: int, q: int)
    requires a >= 0 && 0 <= p <= q
    ensures 0 <= a * p <= a * q
  {
  }
}
