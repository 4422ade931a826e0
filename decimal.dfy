/**
 * Fixed-point averages in hundredths.  Every average the system stores or
 * returns is a `Decimal` quantized to "0.01" in Python's default decimal
 * context, whose rounding mode is ROUND_HALF_EVEN.  A value v is represented
 * by the integer v * 100, and an exact quotient n / d of such values is
 * rounded to the nearest integer with ties going to the even neighbour.
 */
module Decimal {

  /** The rounding of n / d to an integer, half to even (banker's rounding). */
  function RoundHalfEven(n: int, d: int): (r: int)
    requires d > 0
    ensures 2 * (n - r * d) <= d && 2 * (r * d - n) <= d
    ensures 2 * (n - r * d) == d || 2 * (r * d - n) == d ==> r % 2 == 0
  {
    var q, rem := n / d, n % d;
    assert n == q * d + rem && 0 <= rem < d;
    assert (q + 1) * d == q * d + d;
    if 2 * rem < d then q
    else if 2 * rem > d then q + 1
    else if q % 2 == 0 then q
    else q + 1
  }

  /** Two integers whose multiples of d lie within d of each other differ by at most one. */
  lemma CloseMultiples(k: int, d: int)
    requires d > 0 && -d <= k * d <= d
    ensures -1 <= k <= 1
  {
  }

  /** Cancelling a positive factor: a * d < (b + 1) * d gives a <= b. */
  lemma CancelFactor(a: int, b: int, d: int)
    requires d > 0 && a * d < b * d + d
    ensures a <= b
  {
    assert (a - b) * d == a * d - b * d;
    if a > b {
      NonNegativeProduct(a - b - 1, d);
    }
  }

  lemma NonNegativeProduct(x: int, y: int)
    requires x >= 0 && y >= 0
    ensures x * y >= 0
  {
  }

  /** Nearest, ties to even: no other integer meets the two conditions. */
  lemma RoundHalfEvenUnique(n: int, d: int, r: int)
    requires d > 0
    requires 2 * (n - r * d) <= d && 2 * (r * d - n) <= d
    requires 2 * (n - r * d) == d || 2 * (r * d - n) == d ==> r % 2 == 0
    ensures r == RoundHalfEven(n, d)
  {
    var e := RoundHalfEven(n, d);
    var k := r - e;
    assert k * d == r * d - e * d;
    CloseMultiples(k, d);
  }

  /** An exact quotient is returned unchanged. */
  lemma RoundHalfEvenExact(k: int, d: int)
    requires d > 0
    ensures RoundHalfEven(k * d, d) == k
  {
    RoundHalfEvenUnique(k * d, d, k);
  }

  /** Rounding never leaves the interval [lo, hi] the quotient lies in. */
  lemma RoundHalfEvenBetween(n: int, d: int, lo: int, hi: int)
    requires d > 0 && lo * d <= n <= hi * d
    ensures lo <= RoundHalfEven(n, d) <= hi
  {
    var r := RoundHalfEven(n, d);
    CancelFactor(lo, r, d);
    CancelFactor(r, hi, d);
  }
}
