/**
  The quotient-digit estimate of Algorithm D, in any base b.

  A dividend window is (top * b + next) * scale + rest, a divisor (v1 * b + v2) * scale + rest':
  the estimate sees the three leading dividend digits and the two leading divisor digits only.
 */
module QuotientDigit {
  import opened Arith

  /** The estimate: the quotient of the leading digits, capped at the largest digit. */
  function Estimate(b: int, three: int, two: int): (q: int)
    requires b > 0 && two > 0
  {
    if three / two < b then three / two else b - 1
  }

  /** What a trial quotient q with remainder r of the leading pair says about all three digits. */
  lemma Residual(b: int, pair: int, d0: int, v1: int, v2: int, q: int, r: int)
    requires pair == q * v1 + r
    ensures q * (v1 * b + v2) - (pair * b + d0) == q * v2 - (r * b + d0)
  {
    Distribute(v1 * b, v2, q);
    Associate(q, v1, b);
    Distribute(q * v1, r, b);
  }

  lemma QuotientBelow(n: int, d: int, q: int)
    requires d > 0 && n < q * d
    ensures n / d < q
  {
    assert n == (n / d) * d + n % d;
    MulCancelLt(n / d, q, d);
  }

  /** The first trial quotient is never below the estimate. */
  lemma FirstTrial(b: int, pair: int, d0: int, v1: int, v2: int)
    requires b > 0 && pair >= 0 && 0 <= d0 < b && v1 > 0 && 0 <= v2
    requires v1 * b + v2 > 0
    ensures (pair * b + d0) / (v1 * b + v2) <= pair / v1
  {
    var q, three, two := pair / v1, pair * b + d0, v1 * b + v2;
    assert pair == q * v1 + pair % v1;
    Distribute(q, 1, v1);
    MulLe(pair + 1, (q + 1) * v1, b);
    Distribute(pair, 1, b);
    Associate(q + 1, v1, b);
    assert 0 <= (q + 1) * v2 by { MulMono(0, 0, q + 1, v2); }
    Distribute(v1 * b, v2, q + 1);
    assert three < (q + 1) * two;
    QuotientBelow(three, two, q + 1);
  }

  lemma QuotientAtLeast(n: int, d: int, q: int)
    requires d > 0 && q * d <= n
    ensures q <= n / d
  {
    assert n == (n / d) * d + n % d;
    if n / d < q {
      MulLe(n / d + 1, q, d);
      Distribute(n / d, 1, d);
    }
  }

  /** Once the trial remainder reaches the base, the trial quotient is a digit that fits. */
  lemma RemainderOverflow(b: int, pair: int, d0: int, v1: int, v2: int, q: int, r: int)
    requires b > 0 && 0 <= d0 < b && 0 < v1 && 0 <= v2 < b
    requires pair == q * v1 + r && r >= b && q >= 0
    requires pair < v1 * b + b
    ensures q < b && q * v2 <= r * b + d0
  {
    Associate(v1, b, 1);
    MulCancelLt(q, b, v1);
    MulMono(q, v2, b, b);
    MulLe(b, r, b);
  }

  /** The next larger trial already fails, so the divisor goes into the dividend at most q times. */
  lemma NotBelow(scale: int, three: int, two: int, dividend: int, divisor: int, q: int)
    requires scale > 0 && q >= 0
    requires dividend < (three + 1) * scale
    requires two * scale <= divisor
    requires three + 1 <= (q + 1) * two
    ensures dividend < (q + 1) * divisor
  {
    MulLe(three + 1, (q + 1) * two, scale);
    Associate(q + 1, two, scale);
    MulLe(two * scale, divisor, q + 1);
  }

  /** A trial that fits the leading digits is at most one too large for the whole divisor. */
  lemma NotTwoAbove(scale: int, three: int, two: int, dividend: int, divisor: int, q: int)
    requires scale > 0 && q >= 1
    requires three * scale <= dividend
    requires divisor <= (two + 1) * scale
    requires q * two <= three && q - 1 <= two
    ensures (q - 1) * divisor <= dividend
  {
    MulLe(divisor, (two + 1) * scale, q - 1);
    Associate(q - 1, two + 1, scale);
    Distribute(q, 1, two + 1);
    Distribute(two, 1, q);
    MulLe((q - 1) * (two + 1), three, scale);
  }

  lemma EstimateFits(b: int, three: int, two: int)
    requires b > 0 && two > 0 && three >= 0
    ensures 0 <= Estimate(b, three, two) < b
    ensures Estimate(b, three, two) * two <= three
    ensures Estimate(b, three, two) < b - 1 ==> three + 1 <= (Estimate(b, three, two) + 1) * two
  {
    var q := three / two;
    assert three == q * two + three % two;
    Distribute(q, 1, two);
    QuotientAtLeast(three, two, 0);
    MulLe(Estimate(b, three, two), q, two);
  }

  lemma LeadingPairLarge(b: int, scale: int, two: int, divisor: int)
    requires b >= 2 && scale > 0 && 2 * two >= b * b && two * scale <= divisor
    ensures b <= two && 0 < divisor
  {
    MulMono(2, b, b, b);
    MulMono(1, 1, two, scale);
  }

  /**
    Theorems A and B of section 4.3.1: with a divisor whose leading digit is at least b / 2,
    the estimate is the true digit or one more.
   */
  lemma EstimateError(b: int, scale: int, three: int, two: int, dividend: int, divisor: int)
    requires b >= 2 && scale > 0 && three >= 0
    requires 2 * two >= b * b
    requires three * scale <= dividend < (three + 1) * scale
    requires two * scale <= divisor < (two + 1) * scale
    requires dividend < b * divisor
    ensures 0 < two && 0 < divisor
    ensures dividend / divisor <= Estimate(b, three, two) <= dividend / divisor + 1
  {
    LeadingPairLarge(b, scale, two, divisor);
    EstimateFits(b, three, two);
    var q := Estimate(b, three, two);
    if q < b - 1 {
      NotBelow(scale, three, two, dividend, divisor, q);
    }
    QuotientBelow(dividend, divisor, q + 1);
    if q >= 1 {
      NotTwoAbove(scale, three, two, dividend, divisor, q);
      QuotientAtLeast(dividend, divisor, q - 1);
    } else {
      MulMono(0, 0, three, scale);
      QuotientAtLeast(dividend, divisor, 0);
    }
  }
}
