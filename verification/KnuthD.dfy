/** Algorithm D of Knuth, The Art of Computer Programming, volume 2, section 4.3.1. */
module KnuthD {
  import opened Arith
  import opened Digits
  import opened MachineTypes
  import opened QuotientDigit

  const HALF: int := 0x8000_0000

  /** The digits from index k up, read as a number, give the whole in units of the digit at k. */
  lemma LeadingDigits(s: seq<int>, k: nat)
    requires k <= |s| && IsDigits(s)
    ensures Value(s[k..]) * Power(k) <= Value(s) < (Value(s[k..]) + 1) * Power(k)
  {
    assert s == s[..k] + s[k..];
    ValueConcat(s[..k], s[k..]);
    ValueBound(s[..k]);
    Distribute(Value(s[k..]), 1, Power(k));
  }

  function TwoDigits(high: int, low: int): int { high * BASE + low }

  function ThreeDigits(high: int, mid: int, low: int): int { TwoDigits(high, mid) * BASE + low }

  lemma ValuePair(s: seq<int>)
    requires |s| == 2
    ensures Value(s) == TwoDigits(s[1], s[0])
  {
    assert s[1..] == [s[1]];
    ValueSingle(s[1]);
  }

  lemma ValueTriple(s: seq<int>)
    requires |s| == 3
    ensures Value(s) == ThreeDigits(s[2], s[1], s[0])
  {
    assert s[1..] == [s[1], s[2]];
    ValuePair(s[1..]);
  }

  lemma LeadingPair(s: seq<int>)
    requires |s| >= 2 && IsDigits(s)
    ensures var two, p := TwoDigits(s[|s| - 1], s[|s| - 2]), Power(|s| - 2);
            two * p <= Value(s) < (two + 1) * p
  {
    LeadingDigits(s, |s| - 2);
    ValuePair(s[|s| - 2..]);
  }

  lemma LeadingTriple(s: seq<int>)
    requires |s| >= 3 && IsDigits(s)
    ensures var three, p := ThreeDigits(s[|s| - 1], s[|s| - 2], s[|s| - 3]), Power(|s| - 3);
            three * p <= Value(s) < (three + 1) * p
  {
    LeadingDigits(s, |s| - 3);
    ValueTriple(s[|s| - 3..]);
  }

  /** A number below v has a leading pair no larger than v's. */
  lemma LeadingPairsOrdered(top: seq<int>, v: seq<int>)
    requires |top| == |v| >= 2 && IsDigits(top) && IsDigits(v)
    requires Value(top) < Value(v)
    ensures TwoDigits(top[|v| - 1], top[|v| - 2]) <= TwoDigits(v[|v| - 1], v[|v| - 2])
  {
    LeadingPair(top);
    LeadingPair(v);
    MulCancelLt(TwoDigits(top[|v| - 1], top[|v| - 2]), TwoDigits(v[|v| - 1], v[|v| - 2]) + 1, Power(|v| - 2));
  }

  lemma TooLarge(three: int, two: int, q: int)
    requires two > 0 && 0 <= three < q * two
    ensures Estimate(BASE, three, two) <= q - 1
  {
    QuotientBelow(three, two, q);
  }

  lemma Fitting(three: int, two: int, q: int)
    requires two > 0 && q * two <= three && q < BASE
    requires Estimate(BASE, three, two) <= q
    ensures Estimate(BASE, three, two) == q
  {
    QuotientAtLeast(three, two, q);
  }

  /** The 64-bit product of two digits. */
  function DigitProduct(x: u32, y: u32): (r: u64)
    ensures r == x * y
  {
    MulMono(x, y, BASE - 1, BASE - 1);
    x * y
  }

  /** Two digits in one 64-bit word. */
  function JoinDigits(high: u32, low: u32): (r: u64)
    ensures r == TwoDigits(high, low)
  {
    high * BASE + low
  }

  /** The quotient and remainder of the leading digit are a trial that is not too small. */
  lemma TrialStarts(pair: u64, d0: u32, v1: u32, v2: u32)
    requires v1 >= HALF
    ensures pair == (pair / v1) * v1 + pair % v1 && 0 <= pair / v1 && 0 <= pair % v1 < v1
    ensures Estimate(BASE, pair * BASE + d0, TwoDigits(v1, v2)) <= pair / v1
  {
    DivMod(pair, v1);
    FirstTrial(BASE, pair, d0, v1, v2);
  }

  /** A trial that the test rejects is too large, and the next one is a trial again. */
  lemma TrialCorrected(pair: u64, d0: u32, v1: u32, v2: u32, q: int, rhat: u32)
    requires v1 >= HALF && pair == q * v1 + rhat && (q >= BASE || q * v2 > rhat * BASE + d0)
    requires Estimate(BASE, pair * BASE + d0, TwoDigits(v1, v2)) <= q
    ensures pair == (q - 1) * v1 + (rhat + v1)
    ensures 0 <= Estimate(BASE, pair * BASE + d0, TwoDigits(v1, v2)) <= q - 1
  {
    Residual(BASE, pair, d0, v1, v2, q, rhat);
    EstimateFits(BASE, pair * BASE + d0, TwoDigits(v1, v2));
    if q < BASE {
      TooLarge(pair * BASE + d0, TwoDigits(v1, v2), q);
    }
    Distribute(q, 1, v1);
  }

  /** A trial that passes the test, or whose remainder has outgrown a digit, is the estimate. */
  lemma TrialSettled(pair: u64, d0: u32, v1: u32, v2: u32, q: int, rhat: int)
    requires v1 >= HALF && pair <= TwoDigits(v1, v2) && pair == q * v1 + rhat && 0 <= rhat
    requires rhat >= BASE || (q < BASE && q * v2 <= rhat * BASE + d0)
    requires 0 <= Estimate(BASE, pair * BASE + d0, TwoDigits(v1, v2)) <= q
    ensures q == Estimate(BASE, pair * BASE + d0, TwoDigits(v1, v2)) < BASE
  {
    if rhat >= BASE {
      RemainderOverflow(BASE, pair, d0, v1, v2, q, rhat);
    }
    Residual(BASE, pair, d0, v1, v2, q, rhat);
    Fitting(pair * BASE + d0, TwoDigits(v1, v2), q);
  }

  /**
    The trial quotient of one step. The loop corrects it at most twice and ends on the quotient
    of the leading digits, capped at BASE - 1.
   */
  method EstimateDigit(d2: u32, d1: u32, d0: u32, v1: u32, v2: u32) returns (qhat: u32, corrections: nat)
    requires v1 >= HALF
    requires TwoDigits(d2, d1) <= TwoDigits(v1, v2)
    ensures qhat == Estimate(BASE, ThreeDigits(d2, d1, d0), TwoDigits(v1, v2))
    ensures corrections <= 2
  {
    hide Estimate;
    var twoDigits := JoinDigits(d2, d1);
    TrialStarts(twoDigits, d0, v1, v2);
    EstimateFits(BASE, twoDigits * BASE + d0, TwoDigits(v1, v2));
    var q: u64 := twoDigits / v1;
    var rhat: u64 := twoDigits % v1;
    corrections := 0;
    while q >= BASE || DigitProduct(q, v2) > JoinDigits(rhat, d0)
      invariant twoDigits == q * v1 + rhat
      invariant 0 <= Estimate(BASE, twoDigits * BASE + d0, TwoDigits(v1, v2)) <= q
      invariant rhat < BASE && rhat >= corrections * HALF
      invariant corrections <= 1
      decreases 2 - corrections
    {
      TrialCorrected(twoDigits, d0, v1, v2, q, rhat);
      q := q - 1;
      rhat := rhat + v1;
      corrections := corrections + 1;
      if rhat >= BASE {
        break;
      }
    }
    TrialSettled(twoDigits, d0, v1, v2, q, rhat);
    qhat := q;
  }

  // ---- multiply and subtract ----

  /** How the low i digits of the window stand after subtracting qhat times i divisor digits, with borrow k. */
  ghost predicate Subtracted(w: seq<int>, w0: seq<int>, v: seq<int>, qhat: int, i: nat, k: int)
    requires i <= |w| && i <= |w0| && i <= |v|
  {
    Value(w[..i]) - k * Power(i) == Value(w0[..i]) - qhat * Value(v[..i])
  }

  lemma SubtractStep(w: seq<int>, w': seq<int>, w0: seq<int>, v: seq<int>, qhat: int, i: nat, k: int, k': int)
    requires i < |w| == |w0| == |w'| && i < |v|
    requires Subtracted(w, w0, v, qhat, i, k)
    requires w' == w[i := w'[i]]
    requires w'[i] - BASE * k' == w0[i] - k - qhat * v[i]
    ensures Subtracted(w', w0, v, qhat, i + 1, k')
  {
    hide Value, Power;
    var p := Power(i);
    assert w'[..i] == w[..i];
    PowerStep(i);
    ValueExtend(w', i);
    ValueExtend(w0, i);
    ValueExtend(v, i);
    Distribute(w'[i], BASE * k', p);
    Associate(k', BASE, p);
    Distribute(w0[i] - k, qhat * v[i], p);
    Distribute(w0[i], k, p);
    Distribute(Value(v[..i]), v[i] * p, qhat);
    Associate(qhat, v[i], p);
  }

  lemma BorrowBoundLinear(x: u32, k: u32, prod: int)
    requires 0 <= prod <= (BASE - 1) * (BASE - 1)
    ensures var t := x - k - prod % BASE;
            -2 * BASE < t < BASE && 0 <= prod / BASE - t / BASE < BASE
    ensures var t := x - k - prod % BASE;
            t % BASE - BASE * (prod / BASE - t / BASE) == x - k - prod
  {
  }

  /** The borrow stays below the base. */
  lemma BorrowBound(x: u32, k: u32, q: u32, y: u32)
    ensures 0 <= q * y <= (BASE - 1) * (BASE - 1)
    ensures var prod := q * y; var t := x - k - prod % BASE;
            -2 * BASE < t < BASE && 0 <= prod / BASE - t / BASE < BASE
    ensures var prod := q * y; var t := x - k - prod % BASE;
            t % BASE - BASE * (prod / BASE - t / BASE) == x - k - prod
  {
    MulMono(q, y, BASE - 1, BASE - 1);
    var prod := q * y;
    BorrowBoundLinear(x, k, prod);
  }

  /**
    Subtracts qhat * v from the window of n + 1 digits at j. The result t is the signed top digit:
    the window now holds the difference, with BASE^(n+1) added when t is negative.
   */
  method SubtractProduct(u: array<u32>, j: nat, v: array<u32>, n: nat, qhat: u32) returns (t: i64)
    requires j + n < u.Length && n <= v.Length && u != v
    modifies u
    ensures -BASE < t < BASE && u[j + n] == t % BASE
    ensures Window(u[..], j, n) + t * Power(n) == old(Window(u[..], j, n + 1)) - qhat * Value(v[..n])
    ensures forall i :: 0 <= i < j || j + n < i < u.Length ==> u[i] == old(u[i])
  {
    ghost var w0 := u[j..];
    var k: u32 := 0;
    for i := 0 to n
      invariant forall h :: 0 <= h < j || j + i <= h < u.Length ==> u[h] == old(u[h])
      invariant Subtracted(u[j..], w0, v[..], qhat, i, k)
    {
      ghost var w, borrow := u[j..], k;
      BorrowBound(u[i + j], k, qhat, v[i]);
      var prod: u64 := qhat * v[i];
      t := u[i + j] - k - prod % BASE;
      u[i + j] := t % BASE;
      k := prod / BASE - t / BASE;
      assert u[j..] == w[i := u[i + j]];
      SubtractStep(w, u[j..], w0, v[..], qhat, i, borrow, k);
    }
    t := u[j + n] - k;
    u[j + n] := t % BASE;
    ValueExtend(w0, n);
    assert w0[..n + 1] == old(u[..])[j..j + n + 1] && u[..][j..j + n] == u[j..][..n] && v[..][..n] == v[..n];
    Distribute(w0[n], k, Power(n));
  }

  // ---- add back ----

  ghost predicate Added(w: seq<int>, w0: seq<int>, v: seq<int>, i: nat, k: int)
    requires i <= |w| && i <= |w0| && i <= |v|
  {
    Value(w[..i]) + k * Power(i) == Value(w0[..i]) + Value(v[..i])
  }

  lemma AddStep(w: seq<int>, w': seq<int>, w0: seq<int>, v: seq<int>, i: nat, k: int, k': int)
    requires i < |w| == |w0| == |w'| && i < |v|
    requires Added(w, w0, v, i, k)
    requires w' == w[i := w'[i]]
    requires w'[i] + BASE * k' == w0[i] + k + v[i]
    ensures Added(w', w0, v, i + 1, k')
  {
    hide Value, Power;
    var p := Power(i);
    assert w'[..i] == w[..i];
    PowerStep(i);
    ValueExtend(w', i);
    ValueExtend(w0, i);
    ValueExtend(v, i);
    Distribute(w'[i], BASE * k', p);
    Associate(k', BASE, p);
    Distribute(w0[i] + k, v[i], p);
    Distribute(w0[i], k, p);
  }

  /** Adds v to the low n digits of the window at j; the carry goes into the top digit, which may wrap. */
  method AddBack(u: array<u32>, j: nat, v: array<u32>, n: nat) returns (carry: u32)
    requires j + n < u.Length && n <= v.Length && u != v
    modifies u
    ensures carry <= 1 && u[j + n] == (old(u[j + n]) + carry) % BASE
    ensures Window(u[..], j, n) + carry * Power(n) == old(Window(u[..], j, n)) + Value(v[..n])
    ensures forall i :: 0 <= i < j || j + n < i < u.Length ==> u[i] == old(u[i])
  {
    ghost var w0 := u[j..];
    carry := 0;
    for i := 0 to n
      invariant carry <= 1
      invariant forall h :: 0 <= h < j || j + i <= h < u.Length ==> u[h] == old(u[h])
      invariant Added(u[j..], w0, v[..], i, carry)
    {
      ghost var w, k := u[j..], carry;
      var t: i64 := u[i + j] + carry + v[i];
      u[i + j] := t % BASE;
      carry := t / BASE;
      assert u[j..] == w[i := u[i + j]];
      AddStep(w, u[j..], w0, v[..], i, k, carry);
    }
    u[j + n] := (u[j + n] + carry) % BASE;
    assert w0[..n] == old(u[..])[j..j + n] && u[..][j..j + n] == u[j..][..n] && v[..][..n] == v[..n];
  }

  // ---- one quotient digit, and the whole division ----

  predicate Normalized(v: seq<int>)
  {
    |v| >= 2 && IsDigits(v) && v[|v| - 1] >= HALF
  }

  lemma NormalizedPositive(v: seq<int>)
    requires Normalized(v)
    ensures 0 < Value(v) < Power(|v|)
  {
    LeadingPair(v);
    MulMono(1, 1, TwoDigits(v[|v| - 1], v[|v| - 2]), Power(|v| - 2));
    ValueBound(v);
  }

  lemma WindowBelow(w: seq<int>, v: seq<int>)
    requires Normalized(v) && IsDigits(w) && |w| == |v| + 1
    requires Value(w[1..]) < Value(v)
    ensures Value(w) < BASE * Value(v)
    ensures 2 * TwoDigits(v[|v| - 1], v[|v| - 2]) >= BASE * BASE
    ensures ThreeDigits(w[|v|], w[|v| - 1], w[|v| - 2]) >= 0
  {
  }

  /** The estimate taken from the leading digits of window w against v is the true digit or one more. */
  lemma WindowEstimate(w: seq<int>, v: seq<int>)
    requires Normalized(v) && IsDigits(w) && |w| == |v| + 1
    requires Value(w[1..]) < Value(v)
    ensures 0 < Value(v)
    ensures TwoDigits(w[|v|], w[|v| - 1]) <= TwoDigits(v[|v| - 1], v[|v| - 2])
    ensures var q := Estimate(BASE, ThreeDigits(w[|v|], w[|v| - 1], w[|v| - 2]), TwoDigits(v[|v| - 1], v[|v| - 2]));
            Value(w) / Value(v) <= q <= Value(w) / Value(v) + 1
  {
    hide Value, Power, Estimate, ThreeDigits, TwoDigits;
    var n := |v|;
    WindowBelow(w, v);
    LeadingTriple(w);
    LeadingPair(v);
    LeadingPairsOrdered(w[1..], v);
    EstimateError(BASE, Power(n - 2), ThreeDigits(w[n], w[n - 1], w[n - 2]), TwoDigits(v[n - 1], v[n - 2]),
                  Value(w), Value(v));
  }

  /** A subtraction of qhat * v that leaves low + t * p was one too many exactly when t is negative. */
  lemma SignTells(w: int, v: int, p: int, qhat: int, low: int, t: int)
    requires 0 <= w && 0 < v < p && 0 <= low < p
    requires w / v <= qhat <= w / v + 1
    requires low + t * p == w - qhat * v
    ensures t < 0 <==> qhat == w / v + 1
    ensures t >= 0 ==> t == 0 && low == w % v
    ensures t < 0 ==> low + t * p + v == w % v
  {
    DivMod(w, v);
    Distribute(w / v, 1, v);
    if t >= 1 {
      MulLe(1, t, p);
    } else if t < 0 {
      MulLe(t, -1, p);
    }
  }

  lemma CarryCancels(low: int, t: int, carry: int, p: int, r: int)
    requires 0 <= r < p && 0 <= low < p
    requires low + (carry + t) * p == r
    ensures carry + t == 0 && low == r
  {
    if carry + t >= 1 {
      MulLe(1, carry + t, p);
    } else if carry + t <= -1 {
      MulLe(carry + t, -1, p);
    }
  }

  /** Settles the digit once the sign of the subtraction is known: a negative one means qhat was one too large. */
  method CorrectDigit(u: array<u32>, j: nat, v: array<u32>, n: nat, qhat: u32, t: i64, ghost dividend: int)
    returns (digit: u32)
    requires j + n < u.Length && n <= v.Length && u != v && 0 <= dividend
    requires 0 < Value(v[..n]) < Power(n)
    requires dividend / Value(v[..n]) <= qhat <= dividend / Value(v[..n]) + 1
    requires Window(u[..], j, n) + t * Power(n) == dividend - qhat * Value(v[..n])
    requires u[j + n] == t % BASE
    modifies u
    ensures digit == dividend / Value(v[..n]) == if t < 0 then qhat - 1 else qhat
    ensures Window(u[..], j, n) == dividend % Value(v[..n]) && u[j + n] == 0
    ensures forall i :: 0 <= i < j || j + n < i < u.Length ==> u[i] == old(u[i])
  {
    hide Value, Power;
    ghost var divisor, low := v[..n], Window(u[..], j, n);
    ValueBound(u[..][j..j + n]);
    SignTells(dividend, Value(divisor), Power(n), qhat, low, t);
    DivMod(dividend, Value(divisor));
    digit := qhat;
    if t < 0 {
      digit := digit - 1;
      var carry := AddBack(u, j, v, n);
      ValueBound(u[..][j..j + n]);
      Distribute(carry, t, Power(n));
      CarryCancels(Window(u[..], j, n), t, carry, Power(n), dividend % Value(divisor));
    }
    assert v[..n] == divisor;
  }

  /** Replaces the window of n + 1 digits at j by its remainder modulo v and returns the quotient digit. */
  method DivideStep(u: array<u32>, j: nat, v: array<u32>, n: nat) returns (digit: u32)
    requires 2 <= n <= v.Length && j + n < u.Length && u != v
    requires Normalized(v[..n]) && Window(u[..], j + 1, n) < Value(v[..n])
    modifies u
    ensures old(Window(u[..], j, n + 1)) == digit * Value(v[..n]) + Window(u[..], j, n)
    ensures Window(u[..], j, n) < Value(v[..n]) && u[j + n] == 0
    ensures forall i :: 0 <= i < j || j + n < i < u.Length ==> u[i] == old(u[i])
  {
    hide Value, Power, Estimate;
    ghost var w, divisor := u[..][j..j + n + 1], v[..n];
    assert w[1..] == u[..][j + 1..j + 1 + n];
    WindowEstimate(w, divisor);
    NormalizedPositive(divisor);
    ValueBound(w);
    var qhat, _ := EstimateDigit(u[j + n], u[j + n - 1], u[j + n - 2], v[n - 1], v[n - 2]);
    var t := SubtractProduct(u, j, v, n, qhat);
    assert v[..n] == divisor;
    digit := CorrectDigit(u, j, v, n, qhat, t, Value(w));
    DivMod(Value(w), Value(divisor));
    assert v[..n] == divisor;
  }

  /** The state before digit j - 1: u0 is the whole dividend, q[j..size] the quotient digits found so far. */
  ghost predicate Progress(u0: int, u: seq<int>, v: seq<int>, q: seq<int>, j: nat, size: nat)
    requires j <= size <= |q| && size + |v| <= |u|
  {
    && Window(u, j, |v|) < Value(v)
    && u0 == Window(u, 0, j + |v|) + Power(j) * (Value(v) * Window(q, j, size - j))
    && (j < size ==> forall i :: j + |v| <= i < size + |v| ==> u[i] == 0)
  }

  lemma ZerosAbove(u: seq<int>, u': seq<int>, j: nat, n: nat, size: nat)
    requires j < size && size + n <= |u| == |u'|
    requires forall i :: j + n < i < |u| ==> u'[i] == u[i]
    requires u'[j + n] == 0
    requires j + 1 < size ==> forall i :: j + 1 + n <= i < size + n ==> u[i] == 0
    ensures forall i :: j + n <= i < size + n ==> u'[i] == 0
  {
    forall i | j + n <= i < size + n
      ensures u'[i] == 0
    {
      if i > j + n { assert u'[i] == u[i]; }
    }
  }

  lemma QuotientExtends(q: seq<int>, q': seq<int>, j: nat, size: nat)
    requires j < size <= |q| && |q'| == |q| && q' == q[j := q'[j]]
    ensures Window(q', j, size - j) == q'[j] + BASE * Window(q, j + 1, size - (j + 1))
  {
    WindowLowest(q', j, size - j - 1);
    assert q'[j + 1..size] == q[j + 1..size];
  }

  lemma GrowArithmetic(u0: int, low: int, p: int, p': int, d: int, w: int, digit: int, rest: int, q: int, r: int)
    requires w == digit * d + r && p' == BASE * p && q == digit + BASE * rest
    requires u0 == low + p * w + p' * (d * rest)
    ensures u0 == low + p * r + p * (d * q)
  {
    Distribute(digit * d, r, p);
    Distribute(digit, BASE * rest, d);
    Associate(BASE, rest, d);
    Distribute(d * digit, BASE * (d * rest), p);
    Associate(BASE, p, d * rest);
  }

  /** Moving the window down one digit keeps the dividend accounted for. */
  lemma ProgressStep(u0: int, u: seq<int>, u': seq<int>, v: seq<int>, q: seq<int>, q': seq<int>, j: nat, size: nat)
    requires j < size <= |q| == |q'| && size + |v| <= |u| == |u'|
    requires Progress(u0, u, v, q, j + 1, size)
    requires forall i :: 0 <= i < j || j + |v| < i < |u| ==> u'[i] == u[i]
    requires Window(u, j, |v| + 1) == q'[j] * Value(v) + Window(u', j, |v|)
    requires Window(u', j, |v|) < Value(v) && u'[j + |v|] == 0
    requires q' == q[j := q'[j]]
    ensures Progress(u0, u', v, q', j, size)
  {
    hide Value, Window, Power;
    var n, d := |v|, Value(v);
    ZerosAbove(u, u', j, n, size);
    QuotientExtends(q, q', j, size);
    PowerStep(j);
    var rest, quotient := Window(q, j + 1, size - (j + 1)), Window(q', j, size - j);
    WindowSplit(u, j, n + 1, j + 1 + n);
    assert u'[..j] == u[..j];
    WindowSplit(u', j, n, j + n);
    GrowArithmetic(u0, Value(u[..j]), Power(j), Power(j + 1), d, Window(u, j, n + 1), q'[j],
                   rest, quotient, Window(u', j, n));
  }

  lemma ProgressStarts(u: seq<int>, v: seq<int>, q: seq<int>, size: nat)
    requires size <= |q| && size + |v| <= |u|
    requires Window(u, size, |v|) < Value(v)
    ensures Progress(Window(u, 0, size + |v|), u, v, q, size, size)
  {
    assert Window(q, size, 0) == 0;
  }

  lemma ProgressEnds(u0: int, u: seq<int>, v: seq<int>, q: seq<int>, size: nat)
    requires size <= |q| && size + |v| <= |u| && IsDigits(u)
    requires Progress(u0, u, v, q, 0, size)
    ensures u0 == Window(u, 0, |v|) + Window(q, 0, size) * Value(v)
    ensures 0 <= Window(u, 0, |v|) < Value(v)
  {
    hide Value, Window;
    WindowBound(u, 0, |v|);
    Associate(Power(0), Value(v), Window(q, 0, size));
    assert Power(0) * (Value(v) * Window(q, 0, size)) == Value(v) * Window(q, 0, size);
  }

  /**
    Algorithm D: divides the uSize digits of u by the vSize digits of v. Afterwards q holds the
    quotient and the low digits of u the remainder.
   */
  method Divide(u: array<u32>, uSize: nat, v: array<u32>, vSize: nat, q: array<u32>)
    requires 2 <= vSize < uSize <= u.Length && vSize <= v.Length && uSize - vSize <= q.Length
    requires u != v && u != q && v != q
    requires Normalized(v[..vSize])
    requires Window(u[..], uSize - vSize, vSize) < Value(v[..vSize])
    modifies u, q
    ensures old(Window(u[..], 0, uSize))
            == Window(u[..], 0, vSize) + Window(q[..], 0, uSize - vSize) * Value(v[..vSize])
    ensures 0 <= Window(u[..], 0, vSize) < Value(v[..vSize])
    ensures forall i :: vSize <= i < uSize ==> u[i] == 0
    ensures forall i :: uSize <= i < u.Length ==> u[i] == old(u[i])
    ensures forall i :: uSize - vSize <= i < q.Length ==> q[i] == old(q[i])
  {
    hide Value, Power, Window;
    var n, size := vSize, uSize - vSize;
    ghost var divisor := v[..n];
    ghost var u0 := Window(u[..], 0, uSize);
    NormalizedPositive(divisor);
    ProgressStarts(u[..], divisor, q[..], size);
    for j := size downto 0
      invariant v[..n] == divisor
      invariant Progress(u0, u[..], divisor, q[..], j, size)
      invariant forall i :: uSize <= i < u.Length ==> u[i] == old(u[i])
      invariant forall i :: size <= i < q.Length ==> q[i] == old(q[i])
    {
      ghost var before, quotient := u[..], q[..];
      var digit := DivideStep(u, j, v, n);
      q[j] := digit;
      ProgressStep(u0, before, u[..], divisor, quotient, q[..], j, size);
    }
    ProgressEnds(u0, u[..], divisor, q[..], size);
  }
}
