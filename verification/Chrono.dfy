/** Durations over rational periods: the common type, casts, floor, ceil, round, and the steady clock. */
module Chrono {
  import opened Arith
  import opened Ratios

  const INT64_MAX: int := 0x7FFF_FFFF_FFFF_FFFF

  /** Overflow stands for a signed overflow, which the code must not run into. */
  datatype Checked<+T> = Overflow | Value(value: T)
  {
    predicate IsFailure() { Overflow? }

    function PropagateFailure<U>(): Checked<U>
      requires Overflow?
    {
      Overflow
    }

    function Extract(): T
      requires Value?
    {
      value
    }
  }

  predicate Fits(x: int) { -INT64_MAX - 1 <= x <= INT64_MAX }

  function Int64(x: int): Checked<int> { if Fits(x) then Value(x) else Overflow }

  /** C++ division, toward zero. */
  function Quotient(n: int, d: int): int
    requires d > 0
  {
    if n >= 0 then n / d else -(-n / d)
  }

  lemma QuotientBounds(n: int, d: int)
    requires d > 0
    ensures n >= 0 ==> Quotient(n, d) * d <= n < (Quotient(n, d) + 1) * d
    ensures n < 0 ==> (Quotient(n, d) - 1) * d < n <= Quotient(n, d) * d
  {
    var m := if n >= 0 then n else -n;
    DivMod(m, d);
    Distribute(m / d, 1, d);
    Distribute(-(m / d), 1, d);
  }

  // ---- comparing durations ----

  lemma CrossOrder(r: Ratio, n: int, d: int, c: int, t: int)
    requires Represents(r, n, d) && n > 0 && d > 0
    ensures c * r.num <= t * r.den <==> c * n <= t * d
  {
    // both sides times d and times r.den
    Associate(c, r.num, d);
    Associate(c, n, r.den);
    Associate(t, r.den, d);
    assert (c * r.num) * d == (c * n) * r.den;
    assert (t * r.den) * d == (t * d) * r.den;
    if c * r.num <= t * r.den {
      MulLe(c * r.num, t * r.den, d);
      if c * n > t * d { MulLt(t * d, c * n, r.den); }
    } else {
      MulLt(t * r.den, c * r.num, d);
      if c * n <= t * d { MulLe(c * n, t * d, r.den); }
    }
  }

  /** A representation of p / q orders multiples the same way. */
  lemma SameOrder(r: Ratio, n: int, d: int, c: int, t: int)
    requires Represents(r, n, d) && n > 0 && d > 0
    ensures c * r.num <= t * r.den <==> c * n <= t * d
    ensures c * r.num >= t * r.den <==> c * n >= t * d
  {
    CrossOrder(r, n, d, c, t);
    CrossOrder(Ratio(r.den, r.num), d, n, t, c);
  }

  // ---- casts ----

  /** duration_cast by the four branches of the conversion factor, in 64-bit arithmetic. */
  function Cast(count: int, p: Ratio, to: Ratio): Checked<int>
    requires Positive(p) && Positive(to)
  {
    var cf := Divide(p, to);
    if cf.den == 1 then
      if cf.num == 1 then Value(count) else Int64(count * cf.num)
    else
      if cf.num == 1 then Value(Quotient(count, cf.den))
      else
        var product :- Int64(count * cf.num);
        Value(Quotient(product, cf.den))
  }

  /** A cast truncates the exact value. */
  lemma CastTruncates(count: int, p: Ratio, to: Ratio)
    requires Positive(p) && Positive(to) && Cast(count, p, to).Value?
    ensures var cf := Divide(p, to);
            Cast(count, p, to) == Value(Quotient(count * cf.num, cf.den))
  {
    var cf := Divide(p, to);
    if cf.den == 1 {
      var n := count * cf.num;
      var m := if n >= 0 then n else -n;
      DivModUnique(m, 1, m, 0);
    }
  }

  /** Both counts in the common type, as every comparison and difference computes them. */
  function InCommon(count: int, p: Ratio, t: int, q: Ratio): Checked<(int, int)>
    requires Positive(p) && Positive(q)
  {
    var x :- Cast(count, p, CommonPeriod(p, q));
    var y :- Cast(t, q, CommonPeriod(p, q));
    Value((x, y))
  }

  lemma QuotientByOne(n: int)
    ensures Quotient(n, 1) == n
  {
    DivModUnique(if n >= 0 then n else -n, 1, if n >= 0 then n else -n, 0);
  }

  /** Converting to the common type is exact: the counts are whole multiples with the ratio of the periods. */
  lemma CommonIsExact(count: int, p: Ratio, t: int, q: Ratio) returns (mp: int, mq: int)
    requires Positive(p) && Positive(q) && InCommon(count, p, t, q).Value?
    ensures mp > 0 && mq > 0 && mp * (q.num * p.den) == mq * (p.num * q.den)
    ensures InCommon(count, p, t, q) == Value((count * mp, t * mq))
    ensures Divide(p, CommonPeriod(p, q)) == Ratio(mp, 1) && Divide(q, CommonPeriod(p, q)) == Ratio(mq, 1)
  {
    mp, mq := WholeCommonUnits(p, q);
    CastTruncates(count, p, CommonPeriod(p, q));
    CastTruncates(t, q, CommonPeriod(p, q));
    QuotientByOne(count * mp);
    QuotientByOne(t * mq);
  }

  /** The size of one unit of p, where one unit of q has size UnitsOf(q, p). */
  function UnitsOf(p: Ratio, q: Ratio): (n: int)
    ensures Positive(p) && Positive(q) ==> n > 0
  {
    assert Positive(p) && Positive(q) ==> p.num * q.den > 0 by {
      if Positive(p) && Positive(q) { MulMono(1, 1, p.num, q.den); }
    }
    p.num * q.den
  }

  /** Counts in the common type are ordered as the exact durations are. */
  lemma CommonOrder(count: int, p: Ratio, t: int, to: Ratio, mp: int, mq: int)
    requires Positive(p) && Positive(to) && mp > 0 && mq > 0
    requires mp * UnitsOf(to, p) == mq * UnitsOf(p, to)
    ensures count * mp <= t * mq <==> count * UnitsOf(p, to) <= t * UnitsOf(to, p)
    ensures count * mp >= t * mq <==> count * UnitsOf(p, to) >= t * UnitsOf(to, p)
  {
    MulMono(1, 1, p.num, to.den);
    MulMono(1, 1, to.num, p.den);
    SameOrder(Ratio(mp, mq), UnitsOf(p, to), UnitsOf(to, p), count, t);
  }

  /** Truncation is the floor of a nonnegative value and the ceiling of a negative one. */
  lemma CastBounds(count: int, p: Ratio, to: Ratio)
    requires Positive(p) && Positive(to) && Cast(count, p, to).Value?
    ensures var t, a, b := Cast(count, p, to).value, UnitsOf(p, to), UnitsOf(to, p);
            && a > 0 && b > 0
            && (count >= 0 ==> t * b <= count * a < (t + 1) * b)
            && (count < 0 ==> (t - 1) * b < count * a <= t * b)
  {
    var r, a, b, t := Divide(p, to), UnitsOf(p, to), UnitsOf(to, p), Cast(count, p, to).value;
    MulMono(1, 1, p.num, to.den);
    MulMono(1, 1, to.num, p.den);
    CastTruncates(count, p, to);
    QuotientBounds(count * r.num, r.den);
    if count >= 0 { MulMono(0, 0, count, r.num); } else { MulLe(count, -1, r.num); }
    SameOrder(r, a, b, count, t);
    SameOrder(r, a, b, count, t + 1);
    SameOrder(r, a, b, count, t - 1);
  }

  // ---- floor, ceil and round ----

  function Floor(count: int, p: Ratio, to: Ratio): Checked<int>
    requires Positive(p) && Positive(to)
  {
    var casted :- Cast(count, p, to);
    var both :- InCommon(count, p, casted, to);
    if both.1 > both.0 then Int64(casted - 1) else Value(casted)
  }

  function Ceil(count: int, p: Ratio, to: Ratio): Checked<int>
    requires Positive(p) && Positive(to)
  {
    var casted :- Cast(count, p, to);
    var both :- InCommon(casted, to, count, p);
    if both.0 < both.1 then Int64(casted + 1) else Value(casted)
  }

  function Round(count: int, p: Ratio, to: Ratio): Checked<int>
    requires Positive(p) && Positive(to)
  {
    var floored :- Floor(count, p, to);
    var ceiled :- Int64(floored + 1);
    var below :- InCommon(count, p, floored, to);
    var above :- InCommon(ceiled, to, count, p);
    var floorAdjustment :- Int64(below.0 - below.1);
    var ceilAdjustment :- Int64(above.0 - above.1);
    if floorAdjustment < ceilAdjustment || (floorAdjustment == ceilAdjustment && floored % 2 == 0) then Value(floored)
    else Value(ceiled)
  }

  lemma BetweenMultiples(x: int, b: int, v: int)
    requires b > 0 && v * b <= x < (v + 1) * b
    ensures forall t: int :: t * b <= x <==> t <= v
  {
    forall t: int
      ensures t * b <= x <==> t <= v
    {
      if t <= v { MulLe(t, v, b); } else { MulLe(v + 1, t, b); }
    }
  }

  lemma FloorBounds(count: int, p: Ratio, to: Ratio)
    requires Positive(p) && Positive(to) && Floor(count, p, to).Value?
    ensures var v := Floor(count, p, to).value;
            UnitsOf(to, p) > 0 && v * UnitsOf(to, p) <= count * UnitsOf(p, to) < (v + 1) * UnitsOf(to, p)
  {
    var t := Cast(count, p, to).value;
    CastBounds(count, p, to);
    var mp, mq := CommonIsExact(count, p, t, to);
    CommonOrder(count, p, t, to, mp, mq);
    if count < 0 && t * UnitsOf(to, p) == count * UnitsOf(p, to) {
      Distribute(t, 1, UnitsOf(to, p));
    }
  }

  /** floor is the greatest count of the target period that is no more than the duration. */
  lemma FloorIsGreatest(count: int, p: Ratio, to: Ratio)
    requires Positive(p) && Positive(to)
    ensures Floor(count, p, to).Value? ==>
              forall t: int :: t * UnitsOf(to, p) <= count * UnitsOf(p, to) <==> t <= Floor(count, p, to).value
  {
    if Floor(count, p, to).Value? {
      FloorBounds(count, p, to);
      BetweenMultiples(count * UnitsOf(p, to), UnitsOf(to, p), Floor(count, p, to).value);
    }
  }

  lemma CeilBounds(count: int, p: Ratio, to: Ratio)
    requires Positive(p) && Positive(to) && Ceil(count, p, to).Value?
    ensures var v := Ceil(count, p, to).value;
            UnitsOf(to, p) > 0 && (v - 1) * UnitsOf(to, p) < count * UnitsOf(p, to) <= v * UnitsOf(to, p)
  {
    var t := Cast(count, p, to).value;
    CastBounds(count, p, to);
    var mq, mp := CommonIsExact(t, to, count, p);
    CommonOrder(t, to, count, p, mq, mp);
    Distribute(t, 1, UnitsOf(to, p));
  }

  /** ceil is the least count of the target period that is no less than the duration. */
  lemma CeilIsLeast(count: int, p: Ratio, to: Ratio)
    requires Positive(p) && Positive(to)
    ensures Ceil(count, p, to).Value? ==>
              forall t: int :: t * UnitsOf(to, p) >= count * UnitsOf(p, to) <==> t >= Ceil(count, p, to).value
  {
    if Ceil(count, p, to).Value? {
      var v, x, b := Ceil(count, p, to).value, count * UnitsOf(p, to), UnitsOf(to, p);
      CeilBounds(count, p, to);
      forall u: int
        ensures u * b >= x <==> u >= v
      {
        if u >= v { MulLe(v, u, b); } else { MulLe(u, v - 1, b); }
      }
    }
  }

  lemma QuotientShrinks(n: int, d: int)
    requires d > 0
    ensures n >= 0 ==> 0 <= Quotient(n, d) <= n
    ensures n < 0 ==> n <= Quotient(n, d) <= 0
  {
    DivMod(if n >= 0 then n else -n, d);
  }

  lemma CastDefined(count: int, p: Ratio, to: Ratio)
    requires Positive(p) && Positive(to) && Fits(count)
    ensures Cast(count, p, to).Value? <==> Fits(count * Divide(p, to).num)
    ensures Cast(count, p, to).Value? ==> Fits(Cast(count, p, to).value)
  {
    if Cast(count, p, to).Value? {
      var r := Divide(p, to);
      CastTruncates(count, p, to);
      QuotientShrinks(count * r.num, r.den);
    }
  }

  /** A truncated count has no larger magnitude in the common type than the duration it came from. */
  lemma TruncatedIsSmaller(count: int, p: Ratio, to: Ratio, mp: int, mq: int)
    requires Positive(p) && Positive(to) && Cast(count, p, to).Value? && mp > 0 && mq > 0
    requires mp * UnitsOf(to, p) == mq * UnitsOf(p, to)
    ensures var t := Cast(count, p, to).value;
            && (count >= 0 ==> 0 <= t * mq <= count * mp)
            && (count < 0 ==> count * mp <= t * mq <= 0)
            && (t * mq > count * mp ==> t * mq >= count * mp + 1 && count < 0)
            && (t * mq < count * mp ==> count >= 0)
  {
    var t, r := Cast(count, p, to).value, Divide(p, to);
    CastBounds(count, p, to);
    CommonOrder(count, p, t, to, mp, mq);
    CastTruncates(count, p, to);
    if count >= 0 { MulMono(0, 0, count, r.num); } else { MulLe(count, -1, r.num); }
    QuotientShrinks(count * r.num, r.den);
    if t >= 0 { MulMono(0, 0, t, mq); } else { MulLe(t, 0, mq); }
  }

  lemma MagnitudeOfFactor(t: int, m: int)
    requires m > 0
    ensures t >= 0 ==> t <= t * m
    ensures t <= 0 ==> t * m <= t
  {
    if t >= 0 { MulLe(1, m, t); } else { MulLe(1, m, -t); }
  }

  /** The factors of all conversions: by the ratio of the periods in lowest terms, and to the common type. */
  lemma ConversionFactors(p: Ratio, to: Ratio)
    requires Positive(p) && Positive(to)
    ensures var a, b := UnitsOf(p, to), UnitsOf(to, p);
            Divide(p, to) == Ratio(a / Gcd(a, b), b / Gcd(a, b))
    ensures CommonPeriod(to, p) == CommonPeriod(p, to)
    ensures var gn, gd := Gcd(p.num, to.num), Gcd(p.den, to.den);
            && Divide(p, CommonPeriod(p, to)) == Ratio((p.num / gn) * (to.den / gd), 1)
            && Divide(to, CommonPeriod(p, to)) == Ratio((to.num / gn) * (p.den / gd), 1)
  {
    ReducedUnique(Divide(p, to), UnitsOf(p, to), UnitsOf(to, p));
    CommonPeriodSymmetric(p, to);
    var _, _ := WholeCommonUnits(p, to);
  }

  /**
    floor and ceil are defined exactly when the cast and the conversion to the common type do not overflow: the
    count times the numerator of the ratio of the periods in lowest terms, and times the common units in a period.
   */
  lemma FloorAndCeilDefined(count: int, p: Ratio, to: Ratio)
    requires Positive(p) && Positive(to) && Fits(count)
    ensures var a, b := UnitsOf(p, to), UnitsOf(to, p);
            var x := count * (a / Gcd(a, b));
            var y := count * ((p.num / Gcd(p.num, to.num)) * (to.den / Gcd(p.den, to.den)));
            var fine := && -0x8000_0000_0000_0000 <= x <= 0x7FFF_FFFF_FFFF_FFFF
                        && -0x8000_0000_0000_0000 <= y <= 0x7FFF_FFFF_FFFF_FFFF;
            && (Floor(count, p, to).Value? <==> fine)
            && (Ceil(count, p, to).Value? <==> fine)
  {
    ConversionFactors(p, to);
    CastDefined(count, p, to);
    CastDefined(count, p, CommonPeriod(p, to));
    CommonPeriodSymmetric(p, to);
    if Cast(count, p, to).Value? && Cast(count, p, CommonPeriod(p, to)).Value? {
      var t := Cast(count, p, to).value;
      var mp, mq := WholeCommonUnits(p, to);
      TruncatedIsSmaller(count, p, to, mp, mq);
      CastDefined(t, to, CommonPeriod(p, to));
      var mp', mq' := CommonIsExact(count, p, t, to);
      MagnitudeOfFactor(t, mq);
    }
  }

  /** The distance of t target units from the duration. */
  function Distance(count: int, p: Ratio, to: Ratio, t: int): nat
  {
    Abs(count * UnitsOf(p, to) - t * UnitsOf(to, p))
  }

  /** Between two neighbouring multiples, the nearer one is nearest of all. */
  lemma NearestMultiple(x: int, b: int, f: int, v: int, t: int)
    requires b > 0 && f * b <= x < (f + 1) * b
    requires v == f || v == f + 1
    requires v == f ==> x - f * b <= (f + 1) * b - x
    requires v == f + 1 ==> x - f * b >= (f + 1) * b - x
    ensures Abs(x - v * b) <= Abs(x - t * b)
    ensures Abs(x - v * b) == Abs(x - t * b) && t != v ==> x - f * b == (f + 1) * b - x && (t == f || t == f + 1)
  {
    Distribute(f, 1, b);
    if t < f {
      MulLe(t + 1, f, b);
      Distribute(t, 1, b);
    } else if t > f + 1 {
      MulLe(f + 1, t - 1, b);
      Distribute(t, 1, b);
    }
  }

  lemma Doubled(c: int, f: int, m: int, b: int)
    ensures (2 * c) * m == 2 * (c * m)
    ensures (2 * f + 1) * b == f * b + (f + 1) * b
  {
    Distribute(f, f + 1, b);
  }

  /** The two adjustments in the common type compare as the exact distances to the two neighbouring counts do. */
  lemma AdjustmentsCompare(count: int, p: Ratio, f: int, to: Ratio, mp: int, mq: int)
    requires Positive(p) && Positive(to) && mp > 0 && mq > 0
    requires mp * UnitsOf(to, p) == mq * UnitsOf(p, to)
    ensures var (x, b) := (count * UnitsOf(p, to), UnitsOf(to, p));
            && (count * mp - f * mq <= (f + 1) * mq - count * mp <==> x - f * b <= (f + 1) * b - x)
            && (count * mp - f * mq >= (f + 1) * mq - count * mp <==> x - f * b >= (f + 1) * b - x)
  {
    hide UnitsOf;
    CommonOrder(2 * count, p, 2 * f + 1, to, mp, mq);
    Doubled(count, f, mp, mq);
    Doubled(count, f, UnitsOf(p, to), UnitsOf(to, p));
  }

  lemma UnitsOfMeaning(p: Ratio, q: Ratio)
    ensures UnitsOf(p, q) == p.num * q.den
  {
  }

  lemma RoundChoice(count: int, p: Ratio, to: Ratio)
    requires Positive(p) && Positive(to) && Round(count, p, to).Value?
    ensures Floor(count, p, to).Value?
    ensures var f, v := Floor(count, p, to).value, Round(count, p, to).value;
            var x, b := count * UnitsOf(p, to), UnitsOf(to, p);
            && (v == f || v == f + 1)
            && (v == f ==> x - f * b <= (f + 1) * b - x)
            && (v == f + 1 ==> x - f * b >= (f + 1) * b - x)
            && (x - f * b == (f + 1) * b - x ==> v % 2 == 0)
  {
    hide UnitsOf, Floor, CommonPeriod, Divide, Gcd, Positive;
    var f := Floor(count, p, to).value;
    var mp, mq := CommonIsExact(count, p, f, to);
    var mq', mp' := CommonIsExact(f + 1, to, count, p);
    CommonPeriodSymmetric(p, to);
    assert mp' == mp && mq' == mq;
    UnitsOfMeaning(p, to);
    UnitsOfMeaning(to, p);
    AdjustmentsCompare(count, p, f, to, mp, mq);
  }

  /** round is the nearest count of the target period; of two equally near ones it is the even one. */
  lemma RoundIsNearest(count: int, p: Ratio, to: Ratio, t: int)
    requires Positive(p) && Positive(to)
    ensures Round(count, p, to).Value? ==>
              var v := Round(count, p, to).value;
              && Distance(count, p, to, v) <= Distance(count, p, to, t)
              && (Distance(count, p, to, v) == Distance(count, p, to, t) && t != v ==> v % 2 == 0)
  {
    if Round(count, p, to).Value? {
      var f, v := Floor(count, p, to).value, Round(count, p, to).value;
      RoundChoice(count, p, to);
      FloorBounds(count, p, to);
      NearestMultiple(count * UnitsOf(p, to), UnitsOf(to, p), f, v, t);
    }
  }

  lemma FactorFits(t: int, m: int)
    requires m > 0 && Fits(t * m)
    ensures Fits(t)
  {
    MagnitudeOfFactor(t, m);
  }

  lemma FloorQuotient(x: int, b: int, f: int)
    requires b > 0 && f * b <= x < (f + 1) * b
    ensures f == x / b
  {
    Distribute(f, 1, b);
    DivModUnique(x, b, f, x - f * b);
  }

  /** Two neighbouring multiples that fit leave a factor of at most 2^63. */
  lemma FactorBound(f: int, m: int)
    requires m > 0 && Fits(f * m) && Fits((f + 1) * m)
    ensures m <= INT64_MAX + 1
  {
    if f >= 0 { MulLe(1, f + 1, m); } else { MulLe(f, -1, m); }
  }

  lemma NeighboursFit(count: int, p: Ratio, to: Ratio, f: int, mp: int, mq: int)
    requires Positive(p) && Positive(to) && Fits(count) && Floor(count, p, to) == Value(f)
    requires Divide(p, CommonPeriod(p, to)) == Ratio(mp, 1) && Divide(to, CommonPeriod(p, to)) == Ratio(mq, 1)
    requires mp > 0 && mq > 0 && mp * (to.num * p.den) == mq * (p.num * to.den)
    requires CommonPeriod(p, to) == CommonPeriod(to, p)
    requires Cast(count, p, CommonPeriod(p, to)).Value? && Cast(f, to, CommonPeriod(p, to)).Value?
    requires Fits(f * mq) && Fits((f + 1) * mq)
    ensures Round(count, p, to).Value? <==> Fits((f + 1) * mq - count * mp)
    ensures Fits(mq) ==> Fits((f + 1) * mq - count * mp)
  {
    FactorFits(f + 1, mq);
    FactorBound(f, mq);
    CastDefined(f + 1, to, CommonPeriod(p, to));
    FloorBounds(count, p, to);
    var _, _ := CommonIsExact(count, p, f, to);
    var _, _ := CommonIsExact(f + 1, to, count, p);
    CommonOrder(count, p, f, to, mp, mq);
    CommonOrder(count, p, f + 1, to, mp, mq);
    Distribute(f, 1, mq);
  }

  /** round is defined exactly when the cast, both conversions and both distances to the neighbours fit. */
  lemma RoundDefined(count: int, p: Ratio, to: Ratio)
    requires Positive(p) && Positive(to) && Fits(count)
    ensures Floor(count, p, to).Value? ==> Floor(count, p, to).value == count * UnitsOf(p, to) / UnitsOf(to, p)
    ensures var a, b := UnitsOf(p, to), UnitsOf(to, p);
            var f, gn, gd := count * a / b, Gcd(p.num, to.num), Gcd(p.den, to.den);
            var mp, mq := (p.num / gn) * (to.den / gd), (to.num / gn) * (p.den / gd);
            && (Round(count, p, to).Value? <==>
                  && Fits(count * (a / Gcd(a, b))) && Fits(count * mp)
                  && Fits(f * mq) && Fits((f + 1) * mq) && Fits((f + 1) * mq - count * mp))
            && (Fits(mq) && Floor(count, p, to).Value? && Fits(f * mq) && Fits((f + 1) * mq) ==>
                  Fits((f + 1) * mq - count * mp))
  {
    ConversionFactors(p, to);
    FloorAndCeilDefined(count, p, to);
    if Floor(count, p, to).Value? {
      var f := Floor(count, p, to).value;
      FloorBounds(count, p, to);
      FloorQuotient(count * UnitsOf(p, to), UnitsOf(to, p), f);
      var mp, mq := WholeCommonUnits(p, to);
      CommonPeriodSymmetric(p, to);
      CastDefined(count, p, to);
      CastDefined(count, p, CommonPeriod(p, to));
      CastDefined(f, to, CommonPeriod(p, to));
      if Fits(f * mq) && Fits((f + 1) * mq) {
        NeighboursFit(count, p, to, f, mp, mq);
      } else if Fits(f + 1) {
        CastDefined(f + 1, to, CommonPeriod(p, to));
      }
    }
  }

  // ---- steady_clock::now ----

  const NANO: int := 1_000_000_000
  const TEN_MHZ: int := 10_000_000
  const TWENTY_FOUR_MHZ: int := 24_000_000

  function MulChecked(a: int, b: int): Checked<int> { Int64(a * b) }

  lemma PartRatio()
    ensures Reduce(NANO % TWENTY_FOUR_MHZ, TWENTY_FOUR_MHZ) == Ratio(2, 3)
  {
    assert NANO % TWENTY_FOUR_MHZ == 16_000_000;
    assert Gcd(16_000_000, 24_000_000) == Gcd(24_000_000, 16_000_000) == Gcd(16_000_000, 8_000_000);
    assert Gcd(16_000_000, 8_000_000) == Gcd(8_000_000, 0);
  }

  /** The three branches, every product and sum checked; the 24 MHz part is reduced as a ratio is. */
  function Now(freq: int, ctr: int): Checked<int>
    requires freq > 0 && ctr >= 0
  {
    if freq == TEN_MHZ then
      MulChecked(ctr, NANO / TEN_MHZ)
    else if freq == TWENTY_FOUR_MHZ then
      var part := Reduce(NANO % TWENTY_FOUR_MHZ, TWENTY_FOUR_MHZ);
      PartRatio();
      var whole :- MulChecked(ctr, NANO / TWENTY_FOUR_MHZ);
      var scaled :- MulChecked(ctr, part.num);
      Int64(whole + scaled / part.den)
    else
      var whole :- MulChecked(ctr / freq, NANO);
      var scaled :- MulChecked(ctr % freq, NANO);
      Int64(whole + scaled / freq)
  }

  /** Splitting off whole periods first gives the same floor. */
  lemma SplitFloor(ctr: int, freq: int)
    requires ctr >= 0 && freq > 0
    ensures (ctr / freq) * NANO + (ctr % freq) * NANO / freq == ctr * NANO / freq
    ensures 0 <= (ctr % freq) * NANO <= freq * NANO
    ensures 0 <= (ctr / freq) * NANO && 0 <= (ctr % freq) * NANO / freq
  {
    DivMod(ctr, freq);
    var q, r := ctr / freq, ctr % freq;
    DivMod(r * NANO, freq);
    Associate(q, freq, NANO);
    Associate(q, NANO, freq);
    Distribute(q * NANO, r * NANO / freq, freq);
    DivModUnique(ctr * NANO, freq, q * NANO + r * NANO / freq, r * NANO % freq);
  }

  lemma TwentyFour(ctr: int)
    requires ctr >= 0
    ensures ctr * 41 + ctr * 2 / 3 == ctr * NANO / TWENTY_FOUR_MHZ
  {
    DivModUnique(ctr * NANO, TWENTY_FOUR_MHZ, ctr * 41 + ctr * 2 / 3, (ctr * 2 % 3) * 8_000_000);
  }

  /**
    Whatever branch is taken, now is the counter in nanoseconds rounded down, and nothing overflows on the way
    when that result fits and one second's worth of the frequency does.
   */
  lemma NowIsFloor(freq: int, ctr: int)
    requires freq > 0 && ctr >= 0
    ensures Now(freq, ctr).Value? ==> Now(freq, ctr).value == ctr * 1_000_000_000 / freq
    ensures Fits(ctr * 1_000_000_000 / freq) && Fits(freq * 1_000_000_000) ==> Now(freq, ctr).Value?
  {
    if freq == TEN_MHZ {
      DivModUnique(ctr * NANO, TEN_MHZ, ctr * 100, 0);
    } else if freq == TWENTY_FOUR_MHZ {
      PartRatio();
      TwentyFour(ctr);
    } else {
      SplitFloor(ctr, freq);
    }
  }

  /** Exactly when nothing overflows: the result fits and so does the part scaled before its division. */
  lemma NowDefined(freq: int, ctr: int)
    requires freq > 0 && ctr >= 0
    ensures Now(freq, ctr).Value? <==>
              && ctr * 1_000_000_000 / freq <= 0x7FFF_FFFF_FFFF_FFFF
              && (freq == 10_000_000 || freq == 24_000_000 || (ctr % freq) * 1_000_000_000 <= 0x7FFF_FFFF_FFFF_FFFF)
  {
    NowIsFloor(freq, ctr);
    if freq == TEN_MHZ {
      DivModUnique(ctr * NANO, TEN_MHZ, ctr * 100, 0);
    } else if freq == TWENTY_FOUR_MHZ {
      PartRatio();
      TwentyFour(ctr);
    } else {
      SplitFloor(ctr, freq);
    }
  }

  /** A later counter never reads earlier. */
  lemma NowIsMonotone(freq: int, earlier: int, later: int)
    requires freq > 0 && 0 <= earlier <= later
    requires Now(freq, earlier).Value? && Now(freq, later).Value?
    ensures Now(freq, earlier).value <= Now(freq, later).value
  {
    NowIsFloor(freq, earlier);
    NowIsFloor(freq, later);
    DivMod(earlier * NANO, freq);
    DivMod(later * NANO, freq);
    var a, b := earlier * NANO / freq, later * NANO / freq;
    if a > b {
      MulLe(b + 1, a, freq);
      Distribute(b, 1, freq);
    }
  }
}
