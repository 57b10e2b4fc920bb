/** Positive ratios in lowest terms, their quotients, and the period of the common type of two durations. */
module Ratios {
  import opened Arith

  // ---- greatest common divisors ----

  function Gcd(a: nat, b: nat): (g: nat)
    ensures g == 0 <==> a == 0 && b == 0
    decreases b
  {
    if b == 0 then a else Gcd(b, a % b)
  }

  function Abs(x: int): nat { if x < 0 then -x else x }

  /** The loop of _Gcd, of the absolute values and with its convention for two zeros. */
  method GcdLoop(a: int, b: int) returns (g: nat)
    ensures g == if a == 0 && b == 0 then 1 else Gcd(Abs(a), Abs(b))
  {
    if a == 0 && b == 0 {
      return 1;
    }
    var x: nat, y: nat := Abs(a), Abs(b);
    while y != 0
      invariant Gcd(x, y) == Gcd(Abs(a), Abs(b))
      decreases y
    {
      x, y := y, x % y;
    }
    g := x;
  }

  lemma {:induction false} GcdDivides(a: nat, b: nat)
    requires a > 0 || b > 0
    ensures Gcd(a, b) > 0
    ensures a == (a / Gcd(a, b)) * Gcd(a, b) && b == (b / Gcd(a, b)) * Gcd(a, b)
    decreases b
  {
    var g := Gcd(a, b);
    if b == 0 {
      DivModUnique(a, g, 1, 0);
      DivModUnique(0, g, 0, 0);
    } else {
      GcdDivides(b, a % b);
      DivMod(a, b);
      var q, x, y := a / b, b / g, (a % b) / g;
      Associate(q, x, g);
      Distribute(q * x, y, g);
      DivModUnique(a, g, q * x + y, 0);
    }
  }

  /** Every common divisor divides the greatest one. */
  lemma {:induction false} GcdIsGreatest(a: nat, b: nat, d: nat, x: nat, y: nat) returns (z: int)
    requires a == x * d && b == y * d
    ensures Gcd(a, b) == z * d
    decreases b
  {
    if b == 0 {
      z := x;
    } else {
      DivMod(a, b);
      Associate(a / b, y, d);
      Distribute(x, (a / b) * y, d);
      var r := x - (a / b) * y;
      if r < 0 { MulLe(r, -1, d); }
      z := GcdIsGreatest(b, a % b, d, y, r);
    }
  }

  lemma {:induction false} GcdSymmetric(a: nat, b: nat)
    ensures Gcd(a, b) == Gcd(b, a)
    decreases a + b
  {
    if a < b {
      DivModUnique(a, b, 0, a);
    } else if b < a {
      DivModUnique(b, a, 0, b);
    }
  }

  // ---- coprime numbers ----

  lemma RemainderScale(a: nat, b: nat, c: nat)
    requires b > 0 && c > 0
    ensures b * c > 0 && (a * c) % (b * c) == (a % b) * c
  {
    DivMod(a, b);
    MulMono(1, 1, b, c);
    Associate(a / b, b, c);
    Distribute((a / b) * b, a % b, c);
    MulMono(0, 0, a % b, c);
    MulLt(a % b, b, c);
    DivModUnique(a * c, b * c, a / b, (a % b) * c);
  }

  lemma {:induction false} GcdScale(a: nat, b: nat, c: nat)
    requires c > 0
    ensures 0 <= a * c && 0 <= b * c && Gcd(a * c, b * c) == Gcd(a, b) * c
    decreases b
  {
    MulMono(0, 0, a, c);
    MulMono(0, 0, b, c);
    if b > 0 {
      DivMod(a, b);
      RemainderScale(a, b, c);
      GcdScale(b, a % b, c);
    }
  }

  /** What divides a product and is coprime to one factor divides the other. */
  lemma CoprimeDivides(a: nat, b: nat, c: nat, z: nat) returns (y: nat)
    requires a > 0 && c > 0 && Gcd(a, b) == 1 && b * c == z * a
    ensures c == y * a
  {
    MulMono(0, 0, a, c);
    GcdScale(a, b, c);
    var k := GcdIsGreatest(a * c, b * c, a, c, z);
    if k < 0 { MulLe(k, -1, a); }
    y := k;
  }

  /** The cofactors of the greatest common divisor are coprime. */
  lemma CofactorsCoprime(a: nat, b: nat, g: nat, x: nat, y: nat)
    requires (a > 0 || b > 0) && g == Gcd(a, b) && a == x * g && b == y * g
    ensures Gcd(x, y) == 1
  {
    GcdScale(x, y, g);
    DivModUnique(g, g, 1, 0);
    DivModUnique(g, g, Gcd(x, y), 0);
  }

  // ---- ratios ----

  datatype Ratio = Ratio(num: int, den: int)

  predicate Positive(r: Ratio) { r.num > 0 && r.den > 0 }

  predicate Reduced(r: Ratio)
  {
    Positive(r) && Gcd(r.num, r.den) == 1
  }

  /** ratio<n, d> for positive arguments, in lowest terms. */
  function Reduce(n: int, d: int): Ratio
    requires n > 0 && d > 0
  {
    Ratio(n / Gcd(n, d), d / Gcd(n, d))
  }

  /** r stands for the fraction n / d. */
  predicate Represents(r: Ratio, n: int, d: int)
  {
    Positive(r) && r.num * d == r.den * n
  }

  lemma QuotientPositive(n: int, g: int)
    requires n > 0 && g > 0 && n == (n / g) * g
    ensures n / g > 0
  {
    if n / g <= 0 {
      MulLe(n / g, 0, g);
    }
  }

  lemma ReduceRepresents(n: int, d: int)
    requires n > 0 && d > 0
    ensures Represents(Reduce(n, d), n, d)
  {
    GcdDivides(n, d);
    var g := Gcd(n, d);
    QuotientPositive(n, g);
    QuotientPositive(d, g);
    Associate(n / g, d / g, g);
    Associate(d / g, n / g, g);
  }

  lemma ReduceReduces(n: int, d: int)
    requires n > 0 && d > 0
    ensures Reduced(Reduce(n, d))
  {
    ReduceRepresents(n, d);
    GcdDivides(n, d);
    CofactorsCoprime(n, d, Gcd(n, d), n / Gcd(n, d), d / Gcd(n, d));
  }

  /** Lowest terms are unique: a reduced ratio is what the fraction leaves after division by the common divisor. */
  lemma ReducedUnique(r: Ratio, n: int, d: int)
    requires Reduced(r) && n > 0 && d > 0 && Represents(r, n, d)
    ensures r.num == n / Gcd(n, d) && r.den == d / Gcd(n, d)
  {
    var y := CoprimeDivides(r.num, r.den, n, d);
    Associate(r.den, y, r.num);
    Cancel(d, r.den * y, r.num);
    GcdScale(r.num, r.den, y);
    DivModUnique(n, y, r.num, 0);
    DivModUnique(d, y, r.den, 0);
  }

  /** A fraction that is a whole number is reduced to denominator one. */
  lemma ReduceWhole(n: int, d: int, m: int)
    requires n > 0 && d > 0 && n == m * d
    ensures Reduce(n, d) == Ratio(m, 1)
  {
    DivModUnique(n, d, m, 0);
    assert Gcd(n, d) == Gcd(d, 0) == d;
    DivModUnique(d, d, 1, 0);
  }

  lemma Rearrange(a: int, x: int, b: int, y: int)
    ensures (a * x) * (b * y) == (a * b) * (x * y)
  {
    Associate(a, x, b * y);
    Associate(x, b, y);
    Associate(a, b, x * y);
  }

  lemma ProductOfMultiples(a: int, x: int, b: int, y: int)
    requires a > 0 && x > 0 && b > 0 && y > 0
    ensures (a * x) * (b * y) == (a * b) * (x * y)
    ensures a * b > 0 && x * y > 0
  {
    Rearrange(a, x, b, y);
    MulMono(1, 1, a, b);
    MulMono(1, 1, x, y);
  }

  lemma CrossCleared(p: Ratio, q: Ratio)
    requires Positive(p) && Positive(q)
    ensures var gx, gy := Gcd(p.num, q.num), Gcd(q.den, p.den);
            var n, d := (p.num / gx) * (q.den / gy), (p.den / gy) * (q.num / gx);
            && gx > 0 && gy > 0 && gx * gy > 0 && n > 0 && d > 0
            && p.num * q.den == n * (gx * gy) && p.den * q.num == d * (gx * gy)
  {
    GcdDivides(p.num, q.num);
    GcdDivides(q.den, p.den);
    var gx, gy := Gcd(p.num, q.num), Gcd(q.den, p.den);
    QuotientPositive(p.num, gx);
    QuotientPositive(q.den, gy);
    QuotientPositive(p.den, gy);
    QuotientPositive(q.num, gx);
    ProductOfMultiples(p.num / gx, gx, q.den / gy, gy);
    ProductOfMultiples(q.num / gx, gx, p.den / gy, gy);
  }

  lemma RepresentsScaled(r: Ratio, n: int, d: int, k: int, n': int, d': int)
    requires Represents(r, n, d) && n' == n * k && d' == d * k
    ensures Represents(r, n', d')
  {
    Associate(r.num, d, k);
    Associate(r.den, n, k);
  }

  /** ratio_divide: the factors are cleared crosswise before they are multiplied. */
  function Divide(p: Ratio, q: Ratio): (r: Ratio)
    requires Positive(p) && Positive(q)
    ensures Represents(r, p.num * q.den, p.den * q.num) && Gcd(r.num, r.den) == 1
  {
    CrossCleared(p, q);
    var gx, gy := Gcd(p.num, q.num), Gcd(q.den, p.den);
    var n, d := (p.num / gx) * (q.den / gy), (p.den / gy) * (q.num / gx);
    ReduceRepresents(n, d);
    ReduceReduces(n, d);
    RepresentsScaled(Reduce(n, d), n, d, gx * gy, p.num * q.den, p.den * q.num);
    Reduce(n, d)
  }

  // ---- the common type ----

  /** _Lcm: dividing before multiplying. */
  function Lcm(a: nat, b: nat): nat
    requires a > 0 && b > 0
  {
    GcdDivides(a, b);
    QuotientPositive(a, Gcd(a, b));
    MulMono(0, 0, a / Gcd(a, b), b);
    (a / Gcd(a, b)) * b
  }

  lemma LcmMultiple(a: nat, b: nat)
    requires a > 0 && b > 0
    ensures var g := Gcd(a, b);
            && Lcm(a, b) > 0 && a / g > 0 && b / g > 0
            && Lcm(a, b) == (a / g) * b == (b / g) * a
  {
    GcdDivides(a, b);
    var g := Gcd(a, b);
    QuotientPositive(a, g);
    QuotientPositive(b, g);
    Associate(a / g, b / g, g);
    Associate(b / g, a / g, g);
    MulMono(1, 1, a / g, b);
  }

  /** The period of the common type of two durations. */
  function CommonPeriod(p: Ratio, q: Ratio): (c: Ratio)
    requires Positive(p) && Positive(q)
    ensures Represents(c, Gcd(p.num, q.num), Lcm(p.den, q.den)) && Lcm(p.den, q.den) > 0
  {
    LcmMultiple(p.den, q.den);
    GcdDivides(p.num, q.num);
    ReduceRepresents(Gcd(p.num, q.num), Lcm(p.den, q.den));
    Reduce(Gcd(p.num, q.num), Lcm(p.den, q.den))
  }

  lemma WholeQuotient(p: Ratio, c: Ratio, m: int)
    requires Positive(p) && Positive(c) && m > 0
    requires p.num * c.den == m * (p.den * c.num)
    ensures Divide(p, c) == Ratio(m, 1)
  {
    CrossCleared(p, c);
    var gx, gy := Gcd(p.num, c.num), Gcd(c.den, p.den);
    var n, d := (p.num / gx) * (c.den / gy), (p.den / gy) * (c.num / gx);
    var k := gx * gy;
    Associate(m, d, k);
    Cancel(n, m * d, k);
    ReduceWhole(n, d, m);
  }

  lemma UnitsProduct(pn: int, pd: int, cn: int, cd: int, g: int, l: int, x: int, y: int)
    requires cn * l == cd * g && pn == x * g && l == y * pd
    ensures pn * cd == (x * y) * (pd * cn)
  {
    Associate(x, g, cd);
    Associate(cn, y, pd);
    Associate(x, y, pd * cn);
    Associate(y, pd, cn);
  }

  /** p is a whole number of units of a period g / l with g dividing p.num and p.den dividing l. */
  lemma WholeUnits(p: Ratio, c: Ratio, g: int, l: int, x: int, y: int)
    requires Positive(p) && Represents(c, g, l) && g > 0 && l > 0
    requires p.num == x * g && l == y * p.den && x * y > 0
    ensures Divide(p, c) == Ratio(x * y, 1)
  {
    UnitsProduct(p.num, p.den, c.num, c.den, g, l, x, y);
    WholeQuotient(p, c, x * y);
  }

  lemma UnitsRatio(x: int, y: int, g: int, a: int, b: int, gd: int)
    ensures (x * b) * ((y * g) * (a * gd)) == (y * a) * ((x * g) * (b * gd))
  {
    var k := g * gd;
    calc {
      (x * b) * ((y * g) * (a * gd));
    == { Rearrange(y, g, a, gd); }
      (x * b) * ((y * a) * k);
    == { Associate(x * b, y * a, k); }
      (y * a) * ((x * b) * k);
    == { Rearrange(x, g, b, gd); }
      (y * a) * ((x * g) * (b * gd));
    }
  }

  /** The number of common units in one unit of p, or of q. */
  lemma WholeCommonUnits(p: Ratio, q: Ratio) returns (mp: int, mq: int)
    requires Positive(p) && Positive(q)
    ensures mp > 0 && mq > 0
    ensures mp == (p.num / Gcd(p.num, q.num)) * (q.den / Gcd(p.den, q.den))
    ensures mq == (q.num / Gcd(p.num, q.num)) * (p.den / Gcd(p.den, q.den))
    ensures Divide(p, CommonPeriod(p, q)) == Ratio(mp, 1)
    ensures Divide(q, CommonPeriod(p, q)) == Ratio(mq, 1)
    ensures mp * (q.num * p.den) == mq * (p.num * q.den)
  {
    var c := CommonPeriod(p, q);
    var g, l, gd := Gcd(p.num, q.num), Lcm(p.den, q.den), Gcd(p.den, q.den);
    GcdDivides(p.num, q.num);
    LcmMultiple(p.den, q.den);
    QuotientPositive(p.num, g);
    QuotientPositive(q.num, g);
    mp := (p.num / g) * (q.den / gd);
    mq := (q.num / g) * (p.den / gd);
    MulMono(1, 1, p.num / g, q.den / gd);
    MulMono(1, 1, q.num / g, p.den / gd);
    WholeUnits(p, c, g, l, p.num / g, q.den / gd);
    WholeUnits(q, c, g, l, q.num / g, p.den / gd);
    UnitsRatio(p.num / g, q.num / g, g, p.den / gd, q.den / gd, gd) by { GcdDivides(p.den, q.den); }
    GcdDivides(p.den, q.den);
  }

  lemma CommonPeriodSymmetric(p: Ratio, q: Ratio)
    requires Positive(p) && Positive(q)
    ensures CommonPeriod(p, q) == CommonPeriod(q, p)
  {
    GcdSymmetric(p.num, q.num);
    GcdSymmetric(p.den, q.den);
    LcmMultiple(p.den, q.den);
    LcmMultiple(q.den, p.den);
  }

  lemma CommonPeriodReduced(p: Ratio, q: Ratio)
    requires Positive(p) && Positive(q)
    ensures Reduced(CommonPeriod(p, q))
  {
    LcmMultiple(p.den, q.den);
    GcdDivides(p.num, q.num);
    ReduceReduces(Gcd(p.num, q.num), Lcm(p.den, q.den));
  }

  // ---- the greatest common period ----

  /** r is the whole number m of units of d. */
  predicate WholeMultiple(r: Ratio, m: int, d: Ratio)
  {
    m > 0 && r.num * d.den == m * (d.num * r.den)
  }

  /** A reduced period divides another only if its numerator divides and its denominator is divided. */
  lemma PartsDivide(r: Ratio, m: int, d: Ratio) returns (x: nat, y: nat)
    requires Reduced(r) && Reduced(d) && WholeMultiple(r, m, d)
    ensures r.num == x * d.num && d.den == y * r.den
  {
    Associate(m, d.num, r.den);
    MulMono(0, 0, m, r.den);
    MulMono(0, 0, m, d.num);
    x := CoprimeDivides(d.num, d.den, r.num, m * r.den);
    GcdSymmetric(r.num, r.den);
    y := CoprimeDivides(r.den, r.num, d.den, m * d.num);
  }

  /** Every common multiple is a multiple of the least one. */
  lemma LcmDivides(a: nat, b: nat, x: nat, s: nat, t: nat) returns (z: nat)
    requires a > 0 && b > 0 && x > 0 && x == s * a && x == t * b
    ensures x == z * Lcm(a, b)
  {
    LcmMultiple(a, b);
    GcdDivides(a, b);
    var g := Gcd(a, b);
    var v, u := a / g, b / g;
    Associate(s, v, g);
    Associate(t, u, g);
    Cancel(s * v, t * u, g);
    CofactorsCoprime(a, b, g, v, u);
    GcdSymmetric(v, u);
    z := CoprimeDivides(u, v, s, t);
    Associate(z, u, a);
  }

  lemma PositiveFactors(a: int, b: int)
    requires a * b > 0 && b > 0
    ensures a > 0
  {
    if a <= 0 { MulLe(a, 0, b); }
  }

  lemma MultipleOfParts(c: Ratio, g: int, l: int, d: Ratio, a: int, b: int)
    requires c.num * l == c.den * g && l > 0
    requires g == a * d.num && d.den == b * l
    ensures c.num * d.den == (a * b) * (d.num * c.den)
  {
    Associate(c.num, b, l);
    Associate(b, c.num, l);
    Associate(b, c.den, a * d.num);
    Associate(c.den, a, d.num);
    Associate(a, c.den, d.num);
    Associate(a, b, d.num * c.den);
    Associate(b, a, c.den * d.num);
  }

  /** Whatever reduced period both p and q are whole multiples of, the common period is a whole multiple of it too. */
  lemma CommonPeriodIsGreatest(p: Ratio, q: Ratio, d: Ratio, m: int, n: int) returns (k: int)
    requires Reduced(p) && Reduced(q) && Reduced(d)
    requires WholeMultiple(p, m, d) && WholeMultiple(q, n, d)
    ensures WholeMultiple(CommonPeriod(p, q), k, d)
  {
    var c, g, l := CommonPeriod(p, q), Gcd(p.num, q.num), Lcm(p.den, q.den);
    var px, py := PartsDivide(p, m, d);
    var qx, qy := PartsDivide(q, n, d);
    var a := GcdIsGreatest(p.num, q.num, d.num, px, qx);
    var b := LcmDivides(p.den, q.den, d.den, py, qy);
    k := a * b;
    PositiveFactors(a, d.num);
    PositiveFactors(b, l);
    MulMono(1, 1, a, b);
    MultipleOfParts(c, g, l, d, a, b);
  }
}
