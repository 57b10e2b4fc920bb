/** 128-bit multiplication, division, remainder and ceiling division, and the signed wrappers. */
module Int128 {
  import opened Arith
  import opened Bits
  import opened Digits
  import opened MachineTypes
  import opened BitUtils
  import opened Int128Base
  import opened Int128Digits
  import opened KnuthD
  import Int128Wide

  /** Which compile-time branches are taken: 128-bit intrinsics, and among them the division. */
  datatype Target = Target(intrinsics: bool, divideIntrinsics: bool)

  // ---- multiplication ----

  lemma NestedSums(high: int, x: int, y: int)
    ensures ((high + x % BASE64) % BASE64 + y % BASE64) % BASE64 == (high + x + y) % BASE64
  {
  }

  lemma WrapSum(low: u64, high: u64, x: int, y: int, z: int)
    ensures low + BASE64 * (((high + x % BASE64) % BASE64 + y % BASE64) % BASE64)
            == (low + BASE64 * (high + x + y) + BASE128 * z) % BASE128
  {
    var h := (high + x + y) % BASE64;
    NestedSums(high, x, y);
    DivModUnique(low + BASE64 * (high + x + y) + BASE128 * z, BASE128, (high + x + y) / BASE64 + z, low + BASE64 * h);
  }

  lemma ProductOfPairs(a0: int, a1: int, b0: int, b1: int)
    ensures (a0 + BASE64 * a1) * (b0 + BASE64 * b1)
            == a0 * b0 + BASE64 * (a0 * b1 + a1 * b0) + BASE128 * (a1 * b1)
  {
    Distribute(a0, BASE64 * a1, b0 + BASE64 * b1);
    Distribute(b0, BASE64 * b1, a0);
    Distribute(b0, BASE64 * b1, a1);
    Associate(BASE64, a1, b0 + BASE64 * b1);
    Associate(a0, BASE64, b1);
    Associate(a1, BASE64, b1);
  }

  lemma WrapProduct(a0: u64, a1: u64, b0: u64, b1: u64, low: u64, high: u64)
    requires low + BASE64 * high == a0 * b0
    ensures low + BASE64 * (((high + (a0 * b1) % BASE64) % BASE64 + (a1 * b0) % BASE64) % BASE64)
            == ((a0 + BASE64 * a1) * (b0 + BASE64 * b1)) % BASE128
  {
    ProductOfPairs(a0, a1, b0, b1);
    WrapSum(low, high, a0 * b1, a1 * b0, a1 * b1);
  }

  lemma ProductWords(a: Words, b: Words, low: u64, high: u64)
    requires low + BASE64 * high == a.low * b.low
    ensures Words(low, ((high + (a.low * b.high) % BASE64) % BASE64 + (a.high * b.low) % BASE64) % BASE64).Value()
            == (a.Value() * b.Value()) % BASE128
  {
    WrapProduct(a.low, a.high, b.low, b.high, low, high);
  }

  method Multiply(left: Words, right: Words) returns (result: Words)
    ensures result.Value() == (left.Value() * right.Value()) % BASE128
  {
    var low, high := UMul128(left.low, right.low);
    ProductWords(left, right, low, high);
    high := (high + (left.low * right.high) % BASE64) % BASE64;
    high := (high + (left.high * right.low) % BASE64) % BASE64;
    result := Words(low, high);
  }

  // ---- division by one digit and by one word ----

  /** Two words divided one after the other, the first remainder carried into the second. */
  lemma LongDivision(high: u64, low: u64, den: u64, q: u64, r: int)
    requires den > 0 && (high % den) * BASE64 + low == q * den + r && 0 <= r < den
    ensures high / den <= high
    ensures Words(low, high).Value() / den == Words(q, high / den).Value()
    ensures Words(low, high).Value() % den == r
  {
    DivMod(high, den);
    var h := high / den;
    Distribute(q, BASE64 * h, den);
    Associate(BASE64, h, den);
    DivModUnique(Words(low, high).Value(), den, q + BASE64 * h, r);
  }

  method DivideByDigit(num: Words, den: u32) returns (quotient: Words, remainder: u32)
    requires den > 0
    ensures quotient.Value() == num.Value() / den && remainder == num.Value() % den
  {
    DivMod(num.high, den);
    var q1, r1 := ShortDivide(num.high % den, num.low / BASE, den);
    var q0, r0 := ShortDivide(r1, num.low % BASE, den);
    ShortDivision(num.high % den, num.low, den, q1, r1, q0, r0);
    LongDivision(num.high, num.low, den, TwoDigits(q1, q0), r0);
    quotient, remainder := Words(TwoDigits(q1, q0), num.high / den), r0;
  }

  method DivideByWord(num: Words, den: u64) returns (quotient: Words, remainder: u64)
    requires den > 0
    ensures quotient.Value() == num.Value() / den && remainder == num.Value() % den
  {
    DivMod(num.high, den);
    var low, rem := UDiv128(num.high % den, num.low, den);
    LongDivision(num.high, num.low, den, low, rem);
    quotient, remainder := Words(low, num.high / den), rem;
  }

  // ---- division by two words in base 2^32 ----

  /** The leading digit of a shifted word whose top bit is set. */
  lemma FullWord(x: u64, d: nat)
    requires d < 32 && BASE * HALF <= x * Pow2(d) < BASE64
    ensures TopDigit(x, d) == 0 && MidDigit(x, d) >= HALF
    ensures x * Pow2(d) == LowDigit(x, d) + BASE * MidDigit(x, d)
  {
    hide Pow2, LowDigit, MidDigit, TopDigit;
    ShiftedDigits(x, d);
  }

  /** The shifted high word of a divisor of three digits fits one digit. */
  lemma HalfFullWord(x: u64, d: nat)
    requires d < 32 && HALF <= x * Pow2(d) < BASE
    ensures TopDigit(x, d) == 0 && MidDigit(x, d) == 0 && LowDigit(x, d) == x * Pow2(d)
  {
    hide Pow2, LowDigit, MidDigit, TopDigit;
    ShiftedDigits(x, d);
  }

  lemma LeadingZerosWide(x: u64, zeros: nat)
    requires zeros < 32 && Pow2(63 - zeros) <= x
    ensures x >= BASE
  {
    hide Pow2;
    Pow2Mono(32, 63 - zeros);
    HalfWord();
  }

  /** The normalizing shift leaves the high word with its top bit set, in 64 or in 32 bits. */
  lemma HighWordShift(x: u64, zeros: nat)
    requires x > 0 && zeros == LeadingZeros(64, x) < 64
    ensures zeros < 32 ==> BASE * HALF <= x * Pow2(zeros) < BASE64 && x >= BASE
    ensures zeros >= 32 ==> HALF <= x * Pow2(zeros % 32) < BASE
  {
    hide Pow2, LeadingZeros;
    PowerOfWord();
    LeadingZerosRange(64, x);
    var d := zeros % 32;
    var p := Pow2(d);
    MulLe(Pow2(63 - zeros), x, p);
    MulLt(x, Pow2(64 - zeros), p);
    Pow2Add(63 - zeros, d);
    Pow2Add(64 - zeros, d);
    WordSizes();
    if zeros < 32 {
      Pow2Mono(32, 63 - zeros);
      LeadingZerosWide(x, zeros);
    }
  }

  lemma SmallPowersOfBase()
    ensures Power(1) == BASE && Power(2) == BASE64
  {
    assert Power(0) == 1;
  }

  lemma ThreeDivisorDigits(den: Words, d: nat, v: seq<int>)
    requires d < 32 && HALF <= den.high * Pow2(d) < BASE
    requires v == [LowDigit(den.low, d), MidDigit(den.low, d), JoinDigit(den.low, den.high, d), MidDigit(den.high, d)]
    ensures Normalized(v[..3]) && Value(v[..3]) == den.Value() * Pow2(d)
  {
    hide Pow2, LowDigit, MidDigit, TopDigit;
    ShiftedDigits(den.low, d);
    Distribute(den.low, BASE64 * den.high, Pow2(d));
    Associate(BASE64, den.high, Pow2(d));
    HalfFullWord(den.high, d);
    ValueOf3(v[..3]);
  }

  lemma FourDivisorDigits(den: Words, d: nat, v: seq<int>)
    requires d < 32 && BASE * HALF <= den.high * Pow2(d) < BASE64
    requires v == [LowDigit(den.low, d), MidDigit(den.low, d), JoinDigit(den.low, den.high, d), MidDigit(den.high, d)]
    ensures Normalized(v[..4]) && Value(v[..4]) == den.Value() * Pow2(d)
  {
    hide Pow2, LowDigit, MidDigit, TopDigit;
    ShiftedDigits(den.low, d);
    Distribute(den.low, BASE64 * den.high, Pow2(d));
    Associate(BASE64, den.high, Pow2(d));
    FullWord(den.high, d);
    ValueOf4(v);
    assert v[..4] == v;
  }

  /** The digits of the shifted divisor that count: three when its high word fits 32 bits, four otherwise. */
  lemma DivisorDigits(den: Words, zeros: nat, v: seq<int>)
    requires den.high > 0 && zeros == LeadingZeros(64, den.high) < 64
    requires var d := zeros % 32;
             v == [LowDigit(den.low, d), MidDigit(den.low, d), JoinDigit(den.low, den.high, d), MidDigit(den.high, d)]
    ensures var n := if zeros >= 32 then 3 else 4;
            && Normalized(v[..n]) && Value(v[..n]) == den.Value() * Pow2(zeros % 32)
            && BASE128 <= Power(5 - n) * den.Value()
  {
    hide Pow2, LowDigit, MidDigit, TopDigit, LeadingZeros;
    HighWordShift(den.high, zeros);
    SmallPowersOfBase();
    if zeros >= 32 {
      ThreeDivisorDigits(den, zeros % 32, v);
    } else {
      FourDivisorDigits(den, zeros % 32, v);
    }
  }

  /** The dividend leaves room for Algorithm D: its top digits stay below the divisor. */
  lemma DividendTop(u: seq<int>, v: int, n: nat, num: int, den: int, p: int)
    requires |u| == 5 && 3 <= n <= 4 && IsDigits(u) && p >= 1
    requires Value(u) == num * p && v == den * p && 0 <= num < Power(5 - n) * den
    ensures Window(u, 5 - n, n) < v
  {
    hide Value, Power;
    MulLt(num, Power(5 - n) * den, p);
    Associate(Power(5 - n), den, p);
    assert u[5 - n..5] == u[5 - n..];
    LeadingDigits(u, 5 - n);
    MulCancelLt(Window(u, 5 - n, n), v, Power(5 - n));
  }

  lemma DigitsResult(num: Words, den: Words, p: int, n: nat, u: seq<u32>, q: seq<u32>)
    requires den.high > 0 && p >= 1 && 3 <= n <= 4 && |u| == 5 && |q| == 2
    requires num.Value() * p == Window(u, 0, n) + Window(q, 0, 5 - n) * (den.Value() * p)
    requires 0 <= Window(u, 0, n) < den.Value() * p
    requires n == 3 ==> u[3] == 0
    requires n == 4 ==> q[1] == 0
    ensures TwoDigits(q[1], q[0]) == num.Value() / den.Value()
    ensures Words(TwoDigits(u[1], u[0]), TwoDigits(u[3], u[2])).Value() == (num.Value() % den.Value()) * p
  {
    var result, r := Window(q, 0, 5 - n), Window(u, 0, n);
    assert result == TwoDigits(q[1], q[0]) by {
      if n == 3 { ValueOf2(q[0..2]); } else { ValueSingle(q[0]); assert q[0..1] == [q[0]]; }
    }
    assert r == Words(TwoDigits(u[1], u[0]), TwoDigits(u[3], u[2])).Value() by {
      if n == 3 { ValueOf3(u[0..3]); } else { ValueOf4(u[0..4]); }
    }
    Int128Wide.ScaledDivision(num.Value(), den.Value(), p);
    DivModUnique(num.Value() * p, den.Value() * p, result, r);
  }

  /** Algorithm D on the shifted operands; the remainder comes out shifted left by d. */
  method DivideDigits(num: Words, den: Words) returns (quotient: u64, remainder: Words, d: nat)
    requires den.high > 0
    ensures d < 64 && quotient == num.Value() / den.Value()
    ensures remainder.Value() == (num.Value() % den.Value()) * Pow2(d)
  {
    hide Pow2, LeadingZeros, LowDigit, MidDigit, TopDigit, Value, Power;
    Int128Wide.WordWidth();
    var zeros := CountlZeroFallback(6, den.high);
    LeadingZerosRange(64, den.high);
    var threeWords := zeros >= 32;
    d := zeros % 32;
    var u := new u32[] [LowDigit(num.low, d), MidDigit(num.low, d), JoinDigit(num.low, num.high, d),
                        MidDigit(num.high, d), TopDigit(num.high, d)];
    var v := new u32[] [LowDigit(den.low, d), MidDigit(den.low, d), JoinDigit(den.low, den.high, d),
                        MidDigit(den.high, d)];
    var q := new u32[2];
    ghost var n := if threeWords then 3 else 4;
    ghost var divisor := v[..n];
    DivisorDigits(den, zeros, v[..]);
    assert v[..][..n] == divisor;
    ShiftedPair(num.low, num.high, d, u[..]);
    DividendTop(u[..], Value(divisor), n, num.Value(), den.Value(), Pow2(d));
    assert u[..][0..5] == u[..];
    if threeWords {
      KnuthD.Divide(u, 5, v, 3, q);
    } else {
      KnuthD.Divide(u, 5, v, 4, q);
      q[1] := 0;
    }
    assert v[..n] == divisor;
    DigitsResult(num, den, Pow2(d), n, u[..], q[..]);
    quotient := TwoDigits(q[1], q[0]);
    remainder := Words(TwoDigits(u[1], u[0]), TwoDigits(u[3], u[2]));
  }

  // ---- the three front ends ----

  /** Divisor and dividend share a nonzero high word, or the divisor's is larger: the quotient is at most one. */
  lemma SmallQuotient(num: Words, den: Words)
    requires den.Value() > 0 && den.high >= num.high
    ensures den.high > num.high ==> num.Value() / den.Value() == 0 && num.Value() % den.Value() == num.Value()
    ensures den.high == num.high > 0 ==>
              && num.Value() / den.Value() == (if num.low >= den.low then 1 else 0)
              && num.Value() % den.Value() == (if num.low >= den.low then num.low - den.low else num.Value())
  {
    if num.Value() < den.Value() {
      DivModUnique(num.Value(), den.Value(), 0, num.Value());
    } else if num.high > 0 {
      DivModUnique(num.Value(), den.Value(), 1, num.low - den.low);
    }
  }

  /** Where only the two-word division is left: both branches of the intrinsics switch. */
  method DivideTwoWords(num: Words, den: Words, target: Target) returns (quotient: u64, remainder: Words, d: nat)
    requires den.high > 0
    ensures d < 64 && quotient == num.Value() / den.Value()
    ensures remainder.Value() == (num.Value() % den.Value()) * Pow2(d)
  {
    hide Pow2;
    if target.intrinsics {
      ghost var borrow;
      quotient, remainder, d, borrow := Int128Wide.DivideWide(num, den);
    } else {
      quotient, remainder, d := DivideDigits(num, den);
    }
  }

  /** Where the divisor has one word: a 32-bit divisor is divided by digits unless the hardware can divide. */
  method DivideOneWord(num: Words, den: u64, target: Target) returns (quotient: Words, remainder: u64)
    requires den > 0
    ensures quotient.Value() == num.Value() / den && remainder == num.Value() % den
  {
    if !target.divideIntrinsics && den < BASE {
      quotient, remainder := DivideByDigit(num, den);
    } else {
      quotient, remainder := DivideByWord(num, den);
    }
  }

  method Divide(num: Words, den: Words, target: Target) returns (quotient: Words)
    requires den.Value() > 0
    ensures quotient.Value() == num.Value() / den.Value()
  {
    hide Pow2;
    if den.high >= num.high {
      SmallQuotient(num, den);
      if den.high > num.high {
        return Words(0, 0);
      }
      if num.high == 0 {
        DivMod(num.low, den.low);
        return Words(num.low / den.low, 0);
      }
      return Words(if num.low >= den.low then 1 else 0, 0);
    }
    if den.high == 0 {
      var q, _ := DivideOneWord(num, den.low, target);
      quotient := q;
    } else {
      var q, _, _ := DivideTwoWords(num, den, target);
      quotient := Words(q, 0);
    }
  }

  lemma BelowDivisor(num: Words, den: Words)
    requires num.Value() < den.Value()
    ensures num.Value() % den.Value() == num.Value()
  {
    DivModUnique(num.Value(), den.Value(), 0, num.Value());
  }

  lemma ScaledBack(r: int, p: int)
    requires p >= 1
    ensures (r * p) / p == r
  {
    DivModUnique(r * p, p, r, 0);
  }

  method Modulo(num: Words, den: Words, target: Target) returns (remainder: Words)
    requires den.Value() > 0
    ensures remainder.Value() == num.Value() % den.Value()
  {
    hide Pow2;
    if den.high >= num.high {
      SmallQuotient(num, den);
      if den.high > num.high {
        return num;
      }
      if den.low <= num.low {
        if num.high == 0 {
          DivMod(num.low, den.low);
          return Words(num.low % den.low, 0);
        }
        return Words(num.low - den.low, 0);
      }
      BelowDivisor(num, den);
      return num;
    }
    if den.high == 0 {
      var _, r := DivideOneWord(num, den.low, target);
      remainder := Words(r, 0);
    } else {
      var _, shifted, d := DivideTwoWords(num, den, target);
      var rest := new Base128(shifted);
      ScaledBack(num.Value() % den.Value(), Pow2(d));
      rest.UnsignedRightShift(d);
      remainder := rest.Copy();
    }
  }

  /** The least q with n <= q * d. */
  ghost predicate IsCeiling(q: int, n: int, d: int)
  {
    (q - 1) * d < n <= q * d
  }

  lemma CeilingIsLeast(q: int, n: int, d: int)
    requires d > 0 && IsCeiling(q, n, d)
    ensures forall t: int :: n <= t * d <==> q <= t
  {
    forall t: int
      ensures n <= t * d <==> q <= t
    {
      if q <= t { MulLe(q, t, d); } else { MulLe(t, q - 1, d); }
    }
  }

  lemma CeilingFromRemainder(n: int, d: int)
    requires 0 <= n && d > 0
    ensures 0 <= n / d && 0 <= n % d < d
    ensures IsCeiling(if n % d == 0 then n / d else n / d + 1, n, d)
    ensures n % d != 0 ==> n / d < n
  {
    DivMod(n, d);
    Distribute(n / d, 1, d);
    if n % d != 0 && n / d > 0 {
      MulLe(2, d, n / d);
    }
  }

  /** The quotient when the divisor's high word is at least the dividend's. */
  method SmallCeiling(num: Words, den: Words) returns (quotient: Words)
    requires den.Value() > 0 && den.high >= num.high
    ensures IsCeiling(quotient.Value(), num.Value(), den.Value())
  {
    hide IsCeiling;
    SmallQuotient(num, den);
    CeilingFromRemainder(num.Value(), den.Value());
    if den.high > num.high {
      return Words(if num != Words(0, 0) then 1 else 0, 0);
    }
    if num.high == 0 {
      DivMod(num.low, den.low);
      var result: u64 := num.low / den.low;
      if num.low % den.low != 0 {
        result := result + 1;
      }
      return Words(result, 0);
    }
    if num.low > den.low {
      return Words(2, 0);
    }
    return Words(1, 0);
  }

  /** The final increment; it never meets the largest value, so it never wraps. */
  method RoundUp(truncated: Words, inexact: bool) returns (quotient: Words)
    requires inexact ==> truncated.Value() < BASE128 - 1
    ensures quotient.Value() == if inexact then truncated.Value() + 1 else truncated.Value()
  {
    var result := new Base128(truncated);
    if inexact {
      result.Increment();
    }
    quotient := result.Copy();
  }

  lemma NonzeroScaled(r: int, p: int)
    requires p >= 1 && r >= 0
    ensures r * p == 0 <==> r == 0
  {
    if r > 0 {
      MulMono(1, 1, r, p);
    }
  }

  /** Ceiling division; the increment of the truncated quotient never wraps. */
  method DivCeil(num: Words, den: Words, target: Target) returns (quotient: Words)
    requires den.Value() > 0
    ensures forall t: int :: num.Value() <= t * den.Value() <==> quotient.Value() <= t
  {
    hide Pow2, IsCeiling;
    if den.high >= num.high {
      quotient := SmallCeiling(num, den);
    } else if den.high == 0 {
      var q, r := DivideOneWord(num, den.low, target);
      CeilingFromRemainder(num.Value(), den.Value());
      quotient := RoundUp(q, r != 0);
    } else {
      var q, shifted, d := DivideTwoWords(num, den, target);
      CeilingFromRemainder(num.Value(), den.Value());
      NonzeroScaled(num.Value() % den.Value(), Pow2(d));
      quotient := RoundUp(Words(q, 0), shifted != Words(0, 0));
    }
    CeilingIsLeast(quotient.Value(), num.Value(), den.Value());
  }

  // ---- signed ----

  /** C++ integer division: toward zero. */
  function TruncatedQuotient(a: int, b: int): int
    requires b != 0
  {
    var q := (if a < 0 then -a else a) / (if b < 0 then -b else b);
    if (a < 0) == (b < 0) then q else -q
  }

  /** C++ remainder: the sign of the dividend. */
  function TruncatedRemainder(a: int, b: int): int
    requires b != 0
  {
    var r := (if a < 0 then -a else a) % (if b < 0 then -b else b);
    if a < 0 then -r else r
  }

  lemma TruncatedDivision(a: int, b: int)
    requires b != 0
    ensures a == TruncatedQuotient(a, b) * b + TruncatedRemainder(a, b)
    ensures var r := TruncatedRemainder(a, b);
            && (if r < 0 then -r else r) < (if b < 0 then -b else b)
            && (r < 0 ==> a < 0) && (r > 0 ==> a > 0)
  {
    var m, n := if a < 0 then -a else a, if b < 0 then -b else b;
    DivMod(m, n);
    var q := m / n;
    assert (-q) * b == -(q * b) && q * (-b) == -(q * b);
  }

  /** The word pair whose signed reading is v, when there is one. */
  predicate FitsSigned(v: int) { -BASE128 / 2 <= v < BASE128 / 2 }

  lemma SignedWraps(v: Words, x: int)
    requires v.Value() == x % BASE128
    ensures FitsSigned(x) ==> Signed(v.Value()) == x
    ensures Signed(v.Value()) % BASE128 == x % BASE128
  {
    if FitsSigned(x) {
      DivModUnique(x, BASE128, if x < 0 then -1 else 0, if x < 0 then x + BASE128 else x);
    }
    var s := Signed(v.Value());
    DivModUnique(s, BASE128, if s < 0 then -1 else 0, v.Value());
  }

  /** Negates when the flag is set, as the signed operators do with their magnitude result. */
  method ApplySign(magnitude: Words, negative: bool) returns (result: Words)
    ensures result.Value() == (if negative then -magnitude.Value() else magnitude.Value()) % BASE128
  {
    var r := new Base128(magnitude);
    if negative {
      r.Negate();
    }
    result := r.Copy();
  }

  method Strip(x: Words, flip: bool) returns (magnitude: Words, flip': bool)
    ensures magnitude.Value() == Magnitude(x.Value())
    ensures flip' == (flip != (Signed(x.Value()) < 0))
  {
    var r := new Base128(x);
    flip' := r.StripNegative(flip);
    magnitude := r.Copy();
  }

  lemma NegatedRemainder(m: int)
    ensures (-(m % BASE128)) % BASE128 == (-m) % BASE128
  {
    var q, r := m / BASE128, m % BASE128;
    DivModUnique(-m, BASE128, if r == 0 then -q else -q - 1, if r == 0 then 0 else BASE128 - r);
    DivModUnique(-r, BASE128, if r == 0 then 0 else -1, if r == 0 then 0 else BASE128 - r);
  }

  lemma MagnitudeProduct(a: int, b: int)
    ensures (if a < 0 then -a else a) * (if b < 0 then -b else b) == if (a < 0) != (b < 0) then -(a * b) else a * b
  {
    assert (-a) * b == -(a * b);
    assert a * (-b) == -(a * b);
    assert (-a) * (-b) == a * b;
  }

  lemma SignedProduct(a: int, b: int, magnitude: int)
    requires magnitude == ((if a < 0 then -a else a) * (if b < 0 then -b else b)) % BASE128
    ensures (if (a < 0) != (b < 0) then -magnitude else magnitude) % BASE128 == (a * b) % BASE128
  {
    MagnitudeProduct(a, b);
    NegatedRemainder((if a < 0 then -a else a) * (if b < 0 then -b else b));
  }

  method SignedMultiply(left: Words, right: Words) returns (result: Words)
    ensures var product := Signed(left.Value()) * Signed(right.Value());
            && Signed(result.Value()) % BASE128 == product % BASE128
            && (-BASE128 / 2 <= product < BASE128 / 2 ==> Signed(result.Value()) == product)
  {
    var l, negative := Strip(left, false);
    var r, negative' := Strip(right, negative);
    var magnitude := Multiply(l, r);
    result := ApplySign(magnitude, negative');
    ghost var product := Signed(left.Value()) * Signed(right.Value());
    SignedProduct(Signed(left.Value()), Signed(right.Value()), magnitude.Value());
    SignedWraps(result, product);
  }

  lemma QuotientRange(a: int, b: int)
    requires b != 0 && FitsSigned(a) && FitsSigned(b)
    ensures FitsSigned(TruncatedQuotient(a, b)) <==> !(a == -BASE128 / 2 && b == -1)
  {
    var m, n := if a < 0 then -a else a, if b < 0 then -b else b;
    DivMod(m, n);
    if n == 1 {
      DivModUnique(m, 1, m, 0);
    } else {
      Distribute(2, n - 2, m / n);
      MulMono(0, 0, n - 2, m / n);
    }
  }

  lemma SignedRange(w: Words)
    ensures FitsSigned(Signed(w.Value()))
  {
  }

  /** The quotient of the magnitudes with the sign of the product is the truncated quotient. */
  lemma MagnitudeQuotient(n: int, d: int)
    requires 0 <= n < BASE128 && 0 < d < BASE128
    ensures Signed(d) != 0 && Magnitude(d) > 0
    ensures var q := Magnitude(n) / Magnitude(d);
            TruncatedQuotient(Signed(n), Signed(d)) == if (Signed(n) < 0) != (Signed(d) < 0) then -q else q
  {
  }

  /** The remainder of the magnitudes with the sign of the dividend is the truncated remainder, which fits. */
  lemma MagnitudeRemainder(n: int, d: int)
    requires 0 <= n < BASE128 && 0 < d < BASE128
    ensures Signed(d) != 0 && Magnitude(d) > 0
    ensures var r := Magnitude(n) % Magnitude(d);
            TruncatedRemainder(Signed(n), Signed(d)) == if Signed(n) < 0 then -r else r
    ensures FitsSigned(TruncatedRemainder(Signed(n), Signed(d)))
  {
    DivMod(Magnitude(n), Magnitude(d));
  }

  /** Truncating division of every pair; only the minimum divided by -1 does not fit and wraps. */
  method SignedDivide(num: Words, den: Words, target: Target) returns (result: Words)
    requires den.Value() > 0
    ensures var q := TruncatedQuotient(Signed(num.Value()), Signed(den.Value()));
            && Signed(result.Value()) % BASE128 == q % BASE128
            && (Signed(result.Value()) == q <==> !(Signed(num.Value()) == -BASE128 / 2 && Signed(den.Value()) == -1))
  {
    var n, negative := Strip(num, false);
    var d, negative' := Strip(den, negative);
    var magnitude := Divide(n, d, target);
    result := ApplySign(magnitude, negative');
    hide TruncatedQuotient, FitsSigned;
    ghost var a, b := Signed(num.Value()), Signed(den.Value());
    SignedRange(num);
    SignedRange(den);
    SignedRange(result);
    MagnitudeQuotient(num.Value(), den.Value());
    QuotientRange(a, b);
    SignedWraps(result, TruncatedQuotient(a, b));
  }

  /** The remainder takes the dividend's sign, for the minimum as either operand too. */
  method SignedModulo(left: Words, right: Words, target: Target) returns (result: Words)
    requires right.Value() > 0
    ensures Signed(result.Value()) == TruncatedRemainder(Signed(left.Value()), Signed(right.Value()))
  {
    var l, negative := Strip(left, false);
    var r, _ := Strip(right, false);
    var magnitude := Modulo(l, r, target);
    result := ApplySign(magnitude, negative);
    hide TruncatedRemainder, FitsSigned;
    ghost var a, b := Signed(left.Value()), Signed(right.Value());
    MagnitudeRemainder(left.Value(), right.Value());
    SignedWraps(result, TruncatedRemainder(a, b));
  }

  /** Quotient and remainder of the signed operators fit together again, up to wrapping. */
  lemma SignedIdentity(a: int, b: int, q: int, r: int)
    requires b != 0 && q % BASE128 == TruncatedQuotient(a, b) % BASE128 && r == TruncatedRemainder(a, b)
    ensures (q * b + r) % BASE128 == a % BASE128
  {
    TruncatedDivision(a, b);
    var t := TruncatedQuotient(a, b);
    var k := q / BASE128 - t / BASE128;
    assert q == t + k * BASE128;
    Distribute(t, k * BASE128, b);
    Associate(k, BASE128, b);
    assert q * b + r == a + (k * b) * BASE128;
    DivModUnique(q * b + r, BASE128, a / BASE128 + k * b, a % BASE128);
  }
}
