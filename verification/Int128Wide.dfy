/** The two-digit by two-digit division in base 2^64, used where 128-bit intrinsics exist. */
module Int128Wide {
  import opened Arith
  import opened Bits
  import opened MachineTypes
  import opened BitUtils
  import opened QuotientDigit
  import opened Int128Base
  import opened Int128Digits

  const HALF64: int := 0x8000_0000_0000_0000

  function Pair(high: int, low: int): int { high * BASE64 + low }

  function Triple(high: int, mid: int, low: int): int { Pair(high, mid) * BASE64 + low }

  /** The quotient of a three-word dividend by a two-word divisor. */
  function Quotient3By2(h: u64, n1: u64, n0: u64, d1: u64, d0: u64): int
    requires Pair(d1, d0) > 0
  {
    Triple(h, n1, n0) / Pair(d1, d0)
  }

  /** A trial quotient and remainder of the leading pair; the trial is never below the true quotient. */
  ghost predicate Trial(h: u64, n1: u64, n0: u64, d1: u64, d0: u64, q: int, r: int)
    requires Pair(d1, d0) > 0
  {
    Pair(h, n1) == q * d1 + r && 0 <= Triple(h, n1, n0) / Pair(d1, d0) <= q
  }

  /** The loop's test: the trial has two words, or its product with the second divisor word is too big. */
  predicate Exceeds(q: int, d0: u64, n0: u64, r: int)
  {
    q >= BASE64 || q * d0 > r * BASE64 + n0
  }

  lemma WideExceeds(q: int, d0: u64, n0: u64, r: int)
    requires q >= BASE64
    ensures Exceeds(q, d0, n0, r)
  {
  }

  lemma TrialStart(h: u64, n1: u64, n0: u64, d1: u64, d0: u64, q: u64, rhat: u64)
    requires d1 >= HALF64 && h <= d1 && rhat < d1
    requires (if h >= d1 then h - d1 else h) * BASE64 + n1 == q * d1 + rhat
    ensures Trial(h, n1, n0, d1, d0, Words(q, if h >= d1 then 1 else 0).Value(), rhat)
  {
    var qhat, top := Words(q, if h >= d1 then 1 else 0).Value(), if h >= d1 then 1 else 0;
    assert Pair(h, n1) == qhat * d1 + rhat by {
      Distribute(q, BASE64 * top, d1);
      Associate(BASE64, top, d1);
    }
    DivModUnique(Pair(h, n1), d1, qhat, rhat);
    FirstTrial(BASE64, Pair(h, n1), n0, d1, d0);
    DivMod(Triple(h, n1, n0), Pair(d1, d0));
  }

  lemma TrialTooLarge(h: u64, n1: u64, n0: u64, d1: u64, d0: u64, q: int, r: int)
    requires Pair(d1, d0) > 0 && Trial(h, n1, n0, d1, d0, q, r)
    requires Triple(h, n1, n0) < BASE64 * Pair(d1, d0)
    requires Exceeds(q, d0, n0, r)
    ensures q >= 1 && Trial(h, n1, n0, d1, d0, q - 1, r + d1)
  {
    var three, two := Triple(h, n1, n0), Pair(d1, d0);
    Residual(BASE64, Pair(h, n1), n0, d1, d0, q, r);
    QuotientBelow(three, two, if q >= BASE64 then BASE64 else q);
    Distribute(q, 1, d1);
  }

  lemma TrialFits(h: u64, n1: u64, n0: u64, d1: u64, d0: u64, q: int, r: int)
    requires Pair(d1, d0) > 0 && Trial(h, n1, n0, d1, d0, q, r)
    requires !Exceeds(q, d0, n0, r)
    ensures q == Quotient3By2(h, n1, n0, d1, d0)
  {
    Residual(BASE64, Pair(h, n1), n0, d1, d0, q, r);
    QuotientAtLeast(Triple(h, n1, n0), Pair(d1, d0), q);
  }

  lemma LeadingWord(h: u64, n1: u64, n0: u64, d1: u64, d0: u64)
    requires d1 >= HALF64 && Triple(h, n1, n0) < BASE64 * Pair(d1, d0)
    ensures h <= d1 && Pair(h, n1) < d1 * BASE64 + BASE64
  {
  }

  lemma TrialOverflow(h: u64, n1: u64, n0: u64, d1: u64, d0: u64, q: int, r: int)
    requires d1 >= HALF64 && Trial(h, n1, n0, d1, d0, q, r) && r >= BASE64
    requires Triple(h, n1, n0) < BASE64 * Pair(d1, d0)
    ensures q == Quotient3By2(h, n1, n0, d1, d0) < BASE64
  {
    LeadingWord(h, n1, n0, d1, d0);
    RemainderOverflow(BASE64, Pair(h, n1), n0, d1, d0, q, r);
    TrialFits(h, n1, n0, d1, d0, q, r);
  }

  method ProductFits(q: u64, d0: u64, n0: u64, rhat: u64) returns (fits: bool)
    ensures fits <==> !Exceeds(q, d0, n0, rhat)
  {
    var low, high := UMul128(q, d0);
    fits := Words(low, high).Value() <= Words(n0, rhat).Value();
  }

  method FirstTrialQuotient(h: u64, n1: u64, ghost n0: u64, d1: u64, ghost d0: u64) returns (qhat: Base128, rhat: u64)
    requires d1 >= HALF64 && h <= d1
    ensures fresh(qhat) && Trial(h, n1, n0, d1, d0, qhat.Value(), rhat)
  {
    hide Trial;
    var q;
    q, rhat := UDiv128(if h >= d1 then h - d1 else h, n1, d1);
    qhat := new Base128(Words(q, if h >= d1 then 1 else 0));
    TrialStart(h, n1, n0, d1, d0, q, rhat);
  }

  method LowerTrial(qhat: Base128)
    requires qhat.Value() >= 1
    modifies qhat
    ensures qhat.Value() == old(qhat.Value()) - 1
  {
    if qhat.high > 0 {
      qhat.Decrement();
    } else {
      qhat.low := qhat.low - 1;
    }
  }

  /** A sum that came out smaller than the addend has wrapped. */
  method AddWord(rhat: u64, d1: u64) returns (overflow: bool, sum: u64)
    requires d1 > 0
    ensures overflow <==> rhat + d1 >= BASE64
    ensures !overflow ==> sum == rhat + d1
  {
    sum := (rhat + d1) % BASE64;
    overflow := rhat > sum;
  }

  /**
    The trial quotient. It has one word more than it needs until the loop is done; with a divisor of
    two words the estimate is the exact quotient.
   */
  method EstimateQuotient(h: u64, n1: u64, n0: u64, d1: u64, d0: u64) returns (quotient: u64)
    requires d1 >= HALF64 && Triple(h, n1, n0) < BASE64 * Pair(d1, d0)
    ensures quotient == Quotient3By2(h, n1, n0, d1, d0)
  {
    hide Trial, Exceeds, Triple, Quotient3By2;
    LeadingWord(h, n1, n0, d1, d0);
    var qhat, r := FirstTrialQuotient(h, n1, n0, d1, d0);
    var rhat: u64 := r;
    while true
      invariant fresh(qhat) && Trial(h, n1, n0, d1, d0, qhat.Value(), rhat)
      decreases BASE64 - rhat
    {
      if qhat.high == 0 {
        var fits := ProductFits(qhat.low, d0, n0, rhat);
        if fits {
          TrialFits(h, n1, n0, d1, d0, qhat.low, rhat);
          return qhat.low;
        }
      } else {
        WideExceeds(qhat.Value(), d0, n0, rhat);
      }
      TrialTooLarge(h, n1, n0, d1, d0, qhat.Value(), rhat);
      LowerTrial(qhat);
      var overflow, sum := AddWord(rhat, d1);
      if overflow {
        TrialOverflow(h, n1, n0, d1, d0, qhat.Value(), rhat + d1);
        return qhat.low;
      }
      rhat := sum;
    }
  }

  // ---- subtracting the product ----

  /** The three-word product of a two-word divisor and one word. */
  method MultiplyPair(q: u64, d1: u64, d0: u64) returns (p2: u64, p1: u64, p0: u64)
    ensures Triple(p2, p1, p0) == q * Pair(d1, d0)
  {
    var prod0Hi, lo, prod1Hi;
    p0, prod0Hi := UMul128(q, d0);
    lo, prod1Hi := UMul128(q, d1);
    MulMono(q, d1, BASE64 - 1, BASE64 - 1);
    Distribute(d1 * BASE64, d0, q);
    Associate(q, d1, BASE64);
    var (carry, sum) := AddCarry64(0, lo, prod0Hi);
    p1 := sum;
    p2 := prod1Hi + carry;
  }

  /** What the three-word difference says about the quotient. */
  lemma BorrowTells(three: int, two: int, q: int, low: u64, mid: u64, top: u64, borrow: int)
    requires 0 <= three && 0 < two < BASE128 && 0 <= borrow <= 1
    requires three / two <= q <= three / two + 1
    requires Triple(top, mid, low) - borrow * BASE64 * BASE128 == three - q * two
    ensures borrow != 0 <==> q == three / two + 1
    ensures borrow == 0 ==> Pair(mid, low) == three % two
    ensures borrow != 0 ==> q >= 1 && Pair(mid, low) + two == BASE128 + three % two
  {
    DivMod(three, two);
    Distribute(three / two, 1, two);
  }

  /**
    Subtracts q times the divisor from the three-word dividend and repairs a quotient that was one
    too large. The final borrow tells whether it was.
   */
  method SubtractQuotient(h: u64, n1: u64, n0: u64, d1: u64, d0: u64, q: u64)
    returns (quotient: u64, remainder: Words, borrow: int)
    requires Pair(d1, d0) > 0
    requires var t := Quotient3By2(h, n1, n0, d1, d0); t <= q <= t + 1 && 0 <= t
    ensures quotient == Quotient3By2(h, n1, n0, d1, d0)
    ensures remainder.Value() == Triple(h, n1, n0) % Pair(d1, d0)
    ensures borrow != 0 <==> q == quotient + 1
  {
    ghost var three, two := Triple(h, n1, n0), Pair(d1, d0);
    ghost var t := three / two;
    DivMod(three, two);
    Distribute(t, 1, two);
    var p2, p1, p0 := MultiplyPair(q, d1, d0);
    var (borrow0, low) := SubBorrow64(0, n0, p0);
    var (borrow1, mid) := SubBorrow64(borrow0, n1, p1);
    var (borrow2, top) := SubBorrow64(borrow1, h, p2);
    borrow := borrow2;
    quotient := q;
    remainder := Words(low, mid);
    BorrowTells(three, two, q, low, mid, top, borrow);
    if borrow != 0 {
      quotient := quotient - 1;
      var (carry0, low') := AddCarry64(0, low, d0);
      var (_, mid') := AddCarry64(carry0, mid, d1);
      remainder := Words(low', mid');
    }
  }

  // ---- the whole division ----

  /** Shifting left by the leading zeros of the high word fills the top bit and loses nothing. */
  lemma NormalizedPair(den: Words, d: nat)
    requires den.high > 0 && d == LeadingZeros(64, den.high) < 64
    ensures BASE128 / 2 <= den.Value() * Pow2(d) < BASE128
  {
    hide Pow2, LeadingZeros;
    PowerOfWord();
    LeadingZerosRange(64, den.high);
    var p := Pow2(d);
    Pow2Add(63 - d, d);
    Pow2Add(64 - d, d);
    Pow2Add(1, 63);
    WordSizes();
    MulLe(BASE64 * Pow2(63 - d), den.Value(), p);
    MulLt(den.Value(), BASE64 * Pow2(64 - d), p);
    Associate(BASE64, Pow2(63 - d), p);
    Associate(BASE64, Pow2(64 - d), p);
  }

  /** The digit that leaves the top and the two words that stay hold the shifted number. */
  lemma SpilledDigit(num: Words, d: nat)
    requires d < 64
    ensures var top := if d == 0 then 0 else Shr(num.high, 64 - d);
            num.Value() * Pow2(d) == top * BASE128 + (num.Value() * Pow2(d)) % BASE128
  {
    hide Pow2, JoinLeft, Shl;
    MulMono(0, 0, num.Value(), Pow2(d));
    DivMod(num.Value() * Pow2(d), BASE128);
    if d == 0 {
      PowerOfNone();
    } else {
      LeftShiftValue(num.low, num.high, d);
    }
  }

  lemma ScaledDivision(n: int, den: int, p: int)
    requires 0 <= n && den >= 1 && p >= 1
    ensures den * p >= 1 && (n * p) / (den * p) == n / den && (n * p) % (den * p) == (n % den) * p
  {
    MulMono(1, 1, den, p);
    DivMod(n, den);
    Distribute((n / den) * den, n % den, p);
    Associate(n / den, den, p);
    MulMono(0, 0, n % den, p);
    MulLt(n % den, den, p);
    DivModUnique(n * p, den * p, n / den, (n % den) * p);
  }

  /** A dividend of two words is less than one word's worth of a divisor with a nonzero high word. */
  lemma OneWordQuotient(num: Words, den: Words, p: int)
    requires den.high > 0 && p >= 1
    ensures num.Value() * p < BASE64 * (den.Value() * p)
  {
    MulLt(num.Value(), BASE64 * den.Value(), p);
    Associate(BASE64, den.Value(), p);
  }

  lemma WordWidth()
    ensures Pow2(6) == 64 && Pow2(64) == BASE64
  {
    SmallPowers();
    PowerOfWord();
  }

  lemma WideOperands(num: Words, den: Words, d: nat, top: u64, n: Words, v: Words)
    requires den.high > 0 && BASE128 / 2 <= den.Value() * Pow2(d) < BASE128
    requires v.Value() == (den.Value() * Pow2(d)) % BASE128
    requires num.Value() * Pow2(d) == top * BASE128 + n.Value()
    requires num.Value() * Pow2(d) < BASE64 * (den.Value() * Pow2(d))
    ensures v.high >= HALF64 && Triple(top, n.high, n.low) < BASE64 * Pair(v.high, v.low)
    ensures Quotient3By2(top, n.high, n.low, v.high, v.low) == num.Value() / den.Value() >= 0
    ensures Triple(top, n.high, n.low) % Pair(v.high, v.low) == (num.Value() % den.Value()) * Pow2(d)
  {
    hide Pow2;
    DivModUnique(den.Value() * Pow2(d), BASE128, 0, den.Value() * Pow2(d));
    assert Pair(v.high, v.low) == den.Value() * Pow2(d);
    assert Triple(top, n.high, n.low) == num.Value() * Pow2(d);
    ScaledDivision(num.Value(), den.Value(), Pow2(d));
    DivMod(num.Value(), den.Value());
  }

  /**
    Divides when both high words are nonzero. The remainder comes out shifted left by d; the borrow of the
    subtraction never asks for a repair.
   */
  method DivideWide(num: Words, den: Words) returns (quotient: u64, remainder: Words, d: nat, ghost borrow: int)
    requires den.high > 0
    ensures d < 64 && quotient == num.Value() / den.Value()
    ensures remainder.Value() == (num.Value() % den.Value()) * Pow2(d)
    ensures borrow == 0
  {
    hide Pow2, LeadingZeros, JoinLeft, Shl, Shr, Quotient3By2;
    WordWidth();
    d := CountlZeroFallback(6, den.high);
    LeadingZerosRange(64, den.high);
    NormalizedPair(den, d);
    SpilledDigit(num, d);
    OneWordQuotient(num, den, Pow2(d));
    var divisor := new Base128(den);
    divisor.LeftShift(d);
    var top: u64 := if d == 0 then 0 else Shr(num.high, 64 - d);
    var dividend := new Base128(num);
    dividend.LeftShift(d);
    WideOperands(num, den, d, top, dividend.Copy(), divisor.Copy());
    var q := EstimateQuotient(top, dividend.high, dividend.low, divisor.high, divisor.low);
    var repair;
    quotient, remainder, repair := SubtractQuotient(top, dividend.high, dividend.low, divisor.high, divisor.low, q);
    borrow := repair;
  }
}
