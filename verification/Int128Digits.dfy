/** Cutting shifted words into 32-bit digits, and the 64-bit primitives built on Algorithms M and D. */
module Int128Digits {
  import opened Arith
  import opened Bits
  import opened Digits
  import opened MachineTypes
  import opened BitUtils
  import opened Int128Base
  import opened KnuthD
  import KnuthM

  /** The low, middle and top digit of x << d. */
  function LowDigit(x: u64, d: nat): u32
    requires d < 32
  {
    Shl(x, d) % BASE
  }

  function MidDigit(x: u64, d: nat): u32
    requires d < 32
  {
    Shr(x, 32 - d) % BASE
  }

  function TopDigit(x: u64, d: nat): u32
    requires d < 32
  {
    if d == 0 then 0 else Shr(x, 64 - d) % BASE
  }

  lemma BaseDigits(y: int)
    requires 0 <= y
    ensures y == y % BASE + BASE * (y / BASE % BASE) + BASE64 * (y / BASE64)
    ensures y % BASE64 % BASE == y % BASE
  {
    var low, mid, top := y % BASE, y / BASE % BASE, y / BASE / BASE;
    DivModUnique(y, BASE64, top, BASE * mid + low);
    DivModUnique(BASE * mid + low, BASE, mid, low);
  }

  lemma LowDigitValue(x: u64, d: nat)
    requires d < 32
    ensures 0 <= x * Pow2(d) && LowDigit(x, d) == (x * Pow2(d)) % BASE
  {
    hide Pow2;
    MulMono(0, 0, x, Pow2(d));
    PowerOfWord();
    BaseDigits(x * Pow2(d));
  }

  lemma HalfWord()
    ensures Pow2(32) == BASE && Pow2(31) == HALF
  {
    hide Pow2;
    WordSizes();
  }

  lemma ScaledQuotient(x: int, p: int, r: int)
    requires 0 <= x && p >= 1 && r >= 1
    ensures r * p >= 1 && x / r == (x * p) / (r * p)
  {
    MulMono(1, 1, r, p);
    DivMod(x, r);
    Distribute((x / r) * r, x % r, p);
    Associate(x / r, r, p);
    MulMono(0, 0, x % r, p);
    MulLe(x % r + 1, r, p);
    Distribute(x % r, 1, p);
    DivModUnique(x * p, r * p, x / r, (x % r) * p);
  }

  lemma MidDigitValue(x: u64, d: nat)
    requires d < 32
    ensures MidDigit(x, d) == (x * Pow2(d)) / BASE % BASE
  {
    hide Pow2;
    Pow2Add(32 - d, d);
    HalfWord();
    ScaledQuotient(x, Pow2(d), Pow2(32 - d));
  }

  lemma TopDigitValue(x: u64, d: nat)
    requires d < 32
    ensures TopDigit(x, d) == (x * Pow2(d)) / BASE64 < Pow2(d)
  {
    hide Pow2;
    if d == 0 {
      PowerOfNone();
    } else {
      Pow2Add(64 - d, d);
      PowerOfWord();
      ScaledQuotient(x, Pow2(d), Pow2(64 - d));
      SplitWord(x, d);
      Pow2Mono(d, 32);
      HalfWord();
    }
  }

  /** The three digits of a shifted word make up the shifted word. */
  lemma ShiftedDigits(x: u64, d: nat)
    requires d < 32
    ensures x * Pow2(d) == LowDigit(x, d) + BASE * MidDigit(x, d) + BASE64 * TopDigit(x, d)
    ensures TopDigit(x, d) < Pow2(d)
    ensures LowDigit(x, d) == (x * Pow2(d)) % BASE
  {
    hide Pow2, LowDigit, MidDigit, TopDigit;
    LowDigitValue(x, d);
    MidDigitValue(x, d);
    TopDigitValue(x, d);
    BaseDigits(x * Pow2(d));
  }

  /** What is left of a multiple of p below r * p is itself a multiple of p, and leaves room for less than p. */
  lemma MultipleBelow(y: int, p: int, r: int)
    requires 0 <= y && p >= 1 && r >= 1 && r * p == BASE
    ensures (y * p) % BASE == (y % r) * p <= BASE - p
    ensures 0 <= y % r
  {
    DivMod(y, r);
    Distribute((y / r) * r, y % r, p);
    Associate(y / r, r, p);
    MulMono(0, 0, y % r, p);
    MulLe(y % r + 1, r, p);
    Distribute(y % r, 1, p);
    DivModUnique(y * p, BASE, y / r, (y % r) * p);
  }

  lemma DigitsJoin(x: u64, y: u64, d: nat)
    requires d < 32
    ensures BitOr(LowDigit(y, d), TopDigit(x, d)) == LowDigit(y, d) + TopDigit(x, d) < BASE
  {
    hide Pow2, BitOr, LowDigit, TopDigit;
    var p, r := Pow2(d), Pow2(32 - d);
    ShiftedDigits(x, d);
    ShiftedDigits(y, d);
    Pow2Add(32 - d, d);
    HalfWord();
    MultipleBelow(y, p, r);
    OrDisjoint(y % r, TopDigit(x, d), d);
  }

  /** The top digit of one word joined with the low digit of the next. */
  function JoinDigit(x: u64, y: u64, d: nat): (r: u32)
    requires d < 32
    ensures r == LowDigit(y, d) + TopDigit(x, d)
  {
    DigitsJoin(x, y, d);
    if d == 0 then LowDigit(y, d) else BitOr(LowDigit(y, d), TopDigit(x, d))
  }

  lemma ValueOf2(s: seq<int>)
    requires |s| == 2
    ensures Value(s) == s[0] + BASE * s[1]
  {
    ValuePair(s);
  }

  lemma ValueOf3(s: seq<int>)
    requires |s| == 3
    ensures Value(s) == s[0] + BASE * s[1] + BASE64 * s[2]
  {
    ValueTriple(s);
  }

  lemma ValueOf4(s: seq<int>)
    requires |s| == 4
    ensures Value(s) == s[0] + BASE * s[1] + BASE64 * (s[2] + BASE * s[3])
  {
    ValueOf3(s[1..]);
  }

  lemma ValueOf5(s: seq<int>)
    requires |s| == 5
    ensures Value(s) == s[0] + BASE * s[1] + BASE64 * (s[2] + BASE * s[3] + BASE64 * s[4])
  {
    ValueOf4(s[1..]);
  }

  // ---- 64 x 64 -> 128 ----

  method UMul128(left: u64, right: u64) returns (low: u64, high: u64)
    ensures low + BASE64 * high == left * right
  {
    var u := new u32[] [left % BASE, left / BASE];
    var v := new u32[] [right % BASE, right / BASE];
    var w := new u32[4];
    KnuthM.Multiply(u, v, w);
    ValueOf2(u[..]);
    ValueOf2(v[..]);
    ValueOf4(w[..]);
    high := TwoDigits(w[3], w[2]);
    low := TwoDigits(w[1], w[0]);
  }

  // ---- 128 / 64 -> 64 ----

  /** Five digits hold the two-word number low, high shifted left by d < 32. */
  lemma ShiftedPair(low: u64, high: u64, d: nat, s: seq<int>)
    requires d < 32
    requires s == [LowDigit(low, d), MidDigit(low, d), JoinDigit(low, high, d), MidDigit(high, d), TopDigit(high, d)]
    ensures Value(s) == Words(low, high).Value() * Pow2(d)
  {
    hide Pow2, LowDigit, MidDigit, TopDigit;
    ShiftedDigits(low, d);
    ShiftedDigits(high, d);
    ValueOf5(s);
    Distribute(low, BASE64 * high, Pow2(d));
    Associate(BASE64, high, Pow2(d));
  }

  lemma {:induction false} LeadingZerosOfZero(width: nat)
    ensures LeadingZeros(width, 0) == width
  {
    if width > 0 {
      LeadingZerosOfZero(width - 1);
    }
  }

  /** Shifting a divisor by the leading zeros of its high half fills its top bit. */
  lemma NormalizedWord(x: u64, d: nat)
    requires d == LeadingZeros(32, x / BASE) < 32
    ensures TopDigit(x, d) == 0 && MidDigit(x, d) >= HALF
    ensures x * Pow2(d) == LowDigit(x, d) + BASE * MidDigit(x, d) < BASE64
  {
    hide Pow2, LowDigit, MidDigit, TopDigit, LeadingZeros;
    ShiftedDigits(x, d);
    HalfWord();
    LeadingZerosOfZero(32);
    LeadingZerosRange(32, x / BASE);
    var p, y := Pow2(d), x / BASE;
    Pow2Add(31 - d, d);
    Pow2Add(32 - d, d);
    Pow2Add(1, 31 - d);
    MulLe(BASE * Pow2(31 - d), x, p);
    MulLt(x, BASE * Pow2(32 - d), p);
    Associate(BASE, Pow2(31 - d), p);
    Associate(BASE, Pow2(32 - d), p);
  }

  lemma UnshiftBound(u0: u32, u1: u32, p: int, r: int)
    requires p >= 1 && 1 <= r <= BASE && r * p == BASE
    ensures 0 <= u0 / p < r && 0 <= u1 * r && u1 * r + u0 / p < BASE64
  {
    DivMod(u0, p);
    MulCancelLt(u0 / p, r, p);
    MulLe(u1 + 1, BASE, r);
    Distribute(u1, 1, r);
    MulMono(0, 0, u1, r);
  }

  lemma UnshiftJoin(u0: u32, u1: u32, d: nat)
    requires d < 32
    ensures BitOr(Shl(u1, 32 - d), Shr(u0, d)) == u1 * Pow2(32 - d) + u0 / Pow2(d) < BASE64
  {
    hide Pow2, BitOr;
    var p, r := Pow2(d), Pow2(32 - d);
    Pow2Add(32 - d, d);
    HalfWord();
    PowerOfWord();
    Pow2Mono(32 - d, 32);
    UnshiftBound(u0, u1, p, r);
    OrDisjoint(u1, u0 / p, 32 - d);
  }

  /** (u1 << (32 - d)) | (u0 >> d), the two low digits shifted back right. */
  function Unshift(u0: u32, u1: u32, d: nat): (r: u64)
    requires d < 32
    ensures r == u1 * Pow2(32 - d) + u0 / Pow2(d)
  {
    UnshiftJoin(u0, u1, d);
    BitOr(Shl(u1, 32 - d), Shr(u0, d))
  }

  /** Shifting back undoes the normalization of a remainder. */
  lemma UnshiftValue(u0: u32, u1: u32, d: nat, rem: int)
    requires d < 32 && 0 <= rem && u0 + BASE * u1 == rem * Pow2(d)
    ensures Unshift(u0, u1, d) == rem
  {
    hide Pow2, Unshift;
    var p, r := Pow2(d), Pow2(32 - d);
    Pow2Add(32 - d, d);
    HalfWord();
    Associate(u1, r, p);
    Distribute(rem, u1 * r, p);
    DivModUnique(u0, p, rem - u1 * r, 0);
  }

  /** One step of schoolbook division by a divisor of one 32-bit digit. */
  method ShortDivide(rem: u32, digit: u32, div: u32) returns (quotient: u32, remainder: u32)
    requires rem < div
    ensures rem * BASE + digit == quotient * div + remainder && remainder < div
  {
    var n: u64 := TwoDigits(rem, digit);
    DivMod(n, div);
    Associate(div, BASE, 1);
    MulCancelLt(n / div, BASE, div);
    quotient, remainder := n / div, n % div;
  }

  /** Two steps divide a word that follows a remainder. */
  lemma ShortDivision(high: int, low: u64, div: int, q1: int, r1: int, q0: int, r0: int)
    requires high * BASE + low / BASE == q1 * div + r1
    requires r1 * BASE + low % BASE == q0 * div + r0
    ensures high * BASE64 + low == TwoDigits(q1, q0) * div + r0
  {
    Distribute(q1 * BASE, q0, div);
    Associate(q1, BASE, div);
  }

  lemma LeadingZerosFull(width: nat, x: nat)
    requires x < Pow2(width) && LeadingZeros(width, x) >= width
    ensures x == 0
  {
    hide Pow2, LeadingZeros;
    if x > 0 {
      LeadingZerosRange(width, x);
    }
  }

  lemma TopBelowDivisor(u: seq<int>, v: seq<int>, n: int, div: int, p: int)
    requires |u| == 5 && |v| == 2 && IsDigits(u) && p >= 1
    requires Value(u) == n * p && Value(v) == div * p && 0 <= n < div * BASE64
    ensures Window(u, 3, 2) < Value(v)
  {
    MulLt(n, div * BASE64, p);
    Associate(div, BASE64, p);
    ValueOf5(u);
    ValueOf2(u[3..5]);
  }

  lemma NormalizedSetup(high: u64, low: u64, div: u64, d: nat, u: seq<int>, v: seq<int>)
    requires high < div && d == LeadingZeros(32, div / BASE) < 32
    requires u == [LowDigit(low, d), MidDigit(low, d), JoinDigit(low, high, d), MidDigit(high, d), TopDigit(high, d)]
    requires v == [LowDigit(div, d), MidDigit(div, d)]
    ensures Normalized(v) && Window(u, 3, 2) < Value(v)
    ensures Value(v) == div * Pow2(d) && Window(u, 0, 5) == Words(low, high).Value() * Pow2(d)
  {
    hide Pow2, LowDigit, MidDigit, TopDigit, LeadingZeros;
    NormalizedWord(div, d);
    ShiftedPair(low, high, d, u);
    ValueOf2(v);
    TopBelowDivisor(u, v, Words(low, high).Value(), div, Pow2(d));
    assert u[0..5] == u;
  }

  /** Dividing the shifted numbers gives the same quotient and a shifted remainder. */
  lemma Unscale(high: u64, low: u64, q: int, div: u64, p: int, v: int, r: int) returns (rem: int)
    requires p >= 1 && high < div && v == div * p
    requires Words(low, high).Value() * p == r + q * v && 0 <= r < v
    ensures high * BASE64 + low == q * div + rem
    ensures r == rem * p && 0 <= rem < div && q < BASE64
  {
    var n := Words(low, high).Value();
    rem := n - q * div;
    Associate(q, div, p);
    Distribute(n, q * div, p);
    MulCancelLt(rem, div, p);
    if rem < 0 {
      MulLe(rem, -1, p);
    }
    MulLe(high + 1, div, BASE64);
    MulCancelLt(q, BASE64, div);
  }

  lemma TopDigitGone(q0: u32, q1: u32, q2: u32, result: int)
    requires result == q0 + BASE * q1 + BASE64 * q2 && result < BASE64
    ensures TwoDigits(q1, q0) == result
  {
  }

  lemma NormalizedResult(high: u64, low: u64, div: u64, d: nat, u: seq<u32>, v: seq<int>, q: seq<u32>)
    requires high < div && d < 32 && |u| == 5 && |q| == 3
    requires Value(v) == div * Pow2(d)
    requires Words(low, high).Value() * Pow2(d) == Window(u, 0, 2) + Window(q, 0, 3) * Value(v)
    requires 0 <= Window(u, 0, 2) < Value(v)
    ensures var quotient, remainder := TwoDigits(q[1], q[0]), Unshift(u[0], u[1], d);
            high * BASE64 + low == quotient * div + remainder && remainder < div && quotient < BASE64
  {
    hide Pow2, Unshift, Value;
    var result := Window(q, 0, 3);
    var rem := Unscale(high, low, result, div, Pow2(d), Value(v), Window(u, 0, 2));
    ValueOf2(u[0..2]);
    ValueOf3(q[0..3]);
    UnshiftValue(u[0], u[1], d, rem);
    assert TwoDigits(q[1], q[0]) == result by { TopDigitGone(q[0], q[1], q[2], result); }
  }

  /** The divisor has two digits: Algorithm D divides four digits and a spill by two. */
  method DivideByNormalized(high: u64, low: u64, div: u64, d: nat) returns (quotient: u64, remainder: u64)
    requires high < div && d == LeadingZeros(32, div / BASE) < 32
    ensures high * BASE64 + low == quotient * div + remainder && remainder < div
  {
    hide Pow2, LowDigit, MidDigit, TopDigit, LeadingZeros, Value, Unshift;
    var u := new u32[] [LowDigit(low, d), MidDigit(low, d), JoinDigit(low, high, d),
                        MidDigit(high, d), TopDigit(high, d)];
    var v := new u32[] [LowDigit(div, d), MidDigit(div, d)];
    var q := new u32[3];
    ghost var divisor := v[..];
    NormalizedSetup(high, low, div, d, u[..], divisor);
    assert v[..2] == divisor;
    KnuthD.Divide(u, 5, v, 2, q);
    assert v[..2] == divisor && q[..][0..3] == q[..];
    NormalizedResult(high, low, div, d, u[..], divisor, q[..]);
    remainder := Unshift(u[0], u[1], d);
    quotient := TwoDigits(q[1], q[0]);
  }

  method UDiv128(high: u64, low: u64, div: u64) returns (quotient: u64, remainder: u64)
    requires high < div
    ensures high * BASE64 + low == quotient * div + remainder && remainder < div
  {
    hide Pow2, LowDigit, MidDigit, TopDigit, LeadingZeros;
    SmallPowers();
    HalfWord();
    var d := CountlZeroFallback(5, div / BASE);
    if d >= 32 {
      LeadingZerosFull(32, div / BASE);
      var q1, r1 := ShortDivide(high, low / BASE, div);
      var q0, r0 := ShortDivide(r1, low % BASE, div);
      ShortDivision(high, low, div, q1, r1, q0, r0);
      return TwoDigits(q1, q0), r0;
    }
    quotient, remainder := DivideByNormalized(high, low, div, d);
  }
}
