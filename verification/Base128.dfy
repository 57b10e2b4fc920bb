/** The two-word integer: shifts, increments, carries and borrows. */
module Int128Base {
  import opened Arith
  import opened MachineTypes
  import opened Bits

  const BASE128: int := 0x1_0000_0000_0000_0000_0000_0000_0000_0000

  /** A 128-bit value passed by value. */
  datatype Words = Words(low: u64, high: u64)
  {
    function Value(): (v: int)
      ensures 0 <= v < BASE128
    {
      low + BASE64 * high
    }
  }

  // ---- shifting a word apart ----

  function Shl(x: u64, count: nat): u64
    requires count < 64
  {
    WordSizes();
    ShiftLeft(64, x, count)
  }

  function Shr(x: u64, count: nat): u64
  {
    DivMod(x, Pow2(count));
    ShiftRight(x, count)
  }

  /** A word cut at bit 64 - c: shifting left by c sends the two parts to different words. */
  lemma SplitWord(x: u64, c: nat)
    requires 0 < c < 64
    ensures var p, r := Pow2(c), Pow2(64 - c);
            && p * r == BASE64
            && x * p == (x / r) * BASE64 + (x % r) * p
            && Shl(x, c) == (x % r) * p < BASE64
            && Shr(x, 64 - c) == x / r < p
            && Shr(x, c) == x / p < r
  {
    hide Pow2;
    var p, r := Pow2(c), Pow2(64 - c);
    Pow2Add(c, 64 - c);
    WordSizes();
    DivMod(x, r);
    Distribute((x / r) * r, x % r, p);
    Associate(x / r, r, p);
    Distribute(r, 1, p);
    MulLe(x % r, r - 1, p);
    MulMono(0, 0, x % r, p);
    MulCancelLt(x / r, p, r);
    DivMod(x, p);
    MulCancelLt(x / p, r, p);
    DivModUnique(x * p, BASE64, x / r, (x % r) * p);
  }

  lemma JoinBound(h: int, l: int, c: nat)
    requires 0 < c < 64 && 0 <= h < Pow2(64 - c) && 0 <= l < Pow2(c)
    ensures 0 <= h * Pow2(c) + l < BASE64
  {
    hide Pow2;
    Pow2Add(64 - c, c);
    WordSizes();
    MulLe(h, Pow2(64 - c) - 1, Pow2(c));
    Distribute(Pow2(64 - c), 1, Pow2(c));
    MulMono(0, 0, h, Pow2(c));
  }

  lemma JoinValue(low: u64, high: u64, c: nat)
    requires 0 < c < 64
    ensures BitOr(Shl(high, c), Shr(low, 64 - c)) == (high % Pow2(64 - c)) * Pow2(c) + low / Pow2(64 - c) < BASE64
  {
    hide Pow2, BitOr;
    SplitWord(low, c);
    SplitWord(high, c);
    OrDisjoint(high % Pow2(64 - c), Shr(low, 64 - c), c);
    JoinBound(high % Pow2(64 - c), Shr(low, 64 - c), c);
  }

  /** Shifting left by c joins the low part of high with the high part of low. */
  function JoinLeft(low: u64, high: u64, c: nat): (r: u64)
    requires 0 < c < 64
    ensures r == (high % Pow2(64 - c)) * Pow2(c) + low / Pow2(64 - c)
  {
    JoinValue(low, high, c);
    BitOr(Shl(high, c), Shr(low, 64 - c))
  }

  function JoinRight(low: u64, high: u64, c: nat): (r: u64)
    requires 0 < c < 64
    ensures r == (high % Pow2(c)) * Pow2(64 - c) + low / Pow2(c)
  {
    JoinValue(low, high, 64 - c);
    OrCommutes(Shl(high, 64 - c), Shr(low, c));
    BitOr(Shr(low, c), Shl(high, 64 - c))
  }

  lemma LeftArithmetic(p: int, r: int, low: int, high: int, lq: int, lr: int, hq: int, hr: int)
    requires low * p == lq * BASE64 + lr * p && high * p == hq * BASE64 + hr * p
    ensures (low + BASE64 * high) * p == hq * BASE128 + (lr * p + BASE64 * (hr * p + lq))
  {
    Distribute(low, BASE64 * high, p);
    Associate(BASE64, high, p);
  }

  lemma LeftShiftValue(low: u64, high: u64, c: nat)
    requires 0 < c < 64
    ensures Words(Shl(low, c), JoinLeft(low, high, c)).Value()
            == (Words(low, high).Value() * Pow2(c)) % BASE128
    ensures Shr(high, 64 - c) == (Words(low, high).Value() * Pow2(c)) / BASE128
  {
    hide Pow2, BitOr;
    var p, r := Pow2(c), Pow2(64 - c);
    WordSizes();
    SplitWord(low, c);
    SplitWord(high, c);
    LeftArithmetic(p, r, low, high, low / r, low % r, high / r, high % r);
    DivModUnique(Words(low, high).Value() * p, BASE128, high / r, Words(Shl(low, c), JoinLeft(low, high, c)).Value());
  }

  lemma PowerOfWord()
    ensures Pow2(64) == BASE64
  {
    hide Pow2;
    WordSizes();
  }

  /** The quotient of a two-word number, the high word being signed or not, by a divisor of the word size. */
  lemma RightShiftQuotient(low: u64, high: int, p: int, r: int)
    requires p >= 1 && p * r == BASE64
    ensures (low + BASE64 * high) / p == (high % p) * r + low / p + BASE64 * (high / p)
  {
    var lq, lr, hq, hr := low / p, low % p, high / p, high % p;
    assert low == lq * p + lr && high == hq * p + hr;
    Distribute(hr * r + lq, BASE64 * hq, p);
    Distribute(hr * r, lq, p);
    Associate(hr, r, p);
    Associate(BASE64, hq, p);
    DivModUnique(low + BASE64 * high, p, hr * r + lq + BASE64 * hq, lr);
  }

  lemma RightShiftValue(low: u64, high: u64, c: nat)
    requires 0 < c < 64
    ensures Words(JoinRight(low, high, c), Shr(high, c)).Value() == Words(low, high).Value() / Pow2(c)
  {
    hide Pow2, JoinRight;
    Pow2Add(c, 64 - c);
    PowerOfWord();
    RightShiftQuotient(low, high, Pow2(c), Pow2(64 - c));
  }

  // ---- carries ----

  /** The sum word and the carry out of it. */
  function AddCarry64(carry: int, left: u64, right: u64): (r: (int, u64))
    requires 0 <= carry <= 1
    ensures 0 <= r.0 <= 1 && r.1 + BASE64 * r.0 == left + right + carry
  {
    var sum := (left + right + carry) % BASE64;
    (if carry != 0 then (if sum <= left then 1 else 0) else if sum < left then 1 else 0, sum)
  }

  /** The difference word and the borrow into it. */
  function SubBorrow64(borrow: int, left: u64, right: u64): (r: (int, u64))
    requires 0 <= borrow <= 1
    ensures 0 <= r.0 <= 1 && r.1 - BASE64 * r.0 == left - right - borrow
  {
    var difference := (left - right - borrow) % BASE64;
    (if borrow != 0 then (if difference >= left then 1 else 0) else if difference > left then 1 else 0, difference)
  }

  /** The two's complement reading of a 128-bit value. */
  function Signed(v: int): int
    requires 0 <= v < BASE128
  {
    if v < BASE128 / 2 then v else v - BASE128
  }

  lemma PowerOfNone()
    ensures Pow2(0) == 1
  {
  }

  lemma PowerSplit(c: nat)
    requires 64 <= c < 128
    ensures Pow2(c) == BASE64 * Pow2(c % 64)
  {
    hide Pow2;
    Pow2Add(64, c - 64);
    PowerOfWord();
  }

  lemma WholeArithmetic(low: int, high: int, p: int, q: int, r: int)
    requires low * p == q * BASE64 + r
    ensures (low + BASE64 * high) * (BASE64 * p) == (high * p + q) * BASE128 + BASE64 * r
  {
    Distribute(low, BASE64 * high, BASE64 * p);
    Associate(low, BASE64, p);
    Associate(BASE64 * high, BASE64, p);
    Associate(BASE64, high, p);
  }

  lemma LeftShiftWhole(low: u64, high: u64, c: nat)
    requires 64 <= c < 128
    ensures Words(0, Shl(low, c % 64)).Value() == (Words(low, high).Value() * Pow2(c)) % BASE128
  {
    hide Pow2;
    var d := c % 64;
    var p := Pow2(d);
    PowerSplit(c);
    PowerOfWord();
    MulMono(0, 0, low, p);
    DivMod(low * p, BASE64);
    WholeArithmetic(low, high, p, low * p / BASE64, low * p % BASE64);
    DivModUnique(Words(low, high).Value() * Pow2(c), BASE128, high * p + low * p / BASE64, BASE64 * Shl(low, d));
  }

  lemma WholeQuotient(low: u64, high: int, p: int)
    requires p >= 1
    ensures BASE64 * p >= 1 && high / p == (low + BASE64 * high) / (BASE64 * p)
  {
    var q, r := high / p, high % p;
    assert high == q * p + r;
    Associate(q, BASE64, p);
    DivModUnique(low + BASE64 * high, BASE64 * p, q, low + BASE64 * r);
  }

  lemma RightShiftWhole(low: u64, high: u64, c: nat)
    requires 64 <= c < 128
    ensures Words(Shr(high, c % 64), 0).Value() == Words(low, high).Value() / Pow2(c)
  {
    hide Pow2;
    PowerSplit(c);
    WholeQuotient(low, high, Pow2(c % 64));
  }

  // ---- arithmetic right shift ----

  function SignedWord(x: u64): i64
  {
    if x < BASE64 / 2 then x else x - BASE64
  }

  /** int64_t >> count, read back as a word. */
  function SignedShr(x: u64, count: nat): u64
    requires count < 64
  {
    (SignedWord(x) / Pow2(count)) % BASE64
  }

  lemma FloorRange(x: i64, p: int)
    requires p >= 1
    ensures -BASE64 / 2 <= x / p < BASE64 / 2
    ensures x == (x / p) * p + x % p && 0 <= x % p < p
  {
    var q := x / p;
    assert x == q * p + x % p;
    if q >= BASE64 / 2 {
      MulMono(BASE64 / 2, 1, q, p);
    }
    MulMono(BASE64 / 2, 1, BASE64 / 2, p);
    if q < -BASE64 / 2 {
      MulLe(q, -(BASE64 / 2 + 1), p);
    }
  }

  lemma SignedShrRange(x: u64, count: nat)
    requires count < 64
    ensures SignedWord(SignedShr(x, count)) == SignedWord(x) / Pow2(count)
  {
    hide Pow2;
    FloorRange(SignedWord(x), Pow2(count));
  }

  lemma SignOfQuotient(x: int, p: int)
    requires p >= 1
    ensures x / p < 0 <==> x < 0
  {
    assert x == (x / p) * p + x % p;
    if x / p >= 0 {
      MulMono(0, 0, x / p, p);
    } else {
      MulLe(x / p, -1, p);
    }
  }

  /** A quotient in the low word with its sign spread over the high word. */
  lemma SignFilled(w: u64, q: int)
    requires SignedWord(w) == q
    ensures Signed(Words(w, if q < 0 then BASE64 - 1 else 0).Value()) == q
  {
  }

  lemma SignedShiftWhole(low: u64, high: u64, c: nat)
    requires 64 <= c < 128
    ensures var w := Words(SignedShr(high, c % 64), if high < BASE64 / 2 then 0 else BASE64 - 1);
            Signed(w.Value()) == Signed(Words(low, high).Value()) / Pow2(c)
  {
    hide Pow2, SignedShr;
    var d, s := c % 64, SignedWord(high);
    var p := Pow2(d);
    PowerSplit(c);
    SignedShrRange(high, d);
    SignOfQuotient(s, p);
    WholeQuotient(low, s, p);
    SignFilled(SignedShr(high, d), s / p);
  }

  /** Reading a word as signed does not change its low bits. */
  lemma SameRemainder(x: u64, s: int, p: int, r: int)
    requires p >= 1 && p * r == BASE64 && (s == x || s == x - BASE64)
    ensures x % p == s % p
  {
    assert x == (x / p) * p + x % p;
    Distribute(x / p, r, p);
    DivModUnique(s, p, if s == x then x / p else x / p - r, x % p);
  }

  lemma SignedShiftValue(low: u64, high: u64, c: nat)
    requires 0 < c < 64
    ensures Signed(Words(JoinRight(low, high, c), SignedShr(high, c)).Value())
            == Signed(Words(low, high).Value()) / Pow2(c)
  {
    hide Pow2, JoinRight;
    var p, r, s := Pow2(c), Pow2(64 - c), SignedWord(high);
    Pow2Add(c, 64 - c);
    PowerOfWord();
    SignedShrRange(high, c);
    SameRemainder(high, s, p, r);
    RightShiftQuotient(low, s, p, r);
  }

  /** The absolute value of the signed reading, which always fits without a sign. */
  function Magnitude(v: int): (m: int)
    requires 0 <= v < BASE128
    ensures 0 <= m <= BASE128 / 2
  {
    if Signed(v) < 0 then -Signed(v) else Signed(v)
  }

  lemma SignBit(w: Words)
    ensures w.high >= BASE64 / 2 <==> Signed(w.Value()) < 0
    ensures w.high >= BASE64 / 2 ==> -w.Value() % BASE128 == -Signed(w.Value())
  {
    var v := w.Value();
    DivModUnique(-v, BASE128, if v == 0 then 0 else -1, if v == 0 then 0 else BASE128 - v);
  }

  // ---- the value updated in place ----

  class Base128 {
    var low: u64
    var high: u64

    function Value(): (v: int)
      reads this
      ensures 0 <= v < BASE128
    {
      low + BASE64 * high
    }

    function Copy(): (w: Words)
      reads this
      ensures w.Value() == Value()
    {
      Words(low, high)
    }

    constructor (w: Words)
      ensures low == w.low && high == w.high && Value() == w.Value()
    {
      low, high := w.low, w.high;
    }

    method LeftShift(count: nat)
      requires count < 128
      modifies this
      ensures Value() == (old(Value()) * Pow2(count)) % BASE128
    {
      hide Pow2, JoinLeft, Shl;
      PowerOfNone();
      if count == 0 {
        return;
      }
      if count >= 64 {
        LeftShiftWhole(low, high, count);
        high := Shl(low, count % 64);
        low := 0;
        return;
      }
      LeftShiftValue(low, high, count);
      high := JoinLeft(low, high, count);
      low := Shl(low, count);
    }

    method UnsignedRightShift(count: nat)
      requires count < 128
      modifies this
      ensures Value() == old(Value()) / Pow2(count)
    {
      hide Pow2, JoinRight, Shr;
      PowerOfNone();
      if count == 0 {
        return;
      }
      if count >= 64 {
        RightShiftWhole(low, high, count);
        low := Shr(high, count % 64);
        high := 0;
        return;
      }
      RightShiftValue(low, high, count);
      low := JoinRight(low, high, count);
      high := Shr(high, count);
    }

    /** The right shift of _Signed128: an int64_t shift keeps the sign. */
    method SignedRightShift(count: nat)
      requires count < 128
      modifies this
      ensures Signed(Value()) == old(Signed(Value())) / Pow2(count)
    {
      hide Pow2, JoinRight, SignedShr;
      PowerOfNone();
      if count == 0 {
        return;
      }
      if count >= 64 {
        SignedShiftWhole(low, high, count);
        low := SignedShr(high, count % 64);
        high := if high < BASE64 / 2 then 0 else BASE64 - 1;
        return;
      }
      SignedShiftValue(low, high, count);
      low := JoinRight(low, high, count);
      high := SignedShr(high, count);
    }

    method Increment()
      modifies this
      ensures Value() == (old(Value()) + 1) % BASE128
    {
      low := (low + 1) % BASE64;
      if low == 0 {
        high := (high + 1) % BASE64;
      }
    }

    method Decrement()
      modifies this
      ensures Value() == (old(Value()) - 1) % BASE128
    {
      var before := low;
      low := (low - 1) % BASE64;
      if before == 0 {
        high := (high - 1) % BASE64;
      }
    }

    method Add(that: Words)
      modifies this
      ensures Value() == (old(Value()) + that.Value()) % BASE128
    {
      var (carry, sum) := AddCarry64(0, low, that.low);
      low := sum;
      var (_, sum') := AddCarry64(carry, high, that.high);
      high := sum';
    }

    method Subtract(that: Words)
      modifies this
      ensures Value() == (old(Value()) - that.Value()) % BASE128
    {
      var (borrow, difference) := SubBorrow64(0, low, that.low);
      low := difference;
      var (_, difference') := SubBorrow64(borrow, high, that.high);
      high := difference';
    }

    method Negate()
      modifies this
      ensures Value() == -old(Value()) % BASE128
    {
      var negated := new Base128(Words(0, 0));
      negated.Subtract(Copy());
      low, high := negated.low, negated.high;
    }

    /** _Strip_negative: leaves the magnitude and toggles the flag when the sign bit was set. */
    method StripNegative(flip: bool) returns (flip': bool)
      modifies this
      ensures Value() == Magnitude(old(Value()))
      ensures flip' == (flip != (old(Signed(Value())) < 0))
    {
      flip' := flip;
      SignBit(Copy());
      if high >= BASE64 / 2 {
        Negate();
        flip' := !flip;
      }
    }
  }
}
