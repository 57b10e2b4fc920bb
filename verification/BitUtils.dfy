/** The portable bit counts: binary-search leading zeros, trailing zeros and the parallel population count. */
module BitUtils {
  import opened Arith
  import opened Bits

  // ---- bit by bit ----

  function LeadingZeros(width: nat, x: nat): nat
  {
    if width == 0 || x >= Pow2(width - 1) then 0 else 1 + LeadingZeros(width - 1, x)
  }

  function TrailingZeros(width: nat, x: nat): nat
  {
    if width == 0 || x % 2 == 1 then 0 else 1 + TrailingZeros(width - 1, x / 2)
  }

  function PopCount(x: nat): nat
  {
    if x == 0 then 0 else x % 2 + PopCount(x / 2)
  }

  // ---- leading zeros ----

  lemma {:induction false} LeadingZerosBitLength(width: nat, x: nat)
    requires x < Pow2(width)
    ensures LeadingZeros(width, x) + BitLength(x) == width
  {
    if width == 0 {
      assert x == 0;
    } else if x >= Pow2(width - 1) {
      BitLengthBelow(x, width);
      BitLengthRange(x);
      if BitLength(x) < width {
        Pow2Mono(BitLength(x), width - 1);
      }
    } else {
      LeadingZerosBitLength(width - 1, x);
    }
  }

  lemma NoBits()
    ensures BitLength(0) == 0
  {
  }

  /** What the leading zeros say about the size of a word. */
  lemma LeadingZerosRange(width: nat, x: nat)
    requires x < Pow2(width)
    ensures x == 0 ==> LeadingZeros(width, x) == width
    ensures x > 0 ==> LeadingZeros(width, x) < width
    ensures x > 0 ==> Pow2(width - 1 - LeadingZeros(width, x)) <= x < Pow2(width - LeadingZeros(width, x))
  {
    hide BitLength, LeadingZeros, Pow2;
    LeadingZerosBitLength(width, x);
    if x > 0 {
      BitLengthRange(x);
    } else {
      NoBits();
    }
  }

  lemma HalfPower(k: nat)
    ensures k > 0 ==> Pow2(k) == 2 * Pow2(k - 1) && Pow2(k) / 2 == Pow2(k - 1) > 0
    ensures k == 0 ==> Pow2(k) == 1
  {
  }

  lemma BitLengthOfBit(bit: nat)
    ensures Pow2(1) == 2
    ensures bit < 2 ==> BitLength(bit) == bit
  {
    assert BitLength(0) == 0 && BitLength(1) == 1 + BitLength(0);
  }

  /** Binary search for the highest set bit of a word of 2^e bits. */
  method CountlZeroFallback(e: nat, value: nat) returns (r: nat)
    requires e >= 1 && value < Pow2(Pow2(e))
    ensures r == LeadingZeros(Pow2(e), value)
  {
    var width: nat := Pow2(e);
    var val: nat := value;
    var nx: nat := width;
    var cx: nat := width / 2;
    ghost var j: nat := e - 1;
    LeadingZerosBitLength(width, value);
    hide Pow2, BitLength, LeadingZeros;
    HalfPower(e);
    while true
      invariant j <= e - 1 && cx == Pow2(j) && val < Pow2(2 * cx)
      invariant 2 * cx <= nx <= width && BitLength(value) == width - nx + BitLength(val)
      decreases cx
    {
      var yx := ShiftRight(val, cx);
      ShiftRightZero(val, cx);
      ShiftRightBound(val, cx, cx);
      if yx != 0 {
        BitLengthShift(val, cx);
        nx := nx - cx;
        val := yx;
      }
      HalfPower(j);
      cx := cx / 2;
      if cx == 0 {
        break;
      }
      j := j - 1;
    }
    BitLengthOfBit(val);
    r := nx - val;
  }

  // ---- trailing zeros ----

  /** ~x in a word of the given width. */
  function Complement(width: nat, x: nat): nat
    requires x < Pow2(width)
  {
    Pow2(width) - 1 - x
  }

  /** x - 1 in a word of the given width. */
  function Predecessor(width: nat, x: nat): nat
    requires x < Pow2(width)
  {
    if x == 0 then Pow2(width) - 1 else x - 1
  }

  lemma AndStep(a: nat, b: nat)
    ensures BitAnd(a, b) == (a % 2) * (b % 2) + 2 * BitAnd(a / 2, b / 2)
  {
  }

  lemma {:induction false} AndComplement(width: nat, x: nat)
    requires x < Pow2(width)
    ensures BitAnd(Complement(width, x), x) == 0
  {
    if width > 0 {
      AndComplement(width - 1, x / 2);
      AndStep(Complement(width, x), x);
      assert Complement(width, x) / 2 == Complement(width - 1, x / 2);
    }
  }

  lemma ComplementHalf(width: nat, x: nat)
    requires width > 0 && x < Pow2(width)
    ensures x / 2 < Pow2(width - 1)
    ensures Complement(width, x) / 2 == Complement(width - 1, x / 2)
    ensures Complement(width, x) % 2 == 1 - x % 2
    ensures x % 2 == 0 ==> Predecessor(width, x) / 2 == Predecessor(width - 1, x / 2) && Predecessor(width, x) % 2 == 1
    ensures x % 2 == 1 ==> Predecessor(width, x) / 2 == x / 2 && Predecessor(width, x) % 2 == 0
  {
  }

  lemma AndOfNothing()
    ensures BitAnd(Complement(0, 0), Predecessor(0, 0)) == 0
  {
  }

  /** ~x & (x - 1) has ones exactly where x has its trailing zeros. */
  lemma {:induction false} TrailingMask(width: nat, x: nat)
    requires x < Pow2(width)
    ensures TrailingZeros(width, x) <= width
    ensures BitAnd(Complement(width, x), Predecessor(width, x)) == Pow2(TrailingZeros(width, x)) - 1
  {
    hide BitAnd, Complement, Predecessor;
    if width == 0 {
      assert BitAnd(Complement(0, 0), Predecessor(0, 0)) == 0 by { AndOfNothing(); }
    } else {
      ComplementHalf(width, x);
      AndStep(Complement(width, x), Predecessor(width, x));
      if x % 2 == 1 {
        AndComplement(width - 1, x / 2);
      } else {
        TrailingMask(width - 1, x / 2);
      }
    }
  }

  lemma {:induction false} BitLengthOnes(k: nat)
    ensures BitLength(Pow2(k) - 1) == k
  {
    if k > 0 {
      BitLengthOnes(k - 1);
    }
  }

  lemma EvenBits(x: nat, p: int)
    requires p > 0 && x % 2 == 0 && x / 2 % p == 0
    ensures x % (2 * p) == 0 && x / (2 * p) == x / 2 / p
  {
    DivMod(x / 2, p);
    var q := x / 2 / p;
    Associate(2, q, p);
    DivModUnique(x, 2 * p, q, 0);
  }

  /** Nothing is set below the trailing zeros, and the next bit is. */
  lemma {:induction false} TrailingZerosMeaning(width: nat, x: nat)
    requires x < Pow2(width)
    ensures x == 0 ==> TrailingZeros(width, x) == width
    ensures x > 0 ==> var p := Pow2(TrailingZeros(width, x)); x % p == 0 && x / p % 2 == 1
  {
    hide Pow2;
    if width > 0 {
      Pow2Step(width);
      if x % 2 == 0 {
        TrailingZerosMeaning(width - 1, x / 2);
        var t := TrailingZeros(width - 1, x / 2);
        assert TrailingZeros(width, x) == t + 1;
        Pow2Step(t + 1);
        if x > 0 {
          EvenBits(x, Pow2(t));
        }
      } else {
        SmallPowers();
      }
    } else {
      SmallPowers();
    }
  }

  method CountrZeroFallback(e: nat, value: nat) returns (r: nat)
    requires e >= 1 && value < Pow2(Pow2(e))
    ensures r == TrailingZeros(Pow2(e), value)
    ensures value == 0 ==> r == Pow2(e)
    ensures value > 0 ==> value % Pow2(r) == 0 && value / Pow2(r) % 2 == 1
  {
    var width := Pow2(e);
    var mask := BitAnd(Complement(width, value), Predecessor(width, value));
    TrailingMask(width, value);
    Pow2Mono(TrailingZeros(width, value), width);
    var leading := CountlZeroFallback(e, mask);
    LeadingZerosBitLength(width, mask);
    BitLengthOnes(TrailingZeros(width, value));
    r := width - leading;
    TrailingZerosMeaning(width, value);
  }

  // ---- population count ----

  /** 0x55...55, 0x33...33, 0x0F...0F and 0x01...01, one group per recursion. */
  function Mask5(pairs: nat): nat { if pairs == 0 then 0 else 1 + 4 * Mask5(pairs - 1) }
  function Mask3(nibbles: nat): nat { if nibbles == 0 then 0 else 3 + 16 * Mask3(nibbles - 1) }
  function Mask0F(bytes: nat): nat { if bytes == 0 then 0 else 15 + 256 * Mask0F(bytes - 1) }
  function Mask01(bytes: nat): nat { if bytes == 0 then 0 else 1 + 256 * Mask01(bytes - 1) }

  /** Every pair, nibble or byte of x replaced by the number of its set bits. */
  function Pairs(x: nat, n: nat): nat { if n == 0 then 0 else PopCount(x % 4) + 4 * Pairs(x / 4, n - 1) }
  function Nibbles(x: nat, n: nat): nat { if n == 0 then 0 else PopCount(x % 16) + 16 * Nibbles(x / 16, n - 1) }
  function Bytes(x: nat, n: nat): nat { if n == 0 then 0 else PopCount(x % 256) + 256 * Bytes(x / 256, n - 1) }

  function ByteSum(v: nat, n: nat): nat { if n == 0 then 0 else v % 256 + ByteSum(v / 256, n - 1) }

  function Pow256(n: nat): (p: int) ensures p >= 1 { if n == 0 then 1 else 256 * Pow256(n - 1) }

  lemma PopCountStep(x: nat)
    ensures PopCount(x) == x % 2 + PopCount(x / 2)
  {
  }

  lemma PopCountOfBit(bit: nat)
    requires bit < 2
    ensures PopCount(bit) == bit
  {
  }

  lemma HalfSum(a: nat, low: nat)
    ensures (2 * a + low) / 2 == a + low / 2 && (2 * a + low) % 2 == low % 2
  {
  }

  /** The population count splits at any bit. */
  lemma {:induction false} PopCountSplit(high: nat, low: nat, k: nat)
    requires low < Pow2(k)
    ensures 0 <= high * Pow2(k) && PopCount(high * Pow2(k) + low) == PopCount(high) + PopCount(low)
  {
    hide PopCount, Pow2;
    MulMono(0, 0, high, Pow2(k));
    if k > 0 {
      var a := high * Pow2(k - 1);
      MulMono(0, 0, high, Pow2(k - 1));
      Pow2Step(k);
      Associate(high, 2, Pow2(k - 1));
      PopCountSplit(high, low / 2, k - 1);
      HalfSum(a, low);
      PopCountStep(2 * a + low);
      PopCountStep(low);
    } else {
      SmallPowers();
      PopCountOfBit(0);
    }
  }

  /** The places of the set bits below k. */
  function SetBits(x: nat, k: nat): set<nat>
  {
    set i: nat | i < k && x / Pow2(i) % 2 == 1
  }

  lemma TopBit(x: nat, k: nat)
    requires k > 0
    ensures 0 <= x / Pow2(k - 1) && 0 <= x % Pow2(k - 1) < Pow2(k - 1)
    ensures x % Pow2(k) == (x / Pow2(k - 1) % 2) * Pow2(k - 1) + x % Pow2(k - 1)
  {
    Pow2Step(k);
    hide Pow2;
    var p := Pow2(k - 1);
    DivMod(x, p);
    var q, b := x / p / 2, x / p % 2;
    Distribute(2 * q, b, p);
    Associate(q, 2, p);
    MulMono(0, 0, b, p);
    MulLe(b, 1, p);
    DivModUnique(x, 2 * p, q, b * p + x % p);
  }

  lemma {:induction false} SetBitsCounted(x: nat, k: nat)
    ensures 0 <= x % Pow2(k) && PopCount(x % Pow2(k)) == |SetBits(x, k)|
  {
    hide PopCount, Pow2;
    if k == 0 {
      SmallPowers();
      PopCountOfBit(0);
      assert SetBits(x, 0) == {};
    } else {
      SetBitsCounted(x, k - 1);
      TopBit(x, k);
      PopCountSplit(x / Pow2(k - 1) % 2, x % Pow2(k - 1), k - 1);
      PopCountOfBit(x / Pow2(k - 1) % 2);
      if x / Pow2(k - 1) % 2 == 1 {
        assert SetBits(x, k) == SetBits(x, k - 1) + {k - 1};
      } else {
        assert SetBits(x, k) == SetBits(x, k - 1);
      }
    }
  }

  /** The population count is the number of set bits. */
  lemma PopCountMeaning(width: nat, x: nat)
    requires x < Pow2(width)
    ensures PopCount(x) == |set i: nat | i < width && x / Pow2(i) % 2 == 1|
  {
    SetBitsCounted(x, width);
    DivModUnique(x, Pow2(width), 0, x);
    assert SetBits(x, width) == set i: nat | i < width && x / Pow2(i) % 2 == 1;
  }

  lemma PairParts(x: nat)
    ensures x % 4 / 2 == x / 2 % 2 && x % 4 % 2 == x % 2
  {
    DivModUnique(x, 4, x / 2 / 2, (x / 2 % 2) * 2 + x % 2);
  }

  lemma PopCountPair(x: nat)
    ensures PopCount(x % 4) == x % 2 + x / 2 % 2 <= 2
  {
    hide PopCount;
    PairParts(x);
    PopCountStep(x % 4);
    PopCountOfBit(x / 2 % 2);
  }

  lemma NibbleParts(x: nat)
    ensures x % 16 == (x / 4 % 4) * 4 + x % 4
  {
    DivModUnique(x, 16, x / 4 / 4, (x / 4 % 4) * 4 + x % 4);
  }

  lemma PopCountNibble(x: nat)
    ensures PopCount(x % 16) == PopCount(x % 4) + PopCount(x / 4 % 4)
    ensures PopCount(x % 16) <= 4
  {
    hide PopCount, Pow2;
    SmallPowers();
    NibbleParts(x);
    PopCountSplit(x / 4 % 4, x % 4, 2);
    PopCountPair(x);
    PopCountPair(x / 4);
  }

  lemma ByteParts(x: nat)
    ensures x % 256 == (x / 16 % 16) * 16 + x % 16
  {
    DivModUnique(x, 256, x / 16 / 16, (x / 16 % 16) * 16 + x % 16);
  }

  lemma NibbleBound(x: nat)
    ensures PopCount(x % 16) <= 4
  {
    hide PopCount;
    PopCountNibble(x);
  }

  lemma PopCountByte(x: nat)
    ensures PopCount(x % 256) == PopCount(x % 16) + PopCount(x / 16 % 16)
    ensures PopCount(x % 256) <= 8
  {
    hide PopCount, Pow2;
    SmallPowers();
    ByteParts(x);
    PopCountSplit(x / 16 % 16, x % 16, 4);
    NibbleBound(x);
    NibbleBound(x / 16);
  }

  lemma AndZero(a: nat, b: nat)
    requires a == 0 || b == 0
    ensures BitAnd(a, b) == 0
  {
  }

  lemma PairsStep(x: nat, n: nat)
    requires n > 0
    ensures Pairs(x, n) == PopCount(x % 4) + 4 * Pairs(x / 4, n - 1)
  {
  }

  lemma Mask5Step(pairs: nat)
    requires pairs > 0
    ensures Mask5(pairs) == 1 + 4 * Mask5(pairs - 1)
  {
  }

  lemma AndHalves(a: nat, bit: nat, b: nat, bit': nat)
    requires bit < 2 && bit' < 2
    ensures BitAnd(2 * a + bit, 2 * b + bit') == bit * bit' + 2 * BitAnd(a, b)
  {
    AndStep(2 * a + bit, 2 * b + bit');
  }

  /** Every second bit of x: one bit kept and one cleared for each pair. */
  lemma AndPair(x: nat, mask: nat)
    ensures BitAnd(x / 2, 1 + 4 * mask) == x / 2 % 2 + 4 * BitAnd(x / 4 / 2, mask)
  {
    hide BitAnd;
    AndHalves(x / 4, x / 2 % 2, 2 * mask, 1);
    AndHalves(x / 4 / 2, x / 4 % 2, mask, 0);
  }

  lemma NoPairs(x: nat)
    ensures BitAnd(x / 2, Mask5(0)) == 0 && Pairs(x, 0) == 0 && Pow2(2 * 0) == 1
  {
    assert Mask5(0) == 0;
    AndZero(x / 2, 0);
  }

  lemma Pow2Pair(n: nat)
    requires n > 0
    ensures Pow2(2 * n) == 4 * Pow2(2 * (n - 1))
  {
    hide Pow2;
    var k := 2 * (n - 1);
    assert 2 * n == k + 2;
    Pow2Step(k + 2);
    Pow2Step(k + 1);
  }

  lemma {:induction false} PairStep(x: nat, n: nat)
    requires x < Pow2(2 * n)
    ensures BitAnd(x / 2, Mask5(n)) + Pairs(x, n) == x
  {
    hide BitAnd, PopCount, Pow2, Mask5, Pairs;
    if n > 0 {
      Pow2Pair(n);
      PairStep(x / 4, n - 1);
      PopCountPair(x);
      PairsStep(x, n);
      Mask5Step(n);
      AndPair(x, Mask5(n - 1));
    } else {
      NoPairs(x);
    }
  }

  /** Four bits at a time, each kept or cleared. */
  lemma AndBits(high: nat, b0: nat, b1: nat, b2: nat, b3: nat, mask: nat, m0: nat, m1: nat, m2: nat, m3: nat)
    requires b0 < 2 && b1 < 2 && b2 < 2 && b3 < 2 && m0 < 2 && m1 < 2 && m2 < 2 && m3 < 2
    ensures BitAnd(16 * high + 8 * b3 + 4 * b2 + 2 * b1 + b0, 16 * mask + 8 * m3 + 4 * m2 + 2 * m1 + m0)
            == b0 * m0 + 2 * (b1 * m1) + 4 * (b2 * m2) + 8 * (b3 * m3) + 16 * BitAnd(high, mask)
  {
    hide BitAnd;
    AndHalves(8 * high + 4 * b3 + 2 * b2 + b1, b0, 8 * mask + 4 * m3 + 2 * m2 + m1, m0);
    AndHalves(4 * high + 2 * b3 + b2, b1, 4 * mask + 2 * m3 + m2, m1);
    AndHalves(2 * high + b3, b2, 2 * mask + m3, m2);
    AndHalves(high, b3, mask, m3);
  }

  lemma NibbleBits(low: nat) returns (b0: nat, b1: nat, b2: nat, b3: nat)
    requires low < 16
    ensures b0 < 2 && b1 < 2 && b2 < 2 && b3 < 2 && low == 8 * b3 + 4 * b2 + 2 * b1 + b0 && low % 4 == 2 * b1 + b0
  {
    b0, b1, b2, b3 := low % 2, low / 2 % 2, low / 4 % 2, low / 8;
  }

  lemma AndNibble(high: nat, low: nat, mask: nat)
    requires low < 16
    ensures BitAnd(16 * high + low, 3 + 16 * mask) == low % 4 + 16 * BitAnd(high, mask)
    ensures BitAnd(16 * high + low, 15 + 16 * mask) == low + 16 * BitAnd(high, mask)
  {
    hide BitAnd;
    var b0, b1, b2, b3 := NibbleBits(low);
    AndBits(high, b0, b1, b2, b3, mask, 1, 1, 0, 0);
    AndBits(high, b0, b1, b2, b3, mask, 1, 1, 1, 1);
  }

  lemma PairsOfNibble(x: nat, n: nat)
    requires n > 0
    ensures Pairs(x, 2 * n) == PopCount(x % 4) + 4 * PopCount(x / 4 % 4) + 16 * Pairs(x / 16, 2 * (n - 1))
    ensures PopCount(x % 4) <= 2 && PopCount(x / 4 % 4) <= 2
    ensures PopCount(x % 4) + PopCount(x / 4 % 4) == PopCount(x % 16)
  {
    hide PopCount;
    PopCountNibble(x);
    PopCountPair(x);
    PopCountPair(x / 4);
    assert x / 4 / 4 == x / 16 && 2 * n - 1 - 1 == 2 * (n - 1);
    assert Pairs(x / 4, 2 * n - 1) == PopCount(x / 4 % 4) + 4 * Pairs(x / 16, 2 * (n - 1));
  }

  /** Both pair counts of the lowest nibble meet; the higher ones do not disturb them. */
  lemma NibbleAnd(p0: nat, p1: nat, high: nat, mask: nat, v: nat)
    requires p0 <= 2 && p1 <= 2 && v == p0 + 4 * p1 + 16 * high
    ensures BitAnd(v, 3 + 16 * mask) + BitAnd(v / 4, 3 + 16 * mask)
            == p0 + p1 + 16 * (BitAnd(high, mask) + BitAnd(high / 4, mask))
  {
    hide BitAnd;
    AndNibble(high, p0 + 4 * p1, mask);
    AndNibble(high / 4, p1 + 4 * (high % 4), mask);
    assert v / 4 == 16 * (high / 4) + (p1 + 4 * (high % 4));
  }

  lemma Mask3Step(nibbles: nat)
    requires nibbles > 0
    ensures Mask3(nibbles) == 3 + 16 * Mask3(nibbles - 1)
  {
  }

  lemma NibblesStep(x: nat, n: nat)
    requires n > 0
    ensures Nibbles(x, n) == PopCount(x % 16) + 16 * Nibbles(x / 16, n - 1)
  {
  }

  lemma NoNibbles(x: nat, v: nat)
    ensures BitAnd(v, Mask3(0)) == 0 && BitAnd(v / 4, Mask3(0)) == 0 && Nibbles(x, 0) == 0
  {
    assert Mask3(0) == 0;
    AndZero(v, 0);
    AndZero(v / 4, 0);
  }

  lemma {:induction false} NibbleStep(x: nat, n: nat)
    ensures var v := Pairs(x, 2 * n);
            BitAnd(v, Mask3(n)) + BitAnd(v / 4, Mask3(n)) == Nibbles(x, n)
  {
    hide BitAnd, PopCount, Pairs, Mask3, Nibbles;
    if n > 0 {
      NibbleStep(x / 16, n - 1);
      PairsOfNibble(x, n);
      Mask3Step(n);
      NibblesStep(x, n);
      NibbleAnd(PopCount(x % 4), PopCount(x / 4 % 4), Pairs(x / 16, 2 * (n - 1)), Mask3(n - 1), Pairs(x, 2 * n));
    } else {
      NoNibbles(x, Pairs(x, 0));
    }
  }

  lemma NibblesOfByte(x: nat, n: nat)
    requires n > 0
    ensures Nibbles(x, 2 * n) == PopCount(x % 16) + 16 * PopCount(x / 16 % 16) + 256 * Nibbles(x / 256, 2 * (n - 1))
    ensures PopCount(x % 16) <= 4 && PopCount(x / 16 % 16) <= 4
    ensures PopCount(x % 16) + PopCount(x / 16 % 16) == PopCount(x % 256)
  {
    hide PopCount;
    PopCountByte(x);
    PopCountNibble(x);
    PopCountNibble(x / 16);
    assert x / 16 / 16 == x / 256 && 2 * n - 1 - 1 == 2 * (n - 1);
    assert Nibbles(x / 16, 2 * n - 1) == PopCount(x / 16 % 16) + 16 * Nibbles(x / 256, 2 * (n - 1));
  }

  lemma AndClearNibble(high: nat, low: nat, mask: nat)
    requires low < 16
    ensures BitAnd(16 * high + low, 16 * mask) == 16 * BitAnd(high, mask)
  {
    hide BitAnd;
    var b0, b1, b2, b3 := NibbleBits(low);
    AndBits(high, b0, b1, b2, b3, mask, 0, 0, 0, 0);
  }

  /** Both nibble counts of the lowest byte meet below the mask; the next nibble is cleared. */
  lemma ByteAnd(n0: nat, n1: nat, high: nat, mask: nat, v: nat)
    requires n0 <= 4 && n1 <= 4 && high % 16 <= 4 && v == n0 + 16 * n1 + 256 * high
    ensures BitAnd(v + v / 16, 15 + 256 * mask) == n0 + n1 + 256 * BitAnd(high + high / 16, mask)
  {
    hide BitAnd;
    var rest := high + high / 16;
    assert v / 16 == n1 + 16 * high;
    assert n1 + high + 16 * high == 16 * rest + (n1 + high % 16);
    AndNibble(n1 + high + 16 * high, n0 + n1, 16 * mask);
    AndClearNibble(rest, n1 + high % 16, mask);
  }

  lemma LowNibble(x: nat, n: nat)
    ensures Nibbles(x, n) % 16 <= 4
  {
    hide PopCount;
    NibbleBound(x);
  }

  lemma BytesStep(x: nat, n: nat)
    requires n > 0
    ensures Bytes(x, n) == PopCount(x % 256) + 256 * Bytes(x / 256, n - 1)
    ensures Mask0F(n) == 15 + 256 * Mask0F(n - 1)
  {
  }

  lemma NoBytes(x: nat, v: nat)
    ensures BitAnd(v + v / 16, Mask0F(0)) == 0 && Bytes(x, 0) == 0
  {
    assert Mask0F(0) == 0;
    AndZero(v + v / 16, 0);
  }

  lemma {:induction false} ByteStep(x: nat, n: nat)
    ensures var v := Nibbles(x, 2 * n);
            BitAnd(v + v / 16, Mask0F(n)) == Bytes(x, n)
  {
    hide BitAnd, PopCount, Nibbles, Bytes, Mask0F;
    if n > 0 {
      ByteStep(x / 256, n - 1);
      NibblesOfByte(x, n);
      BytesStep(x, n);
      LowNibble(x / 256, 2 * (n - 1));
      ByteAnd(PopCount(x % 16), PopCount(x / 16 % 16), Nibbles(x / 256, 2 * (n - 1)), Mask0F(n - 1), Nibbles(x, 2 * n));
    } else {
      NoBytes(x, Nibbles(x, 0));
    }
  }

  lemma Pow2Byte(n: nat)
    requires n > 0
    ensures Pow2(8 * n) == 256 * Pow2(8 * (n - 1))
  {
    hide Pow2;
    Pow2Add(8, 8 * (n - 1));
    WordSizes();
    assert 8 + 8 * (n - 1) == 8 * n;
  }

  lemma ByteSumStep(v: nat, n: nat)
    requires n > 0
    ensures ByteSum(v, n) == v % 256 + ByteSum(v / 256, n - 1)
  {
  }

  lemma NoCounts(x: nat)
    ensures ByteSum(Bytes(x, 0), 0) == PopCount(0) == 0
  {
  }

  /** The bytes of the counts add up to the population count. */
  lemma {:induction false} ByteSumCounts(x: nat, n: nat)
    requires x < Pow2(8 * n)
    ensures ByteSum(Bytes(x, n), n) == PopCount(x)
  {
    hide PopCount, Pow2, ByteSum, Bytes;
    if n > 0 {
      Pow2Byte(n);
      ByteSumCounts(x / 256, n - 1);
      BytesStep(x, n);
      PopCountByte(x);
      ByteSumStep(Bytes(x, n), n);
      WordSizes();
      PopCountSplit(x / 256, x % 256, 8);
    } else {
      WordSizes();
      NoCounts(x);
    }
  }

  predicate SmallBytes(v: nat, n: nat)
  {
    if n == 0 then v == 0 else v % 256 <= 8 && SmallBytes(v / 256, n - 1)
  }

  lemma {:induction false} CountsAreSmall(x: nat, n: nat)
    ensures SmallBytes(Bytes(x, n), n)
  {
    hide PopCount;
    if n > 0 {
      PopCountByte(x);
      CountsAreSmall(x / 256, n - 1);
    }
  }

  lemma {:induction false} MaskIsRepeated(n: nat)
    ensures 255 * Mask01(n) == Pow256(n) - 1
    ensures Mask01(n + 1) == Mask01(n) + Pow256(n)
  {
    if n > 0 {
      MaskIsRepeated(n - 1);
    }
  }

  lemma SingleByte(v: nat)
    requires SmallBytes(v, 1)
    ensures v * Mask01(1) == Pow256(0) * ByteSum(v, 1)
    ensures Mask01(0) == 0 && Pow256(0) == 1 && ByteSum(v, 1) == v <= 8
  {
    assert v / 256 == 0 && SmallBytes(0, 0);
    assert ByteSum(0, 0) == 0 && Mask01(0) == 0;
    assert Mask01(1) == 1;
  }

  lemma ByteUnfold(v: nat, n: nat)
    requires n >= 2 && SmallBytes(v, n)
    ensures v % 256 <= 8 && SmallBytes(v / 256, n - 1)
    ensures ByteSum(v, n) == v % 256 + ByteSum(v / 256, n - 1)
    ensures Pow256(n) == 256 * Pow256(n - 1) && Pow256(n - 1) == 256 * Pow256(n - 2)
    ensures Mask01(n - 1) == 1 + 256 * Mask01(n - 2)
  {
  }

  lemma BelowBound(low: nat, mask: nat, mask': nat, b: nat, n: nat)
    requires low <= 8 && 2 <= n <= 31 && mask == 1 + 256 * mask' && b <= 8 * (n - 1) * mask'
    ensures low * mask + 256 * b <= 8 * n * mask
    ensures 8 * n * mask <= 255 * mask
  {
    MulLe(low, 8, mask);
    MulLe(256 * mask', mask, 8 * (n - 1));
    Associate(8 * (n - 1), 256, mask');
    Distribute(8 * (n - 1), 8, mask);
    MulLe(8 * n, 255, mask);
  }

  lemma SumArithmetic(v: nat, low: nat, high: nat, mask: nat, mask': nat, p': nat, p: nat, p256: nat,
                      b: nat, a: nat, sum: nat, sum': nat, below: nat, above: nat)
    requires v == low + 256 * high && mask' == mask + p && p == 256 * p' && p256 == 256 * p && sum' == low + sum
    requires below == low * mask + 256 * b && above == a + high
    requires high * mask == b + p' * sum + p * a
    ensures v * mask' == below + p * sum' + p256 * above
  {
    Distribute(mask, p, v);
    Distribute(low, 256 * high, mask);
    Associate(256, high, mask);
    Distribute(low, 256 * high, p);
    Associate(256, high, p);
    Associate(256, p', sum);
    Associate(256, p, a);
    Distribute(low, sum, p);
    Distribute(a, high, 256 * p);
  }

  /** One byte more: its product joins the bytes below the sum, which still do not carry into it. */
  lemma TopByteStep(v: nat, low: nat, high: nat, n: nat, mask: nat, mask': nat, mask0: nat, p': nat, p: nat, p256: nat,
                    b: nat, a: nat, sum: nat, sum': nat)
    returns (below: nat, above: nat)
    requires 2 <= n <= 31 && low <= 8 && v == low + 256 * high
    requires mask == 1 + 256 * mask0 && mask' == mask + p && 255 * mask == p - 1
    requires p == 256 * p' && p256 == 256 * p && sum' == low + sum
    requires high * mask == b + p' * sum + p * a && b <= 8 * (n - 1) * mask0
    ensures v * mask' == below + p * sum' + p256 * above
    ensures below <= 8 * n * mask && below < p
  {
    below := low * mask + 256 * b;
    above := a + high;
    BelowBound(low, mask, mask0, b, n);
    SumArithmetic(v, low, high, mask, mask', p', p, p256, b, a, sum, sum', below, above);
  }

  /**
    Multiplying by one in each byte puts the sum of all bytes in the highest byte: everything below
    stays below it, so nothing is carried into the sum.
   */
  lemma {:induction false} SumInTopByte(v: nat, n: nat) returns (below: nat, above: nat)
    requires 1 <= n <= 31 && SmallBytes(v, n)
    ensures v * Mask01(n) == below + Pow256(n - 1) * ByteSum(v, n) + Pow256(n) * above
    ensures below <= 8 * n * Mask01(n - 1) && below < Pow256(n - 1)
    ensures ByteSum(v, n) <= 8 * n
  {
    if n == 1 {
      below, above := 0, 0;
      SingleByte(v);
    } else {
      hide SmallBytes, ByteSum, Mask01, Pow256;
      var low, high := v % 256, v / 256;
      ByteUnfold(v, n);
      var b, a := SumInTopByte(high, n - 1);
      MaskIsRepeated(n - 1);
      below, above := TopByteStep(v, low, high, n, Mask01(n - 1), Mask01(n), Mask01(n - 2),
                                  Pow256(n - 2), Pow256(n - 1), Pow256(n), b, a, ByteSum(high, n - 1), ByteSum(v, n));
    }
  }

  lemma {:induction false} Pow256IsPow2(n: nat)
    ensures Pow256(n) == Pow2(8 * n)
  {
    if n > 0 {
      hide Pow2;
      Pow256IsPow2(n - 1);
      Pow2Byte(n);
    }
  }

  lemma TopByte(v: nat, n: nat)
    requires 1 <= n <= 31 && SmallBytes(v, n)
    ensures (v * Mask01(n)) % Pow2(8 * n) / Pow2(8 * (n - 1)) == ByteSum(v, n)
  {
    hide SmallBytes, ByteSum, Mask01, Pow256, Pow2;
    var below, above := SumInTopByte(v, n);
    Pow256IsPow2(n);
    Pow256IsPow2(n - 1);
    Pow2Add(8, 8 * (n - 1));
    WordSizes();
    var top, p := ByteSum(v, n), Pow2(8 * (n - 1));
    assert Pow2(8 * n) == 256 * p;
    MulMono(0, 0, p, top);
    MulLe(top, 255, p);
    DivModUnique(v * Mask01(n), 256 * p, above, below + p * top);
    DivModUnique(below + p * top, p, top, below);
  }

  lemma Pow2Nibble(n: nat)
    requires n > 0
    ensures Pow2(4 * n) == 16 * Pow2(4 * (n - 1))
  {
    hide Pow2;
    SmallPowers();
    assert 4 + 4 * (n - 1) == 4 * n;
    Pow2Add(4, 4 * (n - 1));
  }

  /** Counts of at most four in every nibble stay well below the word. */
  lemma {:induction false} NibblesBelow(x: nat, n: nat)
    ensures 15 * Nibbles(x, n) <= 4 * (Pow2(4 * n) - 1)
  {
    hide Pow2, PopCount, Nibbles;
    if n > 0 {
      NibblesBelow(x / 16, n - 1);
      NibblesStep(x, n);
      NibbleBound(x);
      Pow2Nibble(n);
    } else {
      NoNibbles(x, 0);
      SmallPowers();
    }
  }

  lemma {:induction false} BytesBelow(x: nat, n: nat)
    ensures 255 * Bytes(x, n) <= 8 * (Pow2(8 * n) - 1)
  {
    hide Pow2, PopCount, Bytes;
    if n > 0 {
      BytesBelow(x / 256, n - 1);
      BytesStep(x, n);
      PopCountByte(x);
      Pow2Byte(n);
    } else {
      NoBytes(x, 0);
      SmallPowers();
    }
  }

  /** The conversion to the word type. */
  function Truncate(v: nat, bytes: nat): nat
  {
    v % Pow2(8 * bytes)
  }

  lemma TruncateSmall(v: nat, bytes: nat)
    requires v < Pow2(8 * bytes)
    ensures Truncate(v, bytes) == v
  {
    hide Pow2;
    DivModUnique(v, Pow2(8 * bytes), 0, v);
  }

  lemma TruncateMeaning(v: nat, bytes: nat)
    ensures Truncate(v, bytes) == v % Pow2(8 * bytes)
  {
  }

  /** The parallel count of a word of the given number of bytes, at most 31 of them; no step but the last wraps. */
  method PopcountFallback(bytes: nat, value: nat) returns (r: nat)
    requires 1 <= bytes <= 31 && value < Pow2(8 * bytes)
    ensures r == PopCount(value)
  {
    SmallPowers();
    hide SmallBytes, ByteSum, Mask01, Mask3, Mask5, Mask0F, Pow256, BitAnd, PopCount, Pairs, Nibbles, Bytes, Pow2;
    hide Truncate;
    PairStep(value, 4 * bytes);
    var pairs: nat := value - BitAnd(ShiftRight(value, 1), Mask5(4 * bytes));
    TruncateSmall(pairs, bytes);
    var val := Truncate(pairs, bytes);
    NibbleStep(value, 2 * bytes);
    NibblesBelow(value, 2 * bytes);
    var nibbles := BitAnd(val, Mask3(2 * bytes)) + BitAnd(ShiftRight(val, 2), Mask3(2 * bytes));
    TruncateSmall(nibbles, bytes);
    val := Truncate(nibbles, bytes);
    ByteStep(value, bytes);
    BytesBelow(value, bytes);
    TruncateSmall(val + ShiftRight(val, 4), bytes);
    val := BitAnd(Truncate(val + ShiftRight(val, 4), bytes), Mask0F(bytes));
    TruncateSmall(val, bytes);
    val := Truncate(val, bytes);
    CountsAreSmall(value, bytes);
    ByteSumCounts(value, bytes);
    TopByte(val, bytes);
    TruncateMeaning(val * Mask01(bytes), bytes);
    val := Truncate(val * Mask01(bytes), bytes);
    r := ShiftRight(val, 8 * bytes - 8);
  }

  lemma Mask5Byte(n: nat)
    requires n > 0
    ensures Mask5(4 * n) == 85 + 256 * Mask5(4 * (n - 1))
  {
    hide Mask5;
    var k := 4 * (n - 1);
    Mask5Step(k + 1);
    Mask5Step(k + 2);
    Mask5Step(k + 3);
    Mask5Step(k + 4);
    assert k + 4 == 4 * n;
  }

  lemma Mask3Byte(n: nat)
    requires n > 0
    ensures Mask3(2 * n) == 51 + 256 * Mask3(2 * (n - 1))
  {
    hide Mask3;
    var k := 2 * (n - 1);
    Mask3Step(k + 1);
    Mask3Step(k + 2);
    assert k + 2 == 2 * n;
  }

  lemma NoMasks()
    ensures Mask5(4 * 0) == Mask3(2 * 0) == Mask0F(0) == Mask01(0) == 0 && Pow2(8 * 0) == 1
  {
  }

  lemma ByteMasksStep(n: nat)
    requires n > 0
    ensures Mask0F(n) == 15 + 256 * Mask0F(n - 1) && Mask01(n) == 1 + 256 * Mask01(n - 1)
  {
  }

  /** Each mask is the word of all ones divided by the repeated group. */
  lemma {:induction false} MaskQuotients(n: nat)
    ensures 3 * Mask5(4 * n) == 5 * Mask3(2 * n) == 17 * Mask0F(n) == 255 * Mask01(n) == Pow2(8 * n) - 1
  {
    hide Pow2, Mask5, Mask3, Mask0F, Mask01;
    if n > 0 {
      MaskQuotients(n - 1);
      Pow2Byte(n);
      Mask5Byte(n);
      Mask3Byte(n);
      ByteMasksStep(n);
    } else {
      NoMasks();
    }
  }

  /** A mask is its lower part and its upper part, shifted: truncating it to n bytes leaves the mask of n bytes. */
  lemma TruncatedMask(group: int, whole: int, part: int, rest: int, p: int, q: int)
    requires group > 0 && p >= 1 && group * whole == p * q - 1 && group * part == p - 1 && group * rest == q - 1
    ensures whole % p == part
  {
    Associate(group, rest, p);
    Distribute(q, 1, p);
    Distribute(rest * p, part, group);
    Cancel(whole, rest * p + part, group);
    if part < 0 { MulLe(part, -1, group); }
    if part >= p { MulLe(p, part, group); MulLe(1, group, p); }
    DivModUnique(whole, p, rest, part);
  }

  /** The constants of the code cut down to n bytes are the masks of a word of n bytes. */
  lemma MasksTruncate(n: nat)
    requires n <= 8
    ensures Mask5(32) % Pow2(8 * n) == Mask5(4 * n) && Mask3(16) % Pow2(8 * n) == Mask3(2 * n)
    ensures Mask0F(8) % Pow2(8 * n) == Mask0F(n) && Mask01(8) % Pow2(8 * n) == Mask01(n)
  {
    hide Mask5, Mask3, Mask0F, Mask01, Pow2;
    MaskQuotients(8);
    MaskQuotients(n);
    MaskQuotients(8 - n);
    assert 8 * n + 8 * (8 - n) == 64;
    Pow2Add(8 * n, 8 * (8 - n));
    var p, q := Pow2(8 * n), Pow2(8 * (8 - n));
    TruncatedMask(3, Mask5(32), Mask5(4 * n), Mask5(4 * (8 - n)), p, q);
    TruncatedMask(5, Mask3(16), Mask3(2 * n), Mask3(2 * (8 - n)), p, q);
    TruncatedMask(17, Mask0F(8), Mask0F(n), Mask0F(8 - n), p, q);
    TruncatedMask(255, Mask01(8), Mask01(n), Mask01(8 - n), p, q);
  }

  /** The masks of a 64-bit word are the constants of the code. */
  lemma MaskConstants()
    ensures Mask5(32) == 0x5555_5555_5555_5555 && Mask3(16) == 0x3333_3333_3333_3333
    ensures Mask0F(8) == 0x0F0F_0F0F_0F0F_0F0F && Mask01(8) == 0x0101_0101_0101_0101
  {
    hide Mask5, Mask3, Mask0F, Mask01;
    MaskQuotients(8);
    WordSizes();
  }
}
