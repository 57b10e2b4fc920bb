/** Unsigned words as numbers: shifts and bitwise operators with their arithmetic meaning. */
module Bits {
  import opened Arith

  function Pow2(k: nat): (p: int)
    ensures p >= 1
  {
    if k == 0 then 1 else 2 * Pow2(k - 1)
  }

  lemma Pow2Step(k: nat)
    requires k > 0
    ensures Pow2(k) == 2 * Pow2(k - 1)
  {
  }

  lemma {:induction false} Pow2Add(j: nat, k: nat)
    ensures Pow2(j + k) == Pow2(j) * Pow2(k)
  {
    if j > 0 {
      Pow2Add(j - 1, k);
      assert j + k - 1 == j - 1 + k;
      Associate(2, Pow2(j - 1), Pow2(k));
    }
  }

  lemma {:induction false} Pow2Mono(j: nat, k: nat)
    requires j <= k
    ensures Pow2(j) <= Pow2(k)
  {
    if j < k {
      Pow2Mono(j, k - 1);
    }
  }

  lemma SmallPowers()
    ensures Pow2(0) == 1 && Pow2(1) == 2 && Pow2(2) == 4 && Pow2(4) == 16 && Pow2(5) == 32 && Pow2(6) == 64
  {
    assert Pow2(1) == 2 && Pow2(2) == 4 && Pow2(3) == 8 && Pow2(4) == 16 && Pow2(5) == 32;
  }

  lemma WordSizes()
    ensures Pow2(0) == 1 && Pow2(1) == 2 && Pow2(2) == 4 && Pow2(4) == 16 && Pow2(5) == 32 && Pow2(6) == 64
    ensures Pow2(8) == 0x100 && Pow2(16) == 0x1_0000 && Pow2(31) == 0x8000_0000 && Pow2(32) == 0x1_0000_0000
    ensures Pow2(63) == 0x8000_0000_0000_0000 && Pow2(64) == 0x1_0000_0000_0000_0000
    ensures Pow2(128) == 0x1_0000_0000_0000_0000_0000_0000_0000_0000
  {
    SmallPowers();
    hide Pow2;
    Pow2Add(4, 4);
    Pow2Add(8, 8);
    Pow2Add(16, 16);
    Pow2Add(1, 31);
    Pow2Add(32, 32);
    Pow2Add(1, 63);
    Pow2Add(64, 64);
  }

  /** Shift left within a word: what leaves at the top is lost. */
  function ShiftLeft(width: nat, x: nat, count: nat): (r: nat)
    requires count < width
    ensures r < Pow2(width)
  {
    (x * Pow2(count)) % Pow2(width)
  }

  function ShiftRight(x: nat, count: nat): (r: nat)
  {
    DivMod(x, Pow2(count));
    x / Pow2(count)
  }

  function BitAnd(a: nat, b: nat): nat
  {
    if a == 0 || b == 0 then 0 else (a % 2) * (b % 2) + 2 * BitAnd(a / 2, b / 2)
  }

  function BitOr(a: nat, b: nat): nat
    decreases a + b
  {
    if a == 0 then b else if b == 0 then a
    else (if a % 2 == 1 || b % 2 == 1 then 1 else 0) + 2 * BitOr(a / 2, b / 2)
  }

  /** Bits that do not meet are joined by adding. */
  lemma {:induction false} OrDisjoint(a: nat, b: nat, k: nat)
    requires b < Pow2(k)
    ensures a * Pow2(k) >= 0 && BitOr(a * Pow2(k), b) == a * Pow2(k) + b
  {
    MulMono(0, 0, a, Pow2(k));
    if k > 0 && b != 0 && a * Pow2(k) != 0 {
      Associate(a, 2, Pow2(k - 1));
      MulMono(0, 0, a, Pow2(k - 1));
      assert a * Pow2(k) == 2 * (a * Pow2(k - 1));
      OrDisjoint(a, b / 2, k - 1);
    }
  }

  lemma {:induction false} OrCommutes(a: nat, b: nat)
    ensures BitOr(a, b) == BitOr(b, a)
    decreases a + b
  {
    if a != 0 && b != 0 {
      OrCommutes(a / 2, b / 2);
    }
  }

  /** The position of the highest set bit, counted from one. */
  function BitLength(x: nat): nat
  {
    if x == 0 then 0 else 1 + BitLength(x / 2)
  }

  lemma {:induction false} BitLengthRange(x: nat)
    requires x > 0
    ensures BitLength(x) >= 1 && Pow2(BitLength(x) - 1) <= x < Pow2(BitLength(x))
  {
    if x > 1 {
      BitLengthRange(x / 2);
    } else {
      assert BitLength(1) == 1;
    }
  }

  lemma {:induction false} BitLengthBelow(x: nat, k: nat)
    requires x < Pow2(k)
    ensures BitLength(x) <= k
  {
    if x > 0 {
      BitLengthBelow(x / 2, k - 1);
    }
  }

  lemma {:induction false} ShiftRightTwice(x: nat, c: nat)
    ensures ShiftRight(x, c + 1) == ShiftRight(x / 2, c)
  {
    var p := Pow2(c);
    DivMod(x / 2, p);
    var q, r := x / 2 / p, x / 2 % p;
    Associate(q, 2, p);
    DivModUnique(x, 2 * p, q, 2 * r + x % 2);
  }

  /** A right shift that leaves something shortens the word by exactly the count. */
  lemma {:induction false} BitLengthShift(x: nat, c: nat)
    requires ShiftRight(x, c) != 0
    ensures BitLength(x) == c + BitLength(ShiftRight(x, c))
  {
    if c == 0 {
      DivModUnique(x, 1, x, 0);
    } else {
      ShiftRightTwice(x, c - 1);
      BitLengthShift(x / 2, c - 1);
      if x == 0 { DivModUnique(0, Pow2(c), 0, 0); }
    }
  }

  lemma ShiftRightZero(x: nat, c: nat)
    ensures ShiftRight(x, c) == 0 <==> x < Pow2(c)
  {
    DivMod(x, Pow2(c));
    if x < Pow2(c) {
      DivModUnique(x, Pow2(c), 0, x);
    }
  }

  lemma ShiftRightBound(x: nat, c: nat, k: nat)
    requires x < Pow2(k + c)
    ensures ShiftRight(x, c) < Pow2(k)
  {
    Pow2Add(k, c);
    DivMod(x, Pow2(c));
    MulCancelLt(x / Pow2(c), Pow2(k), Pow2(c));
  }
}
