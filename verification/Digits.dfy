/** Little-endian numbers in base 2^32, the digit arrays of the 128-bit integer code. */
module Digits {
  import opened Arith
  import opened MachineTypes

  /** BASE to the power k. */
  function Power(k: nat): (p: int)
    ensures p >= 1
  {
    if k == 0 then 1 else BASE * Power(k - 1)
  }

  lemma PowerStep(k: nat)
    ensures Power(k + 1) == BASE * Power(k)
  {
  }

  /** The number a digit sequence stands for, least significant digit first. */
  function Value(s: seq<int>): int
  {
    if s == [] then 0 else s[0] + BASE * Value(s[1..])
  }

  /** The number held in the n digits of s from index j. */
  function Window(s: seq<int>, j: nat, n: nat): int
    requires j + n <= |s|
  {
    Value(s[j..j + n])
  }

  predicate IsDigits(s: seq<int>)
  {
    forall i :: 0 <= i < |s| ==> 0 <= s[i] < BASE
  }

  lemma {:induction false} PowerAdd(j: nat, k: nat)
    ensures Power(j + k) == Power(j) * Power(k)
  {
    if j > 0 {
      PowerAdd(j - 1, k);
      assert j + k - 1 == j - 1 + k;
      Associate(BASE, Power(j - 1), Power(k));
    }
  }

  lemma {:induction false} ValueConcat(a: seq<int>, b: seq<int>)
    ensures Value(a + b) == Value(a) + Power(|a|) * Value(b)
  {
    if a == [] {
      assert a + b == b;
    } else {
      ValueConcat(a[1..], b);
      assert (a + b)[1..] == a[1..] + b;
      Distribute(Value(a[1..]), Power(|a| - 1) * Value(b), BASE);
      Associate(BASE, Power(|a| - 1), Value(b));
    }
  }

  lemma ValueSingle(d: int)
    ensures Value([d]) == d
  {
    assert [d][1..] == [];
    assert Value([]) == 0;
  }

  /** The digit at index k joins the prefix below it. */
  lemma ValueExtend(s: seq<int>, k: nat)
    requires k < |s|
    ensures Value(s[..k + 1]) == Value(s[..k]) + s[k] * Power(k)
  {
    assert s[..k + 1] == s[..k] + [s[k]];
    ValueConcat(s[..k], [s[k]]);
    ValueSingle(s[k]);
  }

  lemma {:induction false} ValueBound(s: seq<int>)
    requires IsDigits(s)
    ensures 0 <= Value(s) < Power(|s|)
  {
    if s != [] {
      ValueBound(s[1..]);
    }
  }

  lemma WindowSplit(s: seq<int>, j: nat, n: nat, total: nat)
    requires total == j + n <= |s|
    ensures Window(s, 0, total) == Value(s[..j]) + Power(j) * Window(s, j, n)
  {
    assert s[0..total] == s[..j] + s[j..j + n];
    ValueConcat(s[..j], s[j..j + n]);
  }

  lemma WindowLowest(s: seq<int>, j: nat, n: nat)
    requires j + n + 1 <= |s|
    ensures Window(s, j, n + 1) == s[j] + BASE * Window(s, j + 1, n)
  {
    assert s[j..j + n + 1][1..] == s[j + 1..j + 1 + n];
  }

  lemma WindowBound(s: seq<int>, j: nat, n: nat)
    requires j + n <= |s| && IsDigits(s)
    ensures 0 <= Window(s, j, n) < Power(n)
  {
    ValueBound(s[j..j + n]);
  }
}
