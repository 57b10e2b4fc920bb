/** Algorithm M of Knuth, The Art of Computer Programming, volume 2, section 4.3.1. */
module KnuthM {
  import opened Arith
  import opened Digits
  import opened MachineTypes

  /** The product so far, with the pending carry, when i digits of u have met the digit y of weight j. */
  ghost predicate RowDone(w: seq<int>, w0: seq<int>, u: seq<int>, y: int, j: nat, i: nat, t: int)
    requires i <= |u| && j + |u| <= |w| == |w0|
  {
    Value(w[..j + i]) + t * Power(j + i) == Value(w0[..j + i]) + Value(u[..i]) * y * Power(j)
  }

  lemma RowArithmetic(p: int, pi: int, pj: int, uValue: int, x: int, y: int, t: int, w: int, low: int, high: int)
    requires p == pi * pj
    requires t + x * y + w == BASE * high + low
    ensures low * p + high * (BASE * p) == t * p + w * p + x * pi * y * pj
    ensures (uValue + x * pi) * y * pj == uValue * y * pj + x * pi * y * pj
  {
    Distribute(uValue, x * pi, y);
    Distribute(uValue * y, x * pi * y, pj);
    calc {
      low * p + high * (BASE * p);
    == { Associate(high, BASE, p); Distribute(low, BASE * high, p); }
      (low + BASE * high) * p;
    == { Distribute(t + x * y, w, p); Distribute(t, x * y, p); }
      t * p + (x * y) * p + w * p;
    }
    Associate(x * y, pi, pj);
    Associate(x, y, pi);
  }

  /** One digit product goes into the row; the accumulator splits into a digit and a carry. */
  lemma RowStep(w: seq<int>, w': seq<int>, w0: seq<int>, u: seq<int>, y: int, j: nat, i: nat, t: int, t': int)
    requires i < |u| && j + |u| <= |w| == |w0|
    requires RowDone(w, w0, u, y, j, i, t)
    requires w[j + i] == w0[j + i]
    requires |w'| == |w| && w' == w[j + i := w'[j + i]]
    requires t + u[i] * y + w[j + i] == BASE * t' + w'[j + i]
    ensures RowDone(w', w0, u, y, j, i + 1, t')
  {
    var p := Power(j + i);
    assert w'[..j + i] == w[..j + i];
    ValueExtend(w', j + i);
    ValueExtend(w0, j + i);
    ValueExtend(u, i);
    assert j + i + 1 == j + (i + 1);
    assert Power(j + i + 1) == BASE * p;
    RowArithmetic(p, Power(i), Power(j), Value(u[..i]), u[i], y, t, w[j + i], w'[j + i], t') by {
      PowerAdd(i, j);
      assert i + j == j + i;
    }
  }

  lemma {:induction false} ZeroValue(s: seq<int>)
    requires forall i :: 0 <= i < |s| ==> s[i] == 0
    ensures Value(s) == 0
  {
    if s != [] {
      ZeroValue(s[1..]);
    }
  }

  /** Adds u * y, shifted by j digits, into w; the digit above receives the carry. */
  method MultiplyRow(u: array<u32>, y: u32, w: array<u32>, j: nat)
    requires w != u && j + u.Length < w.Length
    modifies w
    ensures Value(w[..j + u.Length + 1]) == old(Value(w[..j + u.Length])) + Value(u[..]) * y * Power(j)
    ensures forall k :: 0 <= k < j || j + u.Length < k < w.Length ==> w[k] == old(w[k])
  {
    var m := u.Length;
    ghost var w0 := w[..];
    var t: u64 := 0;
    for i := 0 to m
      invariant t < BASE
      invariant forall k :: 0 <= k < j || j + i <= k < w.Length ==> w[k] == w0[k]
      invariant RowDone(w[..], w0, u[..], y, j, i, t)
    {
      ghost var before, carry := w[..], t;
      MulMono(u[i], y, BASE - 1, BASE - 1);
      t := t + u[i] * y + w[i + j];
      w[i + j] := t % BASE;
      t := t / BASE;
      RowStep(before, w[..], w0, u[..], y, j, i, carry, t);
    }
    w[j + m] := t;
    ValueExtend(w[..], j + m);
    assert w[..][..j + m] == w[..j + m] && w[..][..j + m + 1] == w[..j + m + 1];
    assert u[..][..m] == u[..];
  }

  method Multiply(u: array<u32>, v: array<u32>, w: array<u32>)
    requires w.Length == u.Length + v.Length
    requires w != u && w != v
    modifies w
    ensures Value(w[..]) == Value(u[..]) * Value(v[..])
  {
    var m, n := u.Length, v.Length;
    for k := 0 to w.Length
      invariant forall i :: 0 <= i < k ==> w[i] == 0
    {
      w[k] := 0;
    }
    ZeroValue(w[..m]);
    for j := 0 to n
      invariant Value(w[..j + m]) == Value(u[..]) * Value(v[..][..j])
    {
      MultiplyRow(u, v[j], w, j);
      ValueExtend(v[..], j);
      Distribute(Value(v[..][..j]), v[j] * Power(j), Value(u[..]));
      Associate(Value(u[..]), v[j], Power(j));
      assert j + 1 + m == j + m + 1;
    }
    assert w[..n + m] == w[..];
    assert v[..][..n] == v[..];
  }
}
