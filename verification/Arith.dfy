/** Facts about products and quotients that the solver should not search for. */
module Arith {
  lemma MulMono(a: int, b: int, x: int, y: int)
    requires 0 <= a <= x && 0 <= b <= y
    ensures 0 <= a * b <= x * y
  {
    assert 0 <= (x - a) * b;
    assert 0 <= (y - b) * x;
  }

  lemma MulLe(a: int, b: int, c: int)
    requires a <= b && 0 <= c
    ensures a * c <= b * c
  {
    assert 0 <= (b - a) * c;
  }

  /** Strict in the multiplier. */
  lemma MulLt(a: int, b: int, c: int)
    requires a < b && 0 < c
    ensures a * c < b * c
  {
    assert 0 < (b - a) * c;
  }

  /** A factor of an inequality between products cancels. */
  lemma MulCancelLt(a: int, b: int, c: int)
    requires a * c < b * c && 0 < c
    ensures a < b
  {
    if b <= a { MulLe(b, a, c); }
  }

  lemma Cancel(a: int, b: int, c: int)
    requires a * c == b * c && c > 0
    ensures a == b
  {
    if a < b { MulLt(a, b, c); } else if b < a { MulLt(b, a, c); }
  }

  lemma Distribute(a: int, b: int, c: int)
    ensures (a + b) * c == a * c + b * c
    ensures c * (a + b) == c * a + c * b
    ensures (a - b) * c == a * c - b * c
    ensures c * (a - b) == c * a - c * b
  {
  }

  lemma Associate(a: int, b: int, c: int)
    ensures (a * b) * c == a * (b * c) == b * (a * c) == (a * c) * b
  {
  }

  lemma DivMod(n: int, d: int)
    requires 0 <= n && 0 < d
    ensures n == (n / d) * d + n % d
    ensures 0 <= n / d <= n && 0 <= n % d < d
  {
    if n / d < 0 {
      MulLe(n / d, -1, d);
    } else {
      MulMono(n / d, 1, n / d, d);
    }
  }

  /** A quotient and a remainder in range are the quotient and the remainder. */
  lemma DivModUnique(n: int, d: int, q: int, r: int)
    requires 0 <= r < d
    requires n == q * d + r
    ensures q == n / d && r == n % d
  {
    var e := n / d;
    assert n == e * d + n % d;
    if q < e {
      MulLe(q + 1, e, d);
      Distribute(q, 1, d);
    } else if e < q {
      MulLe(e + 1, q, d);
      Distribute(e, 1, d);
    }
  }

  /** Dividing by a product is dividing twice. */
  lemma DivTwice(n: int, a: int, b: int)
    requires 0 <= n && 0 < a && 0 < b
    ensures 0 < a * b && n / (a * b) == n / a / b
  {
    MulMono(1, 1, a, b);
    DivMod(n, a);
    DivMod(n / a, b);
    var q, r := n / a / b, n / a % b;
    Associate(q, b, a);
    Distribute(q * b, r, a);
    MulLe(r + 1, b, a);
    Distribute(r, 1, a);
    MulMono(0, 0, r, a);
    DivModUnique(n, a * b, q, r * a + n % a);
  }
}
