/** Division facts that the solver does not find unaided. */
module Arith {

  lemma {:induction false} SmallProduct(d: int, k: int)
    requires -d < d * k < d
    ensures k == 0
  {
    if k >= 1 {
      assert d * k == d + d * (k - 1);
      NonNegative(d, k - 1);
    } else if k <= -1 {
      assert d * k == -d - d * (-k - 1);
      NonNegative(d, -k - 1);
    }
  }

  lemma {:induction false} NonNegative(a: int, b: int)
    requires a >= 0 && b >= 0
    ensures a * b >= 0
  {
  }

  /** Quotient and remainder are unique. */
  lemma {:induction false} DivModUnique(x: int, d: int, q: int, r: int)
    requires d > 0 && x == d * q + r && 0 <= r < d
    ensures x / d == q && x % d == r
  {
    var q', r' := x / d, x % d;
    assert x == d * q' + r';
    assert d * (q - q') == d * q - d * q';
    SmallProduct(d, q - q');
  }

  /** Splitting off a low digit in base b commutes with reduction modulo b * p. */
  lemma {:induction false} ModSplit(n: int, b: int, p: int)
    requires b > 0 && p > 0
    ensures b * p > 0 && n % (b * p) == n % b + b * ((n / b) % p)
  {
    var h := n / b;
    var q, m := h / p, h % p;
    assert h == p * q + m;
    assert b * h == (b * p) * q + b * m by {
      assert b * (p * q + m) == b * (p * q) + b * m;
      assert b * (p * q) == (b * p) * q;
    }
    NonNegative(b - 1, p - 1);
    assert (b - 1) * (p - 1) == b * p - b - p + 1;
    NonNegative(b, m);
    NonNegative(b, p - 1 - m);
    assert b * (p - 1 - m) == b * p - b - b * m;
    DivModUnique(n, b * p, q, n % b + b * m);
  }
}
