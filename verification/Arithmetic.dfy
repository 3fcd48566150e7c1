/** Facts about products, quotients and remainders. */
module Arithmetic {

  lemma {:induction false} Scaled(n: int, a: int, b: int)
    requires n > 0 && a > b
    ensures n * a >= n * b + n
    decreases a - b
  {
    assert n * a == n * (a - 1) + n;
    if a - 1 > b {
      Scaled(n, a - 1, b);
    }
  }

  lemma DivMod(x: int, n: int)
    requires n > 0
    ensures x == n * (x / n) + x % n && 0 <= x % n < n
  {
  }

  lemma Products(n: int, a: int, b: int, c: int)
    ensures n * (a + b + c) == n * a + n * b + n * c
  {
  }

  /** Quotient and remainder, from the bounds that define them. */
  lemma DivIs(x: int, n: int, q: int)
    requires n > 0 && n * q <= x < n * q + n
    ensures x / n == q && x % n == x - n * q
  {
    var p := x / n;
    assert x == n * p + x % n;
    if p < q {
      Scaled(n, q, p);
    } else if p > q {
      Scaled(n, p, q);
    }
  }

  lemma ModOnce(x: nat, n: nat)
    requires 0 < n && x < 2 * n
    ensures x % n == if x < n then x else x - n
  {
    DivIs(x, n, if x < n then 0 else 1);
  }

  lemma AtLeast(q: nat, k: nat, d: nat)
    requires q >= k
    ensures q * d >= k * d
  {
    assert (q - k) * d >= 0;
  }
}
