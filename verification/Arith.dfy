/** The few facts about products, quotients and powers the other modules need,
    each small enough for the solver to prove on its own. */
module Arith {

  lemma MulMono(a: int, b: int, c: int)
    requires a <= b && c >= 0
    ensures a * c <= b * c
  {
  }

  lemma MulCancelLess(a: int, b: int, c: int)
    requires a * c < b * c && c >= 0
    ensures a < b
  {
    if a >= b {
      MulMono(b, a, c);
    }
  }

  lemma DivMod(n: int, d: int)
    requires d > 0
    ensures n == (n / d) * d + n % d && 0 <= n % d < d
  {
  }

  /** Quotient and remainder are determined by n == q * d + r with r < d. */
  lemma DivModUnique(n: int, d: int, q: int, r: int)
    requires n == q * d + r && 0 <= r < d
    ensures n / d == q && n % d == r
  {
    DivMod(n, d);
    var q' := n / d;
    assert (q' - q) * d == q' * d - q * d;
    assert (q - q') * d == q * d - q' * d;
    MulCancelLess(q' - q, 1, d);
    MulCancelLess(q - q', 1, d);
  }

  lemma DivSmaller(n: nat, d: nat)
    requires n > 0 && d >= 2
    ensures n / d < n
  {
    DivMod(n, d);
    MulCancelLess(0 - 1, n / d, d);
    MulMono(2, d, n / d);
  }

  /** q * d <= n exactly when q <= n / d. */
  lemma DivAtLeast(n: int, d: int, q: int)
    requires d > 0
    ensures q * d <= n <==> q <= n / d
  {
    DivMod(n, d);
    if q <= n / d {
      MulMono(q, n / d, d);
    }
    if q * d <= n {
      assert (n / d + 1) * d == (n / d) * d + d;
      MulCancelLess(q, n / d + 1, d);
    }
  }

  lemma DivDiv(n: int, a: int, b: int)
    requires a > 0 && b > 0
    ensures a * b > 0 && n / a / b == n / (a * b)
  {
    DivMod(n, a);
    DivMod(n / a, b);
    var q, r := n / a / b, n / a % b;
    MulMono(r, b - 1, a);
    assert (b - 1) * a == a * b - a;
    assert (q * b + r) * a == q * (a * b) + r * a;
    MulMono(0, r, a);
    DivModUnique(n, a * b, q, r * a + n % a);
  }

  /** Reducing one term first does not change a sum modulo `m`. */
  lemma AddModulo(a: int, b: int, m: int)
    requires m > 0
    ensures (a % m + b) % m == (a + b) % m
  {
    DivMod(a, m);
    DivMod(a % m + b, m);
    var q := a / m + (a % m + b) / m;
    assert q * m == (a / m) * m + ((a % m + b) / m) * m;
    DivModUnique(a + b, m, q, (a % m + b) % m);
  }

  function Pow(base: nat, k: nat): nat {
    if k == 0 then 1 else base * Pow(base, k - 1)
  }

  lemma {:induction false} PowPositive(base: nat, k: nat)
    requires base >= 1
    ensures Pow(base, k) >= 1
  {
    if k > 0 {
      PowPositive(base, k - 1);
      MulMono(1, base, Pow(base, k - 1));
    }
  }

  lemma {:induction false} PowSplit(base: nat, i: nat, j: nat)
    ensures Pow(base, i + j) == Pow(base, i) * Pow(base, j)
    decreases i
  {
    if i > 0 {
      PowSplit(base, i - 1, j);
      MulAssoc(base, Pow(base, i - 1), Pow(base, j));
    }
  }

  lemma MulAssoc(a: int, b: int, c: int)
    ensures a * (b * c) == (a * b) * c
  {
  }
}
