/** Facts about Euclidean division by a positive divisor, kept apart so that the table proofs stay linear. */
module Arith {

  lemma MulAtLeast(a: int, n: nat)
    requires a >= 1
    ensures a * n >= n
    decreases a
  {
    if a > 1 {
      MulAtLeast(a - 1, n);
      assert a * n == (a - 1) * n + n;
    }
  }

  /** Quotient and remainder are determined by `x == q * n + r` with `0 <= r < n`. */
  lemma DivModUnique(x: int, n: nat, q: int, r: int)
    requires n > 0
    requires x == q * n + r && 0 <= r < n
    ensures x / n == q && x % n == r
  {
    var d, m := x / n, x % n;
    assert x == d * n + m;
    assert (q - d) * n == m - r;
    if q - d >= 1 {
      MulAtLeast(q - d, n);
    } else if d - q >= 1 {
      MulAtLeast(d - q, n);
    }
  }

  lemma DivStep(x: nat, n: nat)
    requires 0 < n <= x
    ensures x / n == (x - n) / n + 1
  {
    var q, r := (x - n) / n, (x - n) % n;
    assert x == (q + 1) * n + r;
    DivModUnique(x, n, q + 1, r);
  }

  lemma ModStep(x: nat, n: nat)
    requires 0 < n
    ensures (x + n) % n == x % n
  {
    var q, r := x / n, x % n;
    assert x + n == (q + 1) * n + r;
    DivModUnique(x + n, n, q + 1, r);
  }

  lemma ModOfPositiveAtMost(x: nat, n: nat)
    requires 0 < x <= n
    ensures x % n == 0 <==> x == n
  {
    if x < n {
      DivModUnique(x, n, 0, x);
    } else {
      DivModUnique(x, n, 1, 0);
    }
  }

  lemma MulStep(k: nat, n: nat)
    requires k > 0
    ensures (k - 1) * n + n == k * n
  {
  }
}
