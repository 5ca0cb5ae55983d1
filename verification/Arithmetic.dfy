/** Products and quotients. */
module Arithmetic {

  lemma {:induction false} ProductAtLeast(n: nat, d: nat)
    ensures n * d >= 0 && (d > 0 ==> n * d >= n)
    decreases d
  {
    if d > 0 {
      ProductAtLeast(n, d - 1);
      assert n * d == n * (d - 1) + n;
    }
  }

  /** Multiples of n are in the order of their factors, and at least n apart. */
  lemma Multiples(n: nat, i: int, j: int)
    ensures j <= i ==> n * j <= n * i
    ensures i < j ==> n * i + n <= n * j
  {
    if j <= i {
      ProductAtLeast(n, i - j);
    } else {
      ProductAtLeast(n, j - i);
      assert n * j == n * i + n * (j - i);
    }
  }

  /** There is only one quotient with a remainder that is small enough. */
  lemma QuotientUnique(x: int, n: nat, q: int, r: nat)
    requires n > 0 && x == n * q + r && r < n
    ensures x / n == q && x % n == r
  {
    var q2, r2 := x / n, x % n;
    assert x == n * q2 + r2;
    Multiples(n, q, q2);
    Multiples(n, q2, q);
  }

  lemma HalfOfQuotient(x: nat, n: nat)
    requires n > 0
    ensures x / (2 * n) == x / n / 2
  {
    var q := x / n;
    var r := x % n;
    assert x == n * q + r;
    var q2, r2 := q / 2, q % 2;
    assert x == n * (2 * q2 + r2) + r;
    assert x == (2 * n) * q2 + (n * r2 + r);
    assert n * r2 + r < 2 * n by {
      assert r2 == 0 || r2 == 1;
    }
    QuotientUnique(x, 2 * n, q2, n * r2 + r);
  }

  function Pow2(n: nat): (r: nat)
    ensures r > 0
  {
    if n == 0 then 1 else 2 * Pow2(n - 1)
  }
}
