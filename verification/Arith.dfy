/** Facts about division by a positive number. */
module Arith {
  /** Quotient and remainder are determined by the division equation. */
  lemma Division(j: int, n: nat, q: int, r: nat)
    requires 0 <= r < n && j == n * q + r
    ensures j / n == q && j % n == r
  {
    var d := j / n - q;
    assert n * d == r - j % n;
    assert d <= 0 by {
      assert d >= 1 ==> n * d >= n;
    }
    assert d >= 0 by {
      assert d <= -1 ==> n * d + n <= 0;
    }
  }

  lemma QuotientAtLeast(j: int, n: nat, q: int)
    requires n > 0
    ensures n * q <= j <==> q <= j / n
  {
    var d := j / n - q;
    assert j == n * (q + d) + j % n;
    if d >= 0 {
      assert n * d >= 0;
    } else {
      assert n * d + n <= 0;
    }
  }
}
