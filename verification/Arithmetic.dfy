/** Products, quotients and remainders. */
module Arithmetic {

  lemma MulAtLeast(k: int, n: int)
    requires n > 0
    ensures k >= 1 ==> k * n >= n
    ensures k <= -1 ==> k * n <= -n
    ensures k <= 0 ==> k * n <= 0
  {
  }

  /** Remainders are determined by the bounds. */
  lemma ModIs(x: int, n: int, q: int, r: int)
    requires n > 0 && 0 <= r < n && x == q * n + r
    ensures x % n == r && x / n == q
  {
    var p, m := x / n, x % n;
    assert x == p * n + m;
    assert (p - q) * n == r - m;
    MulAtLeast(p - q, n);
  }

  lemma QuotientIs(x: int, n: int)
    requires n > 0
    ensures x == (x / n) * n + x % n && 0 <= x % n < n
  {
  }

  lemma Distribute(q: int, n: int)
    ensures (q + 1) * n == q * n + n
  {
  }
}
