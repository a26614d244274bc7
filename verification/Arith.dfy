/** Quotients, remainders and products of variables. */
module Arith {

  lemma Times(a: nat, b: nat, m: nat)
    requires a <= b
    ensures a * m <= b * m
  {
  }

  lemma Whole(v: nat, n: nat)
    requires 0 < n
    ensures v == v / n * n + v % n && v % n < n
  {
  }

  lemma Small(d: int, n: nat)
    requires 0 < n && 0 - n < d * n < n
    ensures d == 0
  {
  }

  /** A number's quotient and remainder are the only ones that make it up. */
  lemma Unique(v: int, q: int, r: nat, n: nat)
    requires r < n && v == q * n + r
    ensures v / n == q && v % n == r
  {
    var d := v / n - q;
    assert v == v / n * n + v % n;
    assert d * n == r - v % n;
    Small(d, n);
  }

  lemma Divides(n: nat, q: nat, r: nat)
    requires r < n
    ensures (q * n + r) / n == q && (q * n + r) % n == r
  {
    Unique(q * n + r, q, r, n);
  }

  lemma QuotientBelow(r: nat, k: nat, m: nat)
    requires 0 < m && r < k * m
    ensures r / m < k
  {
    if k <= r / m {
      Times(k, r / m, m);
    }
  }

  lemma HalfRemainder(v: nat, t: nat)
    requires t > 0
    ensures v % (2 * t) == v % 2 + 2 * (v / 2 % t)
  {
    var q, r := v / 2 / t, v / 2 % t;
    Whole(v / 2, t);
    assert 2 * (q * t) == q * (2 * t);
    Unique(v, q, 2 * r + v % 2, 2 * t);
  }
}
