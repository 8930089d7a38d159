/** Quotients and remainders. */
module Division {
  /** Only one quotient and remainder of n by d fit n == q * d + r. */
  lemma Unique(n: int, d: int, q: int, r: int)
    requires d > 0 && n == q * d + r && 0 <= r < d
    ensures n / d == q && n % d == r
  {
    var k := q - n / d;
    Multiple(k, d, n % d - r);
  }

  /** A multiple of d less than d away from 0 is 0. */
  lemma Multiple(k: int, d: int, m: int)
    requires k * d == m && -d < m < d
    ensures k == 0
  {
    assert k >= 1 ==> k * d >= d;
    assert k <= -1 ==> k * d <= -d;
  }

  /** A remainder may be taken before an addition. */
  lemma RemainderFirst(n: int, m: int, d: int)
    requires d > 0
    ensures (n % d + m) % d == (n + m) % d
  {
    var s := n % d + m;
    var q := n / d + s / d;
    assert q * d == n / d * d + s / d * d;
    Unique(n + m, d, q, s % d);
  }
}
