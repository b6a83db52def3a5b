/** Quotients and remainders, spelled out for the solver. */
module Division {
  lemma Quotient(x: int, d: int, q: int, r: int)
    requires 0 <= r < d && x == d * q + r
    ensures x / d == q
  {
    var (p, m) := (x / d, x % d);
    Euclid(x, d, p, m);
    if p < q {
      Multiple(d, q - p);
    } else if p > q {
      Multiple(d, p - q);
    }
  }

  lemma Remainder(x: int, d: int, q: int, r: int)
    requires 0 <= r < d && x == d * q + r
    ensures x % d == r
  {
    Quotient(x, d, q, r);
    Euclid(x, d, q, x % d);
  }

  lemma Euclid(x: int, d: int, p: int, m: int)
    requires d > 0 && p == x / d && m == x % d
    ensures x == d * p + m && 0 <= m < d
  {
  }

  lemma Multiple(d: int, n: int)
    requires d > 0 && n > 0
    ensures d * n >= d
  {
  }

  lemma SumRemainder(x: int, y: int, d: int)
    requires d > 0
    ensures (x + y) % d == (x % d + y) % d
  {
    var (p, s) := (x / d, x % d + y);
    var (q, r) := (s / d, s % d);
    Euclid(x, d, p, x % d);
    Euclid(s, d, q, r);
    Distribute(d, p, q);
    Remainder(x + y, d, p + q, r);
  }

  lemma Distribute(d: int, p: int, q: int)
    ensures d * (p + q) == d * p + d * q
  {
  }
}
