/** The few facts about products and quotients that the solver needs spelled out. */
module Arithmetic {

  lemma ProductAtLeast(k: int, d: int)
    requires k >= 1 && d >= 1
    ensures k * d >= d
  {
    assert (k - 1) * d >= 0;
  }

  lemma Monotone(a: int, b: int, d: int)
    requires a <= b && d >= 0
    ensures a * d <= b * d
  {
    assert (b - a) * d >= 0;
  }

  lemma Distribute(a: int, b: int, d: int)
    ensures (a - b) * d == a * d - b * d
    ensures (a + b) * d == a * d + b * d
  {}

  lemma QuotientUnique(d: int, q: int, r: int, q': int, r': int)
    requires 0 <= r < d && 0 <= r' < d
    requires q * d + r == q' * d + r'
    ensures q == q'
  {
    Distribute(q, q', d);
    Distribute(q', q, d);
    if q > q' {
      ProductAtLeast(q - q', d);
    } else if q < q' {
      ProductAtLeast(q' - q, d);
    }
  }

  lemma DivUnique(x: int, d: int, q: int, r: int)
    requires x == q * d + r && 0 <= r < d
    ensures x / d == q && x % d == r
  {
    QuotientUnique(d, q, r, x / d, x % d);
  }

  /** A two-digit number in a mixed base stays below the product of the bases. */
  lemma DigitsBelow(d: int, c: int, a: int, p: int)
    requires 0 <= d < a && 0 <= c < p
    ensures 0 <= d * p + c < a * p
  {
    Monotone(d, a - 1, p);
    Distribute(a, 1, p);
    Monotone(0, d, p);
  }

  lemma Regroup(n: int, a: int, p: int, d: int, c: int)
    ensures n * (a * p) + (d * p + c) == (n * a + d) * p + c
  {
    assert n * (a * p) == n * a * p;
    Distribute(n * a, d, p);
  }

  lemma QuotientBelow(q: int, r: int, a: int, p: int)
    requires 0 <= r && p > 0 && q * p + r < a * p
    ensures q < a
  {
    if q >= a { Monotone(a, q, p); }
  }

  lemma ModAtMost(x: int, p: int)
    requires x >= 0 && p >= 1
    ensures 0 <= x % p <= x && 0 <= x / p
  {
    if x / p < 0 { Monotone(x / p, -1, p); }
    Monotone(0, x / p, p);
  }

  lemma CountOn(n: nat, a: nat, j: nat)
    ensures ((n + a) % 16 + j) % 16 == (n + a + j) % 16
  {
    var q, s := (n + a) / 16, (n + a) % 16 + j;
    DivUnique(n + a + j, 16, q + s / 16, s % 16);
  }
}
