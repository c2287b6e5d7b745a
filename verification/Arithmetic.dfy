/** Facts about products, quotients and remainders. */
module Arithmetic {

  lemma Distribute(a: int, b: int, m: int)
    ensures (a - b) * m == a * m - b * m
  {
  }

  lemma {:induction false} AtLeast(d: int, m: nat)
    requires d >= 1
    ensures d * m >= m
    decreases d
  {
    if d > 1 {
      AtLeast(d - 1, m);
      Distribute(d, 1, m);
    }
  }

  lemma QuotientUnique(m: nat, q: int, r: int, q': int, r': int)
    requires m > 0 && q * m + r == q' * m + r' && 0 <= r < m && 0 <= r' < m
    ensures q == q' && r == r'
  {
    Distribute(q, q', m);
    Distribute(q', q, m);
    if q > q' { AtLeast(q - q', m); }
    if q < q' { AtLeast(q' - q, m); }
  }

  /** Quotient and remainder are what division says they are. */
  lemma DivMod(x: int, m: nat, q: int, r: int)
    requires x == q * m + r && 0 <= r < m
    ensures x / m == q && x % m == r
  {
    assert x == x / m * m + x % m;
    QuotientUnique(m, q, r, x / m, x % m);
  }
}
