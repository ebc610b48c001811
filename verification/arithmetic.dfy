/** Division with a quotient and a remainder, for divisors the solver does not know. */
module Arithmetic {
  lemma QuotientUnique(q: nat, r: nat, q': nat, r': nat, d: nat)
    requires r < d && r' < d && q * d + r == q' * d + r'
    ensures q == q' && r == r'
  {
    if q < q' {
      MultipleLater(q, q', d);
    } else if q' < q {
      MultipleLater(q', q, d);
    }
  }

  lemma MultipleLater(q: nat, q': nat, d: nat)
    requires q < q'
    ensures q * d + d <= q' * d
  {
    assert (q' - q - 1) * d >= 0;
    assert q' * d == (q' - q - 1) * d + q * d + d;
  }

  lemma DivMod(q: nat, d: nat, r: nat)
    requires r < d
    ensures (q * d + r) / d == q && (q * d + r) % d == r
  {
    var n := q * d + r;
    QuotientUnique(q, r, n / d, n % d, d);
  }

  lemma DivideTwice(n: nat, b: nat)
    requires b > 0
    ensures n / 256 / b == n / (256 * b)
  {
    var q, r, s := n / 256 / b, n / 256 % b, n % 256;
    assert n / 256 == q * b + r;
    assert q * (256 * b) == 256 * (q * b);
    DivMod(q, 256 * b, 256 * r + s);
  }
}
