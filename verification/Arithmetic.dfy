/** Facts about products and quotients that the solver does not find by itself. */
module Arithmetic {

  lemma MulGap(a: int, b: int, d: nat)
    requires a < b
    ensures a * d + d <= b * d
  {
    var g := b - a - 1;
    assert b * d == a * d + d + g * d;
  }

  lemma QuotientIs(n: nat, d: nat, q: nat, r: nat)
    requires d > 0 && n == q * d + r && r < d
    ensures n / d == q
  {
    var p := n / d;
    assert n == p * d + n % d;
    if p < q { MulGap(p, q, d); }
    if q < p { MulGap(q, p, d); }
  }

  lemma Commute(a: int, b: int)
    ensures a * b == b * a
  {
  }
}
