/** Facts about products and quotients that the solver needs to be told. */
module Arithmetic {

  lemma MulPositive(a: nat, b: nat)
    requires 0 < a && 0 < b
    ensures 0 < a * b
  {
  }

  lemma MulZero(a: nat)
    ensures a * 0 == 0
  {
  }

  lemma MulMono(a: nat, b: nat, c: nat)
    requires a <= b
    ensures a * c <= b * c
  {
  }

  lemma MulPlus(a: int, b: int, c: int)
    ensures (a + b) * c == a * c + b * c
    ensures (a - b) * c == a * c - b * c
  {
  }

  lemma MulStrict(a: nat, b: nat, c: nat)
    requires a * c < b * c
    ensures a < b
  {
    if b <= a { MulMono(b, a, c); }
  }

  lemma {:induction false} MulLess(a: int, b: int, d: nat)
    requires a < b
    ensures a * d + d <= b * d
    decreases b - a
  {
    assert b * d == (b - 1) * d + d;
    if a < b - 1 { MulLess(a, b - 1, d); }
  }

  lemma DivisionIsUnique(x: int, d: nat, q: int, r: nat)
    requires 0 < d && x == q * d + r && r < d
    ensures x / d == q && x % d == r
  {
    var q', r' := x / d, x % d;
    assert x == q' * d + r';
    if q' < q { MulLess(q', q, d); }
    if q < q' { MulLess(q, q', d); }
  }
}
