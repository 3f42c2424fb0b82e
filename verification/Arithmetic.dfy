/**
The few facts about products and quotients that the other modules need.
*/
module Arithmetic {

  lemma MulNonneg(a: int, b: int)
    requires a >= 0 && b >= 0
    ensures a * b >= 0
  {
  }

  lemma MulMono(a: int, b: int, d: int)
    requires a <= b && d >= 0
    ensures a * d <= b * d
  {
  }

  lemma Associate(a: int, b: int, c: int)
    ensures a * (b * c) == (a * b) * c
  {
  }

  // Division by comparison.
  lemma DivBound(x: int, d: int, k: int)
    requires x >= 0 && d >= 1 && k >= 0
    ensures k * d <= x <==> k <= x / d
  {
    var q := x / d;
    assert x == q * d + x % d && 0 <= x % d < d;
    if k <= q {
      MulMono(k, q, d);
    } else {
      MulMono(q + 1, k, d);
    }
  }

  lemma DivUnique(x: int, d: int, q: int, r: int)
    requires d >= 1 && x == q * d + r && 0 <= r < d
    ensures x / d == q && x % d == r
  {
    var q' := x / d;
    var r' := x % d;
    assert q * d + r == q' * d + r';
    if q < q' {
      MulMono(q + 1, q', d);
    } else if q' < q {
      MulMono(q' + 1, q, d);
    }
  }

  lemma DivPlusOne(x: int, d: int)
    requires x >= 0 && d >= 1
    ensures (x + d) / d == x / d + 1
  {
    var q := x / d;
    DivUnique(x + d, d, q + 1, x % d);
  }
}
