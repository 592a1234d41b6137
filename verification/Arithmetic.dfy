/** Small facts about products and quotients. */
module Arithmetic {

  lemma {:induction false} MulStep(a: int, b: int, d: nat)
    ensures a < b ==> a * d + d <= b * d
    decreases b - a
  {
    if a < b {
      assert b * d == (b - 1) * d + d;
      if a < b - 1 {
        MulStep(a, b - 1, d);
      }
    }
  }

  lemma MulSwap(a: int, b: int, c: int)
    ensures (a * b) * c == b * (a * c) == a * (b * c)
  {
  }

  lemma MulMinus(a: int, b: int, c: int)
    ensures a * (b - c) == a * b - a * c && (-b) * a == -(b * a)
  {
  }

  /** The quotient is the only k with a remainder below the divisor. */
  lemma QuotientUnique(x: int, d: int, k: int, r: int)
    requires d > 0 && x == k * d + r && 0 <= r < d
    ensures x / d == k && x % d == r
  {
    var q := x / d;
    assert x == q * d + x % d;
    MulStep(q, k, d);
    MulStep(k, q, d);
  }
}
