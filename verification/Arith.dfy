/** Powers of two, and facts about products and division that the solver does not find by itself. */
module Arith {

  function Pow2(n: nat): (p: nat)
    ensures p > 0
  {
    if n == 0 then 1 else 2 * Pow2(n - 1)
  }

  lemma {:induction false} AtLeastOne(e: int, d: int)
    requires 0 < e && 0 < d
    ensures e * d >= d
    decreases e
  {
    if e > 1 {
      AtLeastOne(e - 1, d);
      assert e * d == (e - 1) * d + d;
    }
  }

  /** Quotient and remainder are determined by their defining equation. */
  lemma DivUnique(x: int, d: int, q: int, m: int)
    requires 0 < d && x == q * d + m && 0 <= m < d
    ensures x / d == q && x % d == m
  {
    var q', m' := x / d, x % d;
    assert x == q' * d + m';
    if q' < q {
      AtLeastOne(q - q', d);
    } else if q < q' {
      AtLeastOne(q' - q, d);
    }
  }

  lemma {:induction false} MulMonotone(a: int, b: int, d: int)
    requires 0 <= a <= b && 0 <= d
    ensures 0 <= a * d <= b * d
    decreases b
  {
    if 0 < a {
      MulMonotone(a - 1, b - 1, d);
      assert a * d == (a - 1) * d + d && b * d == (b - 1) * d + d;
    } else if 0 < b {
      MulMonotone(a, b - 1, d);
      assert b * d == (b - 1) * d + d;
    }
  }
}
