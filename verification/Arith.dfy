/** Division with remainder: the facts the solver is slow to find by itself. */
module Arith {
  /** Quotient and remainder are unique. */
  lemma DivStep(q: int, r: nat, c: nat)
    requires r < c
    ensures (q * c + r) / c == q && (q * c + r) % c == r
  {
    var x := q * c + r;
    var d := x / c - q;
    assert x == c * (x / c) + x % c;
    assert c * d == r - x % c by {
      assert c * d == c * (x / c) - c * q;
    }
    if d >= 1 { Grow(c, d); }
    if d <= -1 { Grow(c, -d); }
  }

  lemma Grow(c: nat, d: int)
    requires d >= 1
    ensures c * d >= c
  {
  }
}
