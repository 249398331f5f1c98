/** Small facts about multiplication and floor division that the solver
    does not find on its own. */
module Arith {

  lemma MulMono(x: int, y: int, d: int)
    ensures 0 <= d && x <= y ==> x * d <= y * d
  {
    var k := y - x;
    assert y * d == x * d + k * d;
  }

  /** lo * d <= p < hi * d pins floor(p / d) to [lo, hi). */
  lemma DivBounds(p: int, d: int, lo: int, hi: int)
    requires 0 < d
    requires lo * d <= p < hi * d
    ensures lo <= p / d < hi
  {
    var q := p / d;
    assert q * d <= p < q * d + d;
    assert (q + 1) * d == q * d + d;
    MulMono(q + 1, lo, d);
    MulMono(hi, q, d);
  }

  /** Removing one divisor's worth from p lowers the quotient by one and
      keeps the remainder. */
  lemma DivShift(p: int, d: int)
    requires 0 < d
    ensures (p - d) / d == p / d - 1
    ensures (p - d) % d == p % d
  {
    var q := p / d;
    assert q * d <= p < q * d + d;
    assert (q - 1) * d == q * d - d;
    DivBounds(p - d, d, q - 1, q);
  }
}
