/** Quotient and remainder facts that the solver does not find for a variable divisor. */
module Arithmetic {

  lemma MultipleIsLarge(k: int, step: int)
    requires step > 0
    ensures k >= 1 ==> k * step >= step
    ensures k <= -1 ==> k * step <= -step
  {
    if k >= 1 {
      assert k * step == (k - 1) * step + step;
    } else if k <= -1 {
      assert k * step == (k + 1) * step - step;
    }
  }

  /** Writing n as q * step + r with r in range fixes both parts. */
  lemma QuotientRemainder(q: int, step: int, r: int)
    requires 0 <= r < step
    ensures (q * step + r) % step == r && (q * step + r) / step == q
  {
    var n := q * step + r;
    var d := n / step;
    assert n == d * step + n % step;
    assert (q - d) * step == q * step - d * step;
    MultipleIsLarge(q - d, step);
  }
}
