/** Facts about division by a variable that the solver does not find by itself. */
module Arithmetic {

  lemma Distribute(a: int, b: int, k: int)
    ensures (a - b) * k == a * k - b * k
  {
  }

  lemma AtLeastFactor(a: int, k: int)
    requires a >= 1 && k > 0
    ensures a * k >= k
  {
    assert (a - 1) * k >= 0;
  }

  /** Quotient and remainder are unique. */
  lemma Quotient(t: int, q: int, k: int, r: int)
    requires k > 0 && t == q * k + r && 0 <= r < k
    ensures t / k == q && t % k == r
  {
    var q' := t / k;
    assert t == q' * k + t % k;
    Distribute(q, q', k);
    Distribute(q', q, k);
    if q > q' {
      AtLeastFactor(q - q', k);
    } else if q < q' {
      AtLeastFactor(q' - q, k);
    }
  }

  /** Between two consecutive multiples of a step there is no multiple. */
  lemma NoMultipleBetween(a: int, d: int, step: int)
    requires step > 0 && a % step == 0 && 0 < d < step
    ensures (a + d) % step != 0
  {
    Quotient(a + d, a / step, step, d);
  }

  lemma NextMultiple(a: int, step: int)
    requires step > 0 && a % step == 0
    ensures (a + step) % step == 0
  {
    Quotient(a + step, a / step + 1, step, 0);
  }
}
