/** Uniqueness of quotient and remainder. */
module Division {

  lemma {:induction false} NoMultipleBetween(d: int, k: int)
    requires -d < d * k < d
    ensures k == 0
  {
  }

  /** Quotient and remainder are the only split of x into d * q + r with r < d. */
  lemma {:induction false} DivModUnique(x: int, d: int, q: int, r: int)
    requires d > 0 && x == d * q + r && 0 <= r < d
    ensures x / d == q && x % d == r
  {
    var q' := x / d;
    assert d * (q' - q) == d * q' - d * q == r - x % d;
    NoMultipleBetween(d, q' - q);
  }
}
