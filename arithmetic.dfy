/**
 * Facts about integer multiplication and Euclidean division shared by the
 * models that reduce numbers modulo a table size or a prime.
 */
module Arithmetic {

  /** Signs and bounds of a product with a positive factor. */
  lemma MulBounds(x: int, q: int)
    requires x > 0
    ensures q >= 1 ==> x * q >= x
    ensures q <= 0 ==> x * q <= 0
    ensures q <= -1 ==> x * q <= -x
  {
  }

  /** Quotient and remainder are determined by `x == m * q + r` with `0 <= r < m`. */
  lemma DivUnique(x: int, m: int, q: int, r: int)
    requires m > 0 && x == m * q + r && 0 <= r < m
    ensures x / m == q && x % m == r
  {
    var d := q - x / m;
    assert x == m * (x / m) + x % m;
    assert m * q - m * (x / m) == m * d;
    MulBounds(m, d);
  }
}
