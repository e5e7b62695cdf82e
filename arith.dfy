/** Facts about Euclidean division by a positive divisor that the interval
    matching of the recurrence rules needs. */
module Arith {

  lemma MulAtLeast(a: int, m: int)
    requires a >= 1 && m > 0
    ensures a * m >= m
  {
  }

  /** A positive multiple of a positive number has a factor of at least one. */
  lemma PositiveFactor(a: int, m: int)
    requires m > 0 && a * m > 0
    ensures a >= 1
  {
    if a <= -1 {
      MulAtLeast(-a, m);
    }
  }

  /** Quotient and remainder are unique. */
  lemma {:induction false} DivModUnique(x: int, m: int, q: int, r: int)
    requires m > 0 && 0 <= r < m && x == q * m + r
    ensures x / m == q && x % m == r
  {
    var q' := x / m;
    var r' := x % m;
    assert x == q' * m + r';
    assert (q - q') * m == r' - r;
    if q - q' >= 1 {
      MulAtLeast(q - q', m);
    } else if q' - q >= 1 {
      MulAtLeast(q' - q, m);
    }
  }

  /** Adding a multiple of `m` leaves the remainder modulo `m` unchanged. */
  lemma ModAddMultiple(x: int, k: int, m: int)
    requires m > 0
    ensures (x + k * m) % m == x % m
  {
    assert x == (x / m) * m + x % m;
    assert x + k * m == (x / m + k) * m + x % m;
    DivModUnique(x + k * m, m, x / m + k, x % m);
  }

  /** A non-negative number divisible by `m` is a whole multiple of `m`. */
  lemma DivisibleIsMultiple(x: int, m: int)
    requires m > 0 && x % m == 0
    ensures x == (x / m) * m
  {
  }
}
