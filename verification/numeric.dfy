/**
 Truncation toward zero, the rounding that Python's `int(x)` and numpy's
 `astype("int")` apply to floating-point values. Dafny's `.Floor` and its
 Euclidean `/` round differently for negative operands, so the detector's
 arithmetic is written in terms of the functions below.
 */
module Numeric {

  /** `t` is `x` with its fractional part dropped (rounded toward zero). */
  predicate IsTruncOf(t: int, x: real) {
    if x >= 0.0 then t as real <= x < t as real + 1.0
    else t as real - 1.0 < x <= t as real
  }

  /** At most one integer is the truncation of a given real. */
  lemma TruncUnique(a: int, b: int, x: real)
    requires IsTruncOf(a, x) && IsTruncOf(b, x)
    ensures a == b
  {
  }

  /** `int(x)` for a real `x`. */
  function Trunc(x: real): (t: int)
    ensures IsTruncOf(t, x)
    ensures x >= 0.0 ==> t >= 0
    ensures x <= 0.0 ==> t <= 0
  {
    if x >= 0.0 then x.Floor else -((-x).Floor)
  }

  /** Truncating a whole number gives it back. */
  lemma TruncOfInt(n: int)
    ensures Trunc(n as real) == n
  {
  }

  /** Truncation is monotone: it never reverses the order of two reals. */
  lemma TruncMonotone(x: real, y: real)
    requires x <= y
    ensures Trunc(x) <= Trunc(y)
  {
  }
}
