/**
 * Exact real-number helpers shared by the root-finders and the optimizer:
 * an optional value, absolute value, natural powers, and the relative-percent
 * error that all three root-finders report.
 */
module Numeric {

  /** A value that may be absent (Python's `None`). */
  datatype Option<T> = None | Some(value: T)

  /** The last element of a nonempty sequence. */
  function Last<T>(s: seq<T>): T
    requires s != []
  {
    s[|s| - 1]
  }

  function Abs(x: real): (a: real)
    ensures a >= 0.0
    ensures a == x || a == -x
  {
    if x < 0.0 then -x else x
  }

  /** `base` raised to the natural power `n`. */
  function Pow(base: real, n: nat): real
  {
    if n == 0 then 1.0 else base * Pow(base, n - 1)
  }

  /**
   * The relative-percent change `|(now - before) / now| * 100`.  The source
   * computes it with a float division, so `now` must be nonzero; the callers
   * model what happens when it is zero.
   */
  function RelativePercent(now: real, before: real): (e: real)
    requires now != 0.0
    ensures e >= 0.0
    ensures e == 0.0 <==> now == before
  {
    Abs((now - before) / now) * 100.0
  }

  /** An error column value: Python's `float('inf')` or a finite percentage. */
  datatype PercentError = Infinite | Finite(value: real)

  /** The stopping test `error <= eps`: an infinite error never meets a finite tolerance. */
  predicate WithinTolerance(e: PercentError, eps: real)
  {
    e.Finite? && e.value <= eps
  }
}
