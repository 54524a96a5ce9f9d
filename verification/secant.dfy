/**
 * The secant root-finder of `secantUpdated.py`: the input checks of
 * `start_secant` and the loop of `secant_method`, which slides a two-point
 * window along the secant iterates until the relative-percent error of the
 * newest iterate drops to `eps` or the iteration budget runs out.
 */
module Secant {
  import opened Numeric

  /** The window `(x_{i-1}, x_i)` with the cached values `f(x_{i-1})` and `f(x_i)`. */
  datatype Window = Window(xPrev: real, x: real, fPrev: real, fx: real)

  /**
   * One displayed iteration `(a, b, f(a), f(b), error)`: record 0 shows the
   * initial pair, the record of pass `i` shows `x_i`, `x_{i+1}` and their values.
   */
  datatype Record = Record(iter: nat, a: real, b: real, fa: real, fb: real, error: PercentError)

  /** The input checks of `start_secant`. */
  datatype Rejection = NonPositiveIterations | EqualGuesses

  datatype Status =
    | Rejected(reason: Rejection)
    | Converged(root: real)
    | Exhausted(root: real)     // maximum iterations reached: a best-effort estimate
    | FlatSecant                // the division guard aborted the run without a result

  datatype Run = Run(trace: seq<Record>, status: Status)

  /** The bound below which `|f(x_{i-1}) - f(x_i)|` counts as a division by zero (1e-20). */
  const DenominatorFloor: real := 0.00000000000000000001

  /** The window a record leaves for the next pass. */
  function WindowOf(r: Record): Window
  {
    Window(r.a, r.b, r.fa, r.fb)
  }

  /**
   * The secant iterate `x_i - f(x_i)(x_{i-1} - x_i)/(f(x_{i-1}) - f(x_i))`:
   * the point where the line through the two window points meets zero.
   */
  function SecantPoint(w: Window): (xn: real)
    requires w.fPrev != w.fx
    ensures w.fx * (w.xPrev - w.x) + (xn - w.x) * (w.fPrev - w.fx) == 0.0
    ensures w.xPrev != w.x ==> w.fx + (w.fPrev - w.fx) / (w.xPrev - w.x) * (xn - w.x) == 0.0
  {
    var q := w.fx * (w.xPrev - w.x) / (w.fPrev - w.fx);
    assert q * (w.fPrev - w.fx) == w.fx * (w.xPrev - w.x);
    SecantLineVanishes(w, q);
    w.x - q
  }

  lemma SecantLineVanishes(w: Window, q: real)
    requires w.fPrev != w.fx
    requires q * (w.fPrev - w.fx) == w.fx * (w.xPrev - w.x)
    ensures w.xPrev != w.x ==> w.fx + (w.fPrev - w.fx) / (w.xPrev - w.x) * (w.x - q - w.x) == 0.0
  {
    if w.xPrev != w.x {
      var slope := (w.fPrev - w.fx) / (w.xPrev - w.x);
      assert slope * (w.xPrev - w.x) == w.fPrev - w.fx;
      calc {
        slope * (w.x - q - w.x) * (w.xPrev - w.x);
        -(q * (slope * (w.xPrev - w.x)));
        -(q * (w.fPrev - w.fx));
        -(w.fx * (w.xPrev - w.x));
      }
      assert (w.fx + slope * (w.x - q - w.x)) * (w.xPrev - w.x) == 0.0;
    }
  }

  /** The error of a new iterate `xn` against `x`: infinite when `xn` is 0. */
  function IterateError(xn: real, x: real): (e: PercentError)
    ensures e.Infinite? <==> xn == 0.0
    ensures e.Finite? ==> e.value >= 0.0 && (e.value == 0.0 <==> xn == x)
  {
    if xn != 0.0 then Finite(RelativePercent(xn, x)) else Infinite
  }

  /** An iterate equal to 0 can never meet a finite tolerance. */
  lemma ZeroIterateNeverConverges(x: real, eps: real)
    ensures !WithinTolerance(IterateError(0.0, x), eps)
  {
  }

  /**
   * The loop of `secant_method` from window `w`: `remaining` passes are left
   * and the next one is numbered `iter`.
   */
  function Loop(f: real -> real, eps: real, w: Window, iter: nat, remaining: nat): (run: Run)
    ensures |run.trace| <= remaining
    ensures !run.status.Rejected?
    ensures run.status.Converged? ==>
      run.trace != [] && run.status.root == Last(run.trace).b && WithinTolerance(Last(run.trace).error, eps)
    ensures run.status.Exhausted? ==> |run.trace| == remaining
    ensures run.status.Exhausted? ==> run.status.root == if remaining == 0 then w.x else Last(run.trace).b
    ensures run.status.FlatSecant? ==> |run.trace| < remaining
    decreases remaining
  {
    if remaining == 0 then Run([], Exhausted(w.x))
    else if Abs(w.fPrev - w.fx) < DenominatorFloor then Run([], FlatSecant)
    else
      var xn := SecantPoint(w);
      var fn := f(xn);
      var rec := Record(iter, w.x, xn, w.fx, fn, IterateError(xn, w.x));
      if WithinTolerance(rec.error, eps) then Run([rec], Converged(xn))
      else
        var rest := Loop(f, eps, WindowOf(rec), iter + 1, remaining - 1);
        Run([rec] + rest.trace, rest.status)
  }

  /** `secant_method` on its own: record 0 for the initial pair, then the loop numbered from 1. */
  function SecantMethod(f: real -> real, x0: real, x1: real, eps: real, maxIter: int): (run: Run)
    ensures run.trace != [] && run.trace[0] == Record(0, x0, x1, f(x0), f(x1), Infinite)
    ensures |run.trace| <= 1 + (if maxIter > 0 then maxIter else 0)
    ensures !run.status.Rejected?
  {
    var rec0 := Record(0, x0, x1, f(x0), f(x1), Infinite);
    var rest := Loop(f, eps, WindowOf(rec0), 1, if maxIter > 0 then maxIter else 0);
    Run([rec0] + rest.trace, rest.status)
  }

  /** `start_secant`: the input checks in the order the source makes them, then the method. */
  function StartSecant(f: real -> real, x0: real, x1: real, eps: real, maxIter: int): (run: Run)
    ensures run.status.Rejected? <==> maxIter <= 0 || x0 == x1
    ensures run.status == Rejected(NonPositiveIterations) <==> maxIter <= 0
    ensures run.status.Rejected? ==> run.trace == []
  {
    if maxIter <= 0 then Run([], Rejected(NonPositiveIterations))
    else if x0 == x1 then Run([], Rejected(EqualGuesses))
    else SecantMethod(f, x0, x1, eps, maxIter)
  }

  /** Both values a record shows are `f` of its points. */
  ghost predicate Evaluated(f: real -> real, r: Record)
  {
    r.fa == f(r.a) && r.fb == f(r.b)
  }

  /**
   * How the record of a pass follows the previous record: the guard let the
   * pass through, the window slid by one point carrying its cached value,
   * the new point is the secant iterate, and the previous record missed the
   * tolerance.
   */
  ghost predicate Follows(eps: real, prev: Record, next: Record)
  {
    && !WithinTolerance(prev.error, eps)
    && Abs(prev.fa - prev.fb) >= DenominatorFloor
    && next.iter == prev.iter + 1
    && next.a == prev.b && next.fa == prev.fb
    && next.b == SecantPoint(WindowOf(prev))
    && next.error == IterateError(next.b, next.a)
  }

  /** The newest record: the last of `t`, or `prev` when `t` is empty. */
  function Newest(prev: Record, t: seq<Record>): Record
  {
    if t == [] then prev else Last(t)
  }

  /** The shape of a run of the loop from the window that record `prev` leaves. */
  ghost predicate TraceFrom(f: real -> real, eps: real, prev: Record, run: Run)
  {
    var t := run.trace;
    && (t != [] ==> Follows(eps, prev, t[0]))
    && (forall k :: 0 <= k < |t| ==> Evaluated(f, t[k]))
    && (forall k :: 0 <= k < |t| - 1 ==> Follows(eps, t[k], t[k + 1]))
    && (run.status.FlatSecant? ==> Abs(Newest(prev, t).fa - Newest(prev, t).fb) < DenominatorFloor)
    && (!run.status.Converged? ==> !WithinTolerance(Newest(prev, t).error, eps))
  }

  /** A record that follows `prev`, then the run from the window it leaves. */
  lemma TraceCons(f: real -> real, eps: real, prev: Record, rec: Record, rest: Run)
    requires Follows(eps, prev, rec) && Evaluated(f, rec)
    requires TraceFrom(f, eps, rec, rest)
    ensures TraceFrom(f, eps, prev, Run([rec] + rest.trace, rest.status))
  {
    var t := [rec] + rest.trace;
    forall k | 0 <= k < |t| - 1
      ensures Follows(eps, t[k], t[k + 1])
    {
      if k > 0 {
        assert t[k] == rest.trace[k - 1] && t[k + 1] == rest.trace[k];
      }
    }
    if rest.trace != [] {
      assert Last(t) == Last(rest.trace);
    } else {
      assert Last(t) == rec;
    }
  }

  /** The shape of every trace the loop produces from a window whose values are cached. */
  lemma {:induction false} LoopTrace(f: real -> real, eps: real, prev: Record, remaining: nat)
    requires Evaluated(f, prev) && !WithinTolerance(prev.error, eps)
    ensures TraceFrom(f, eps, prev, Loop(f, eps, WindowOf(prev), prev.iter + 1, remaining))
    decreases remaining
  {
    var w := WindowOf(prev);
    if remaining > 0 && Abs(w.fPrev - w.fx) >= DenominatorFloor {
      var xn := SecantPoint(w);
      var rec := Record(prev.iter + 1, w.x, xn, w.fx, f(xn), IterateError(xn, w.x));
      assert Follows(eps, prev, rec) && Evaluated(f, rec);
      if !WithinTolerance(rec.error, eps) {
        LoopTrace(f, eps, rec, remaining - 1);
        var rest := Loop(f, eps, WindowOf(rec), rec.iter + 1, remaining - 1);
        assert Loop(f, eps, w, prev.iter + 1, remaining) == Run([rec] + rest.trace, rest.status);
        TraceCons(f, eps, prev, rec, rest);
      }
    }
  }

  /**
   * An accepted run: record `k` is numbered `k`, record 0 is the initial
   * pair with an infinite error, each later record follows the one before,
   * every value shown is `f` of its point, success reports the newest
   * iterate once its error is within `eps`, and any other ending comes after
   * a last record that missed it too: exhaustion reports the newest of
   * exactly `maxIter` iterates, and the guard aborts only on a window whose
   * values are closer than 1e-20.
   */
  lemma SecantRun(f: real -> real, x0: real, x1: real, eps: real, maxIter: int)
    requires !StartSecant(f, x0, x1, eps, maxIter).status.Rejected?
    ensures var run := StartSecant(f, x0, x1, eps, maxIter);
      var t := run.trace;
      && 1 <= |t| <= maxIter + 1
      && t[0] == Record(0, x0, x1, f(x0), f(x1), Infinite)
      && (forall k :: 0 <= k < |t| ==> t[k].iter == k && Evaluated(f, t[k]))
      && (forall k :: 0 <= k < |t| - 1 ==> Follows(eps, t[k], t[k + 1]))
      && (run.status.Converged? ==> |t| >= 2 && run.status.root == Last(t).b && WithinTolerance(Last(t).error, eps))
      && (run.status.Exhausted? ==> |t| == maxIter + 1 && run.status.root == Last(t).b)
      && (!run.status.Converged? ==> !WithinTolerance(Last(t).error, eps))
      && (run.status.FlatSecant? ==> |t| <= maxIter && Abs(Last(t).fa - Last(t).fb) < DenominatorFloor)
  {
    var rec0 := Record(0, x0, x1, f(x0), f(x1), Infinite);
    var rest := Loop(f, eps, WindowOf(rec0), 1, maxIter);
    LoopTrace(f, eps, rec0, maxIter);
    var t := StartSecant(f, x0, x1, eps, maxIter).trace;
    assert t == [rec0] + rest.trace;
    forall k | 0 <= k < |t|
      ensures t[k].iter == k && Evaluated(f, t[k])
    {
      IterNumbers(t, eps, k);
    }
  }

  lemma {:induction false} IterNumbers(t: seq<Record>, eps: real, k: nat)
    requires k < |t| && t[0].iter == 0
    requires forall j :: 0 <= j < |t| - 1 ==> Follows(eps, t[j], t[j + 1])
    ensures t[k].iter == k
  {
    if k > 0 {
      IterNumbers(t, eps, k - 1);
    }
  }
}
