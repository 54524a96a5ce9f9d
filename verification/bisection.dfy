/**
 * The bisection root-finder of `BisectUPdated.py`: the input checks of
 * `start_bisection`, the sign check of `bisection_method`, and its loop, which
 * halves a sign-change bracket until the relative-percent error of the
 * midpoint drops to `eps` or the iteration budget runs out.
 */
module Bisection {
  import opened Numeric

  /** The bracket `[xl, xu]` with the cached values `f(xl)` and `f(xu)`. */
  datatype Bracket = Bracket(xl: real, xu: real, fxl: real, fxu: real)
  {
    function Width(): real { xu - xl }

    predicate SignChange() { fxl * fxu < 0.0 }

    predicate Cached(f: real -> real) { fxl == f(xl) && fxu == f(xu) }
  }

  /** One displayed iteration: the bracket before the update, the midpoint, `f` there, and the error. */
  datatype Record = Record(iter: nat, bracket: Bracket, xr: real, fxr: real, error: PercentError)

  /** The input checks of `start_bisection` (the last one is also made by `bisection_method`). */
  datatype Rejection = NonPositiveIterations | EmptyBracket | NoSignChange

  /** Python exceptions that reach the generic error handler of `start_bisection`. */
  datatype Fault =
    | ZeroMidpoint   // the error formula divides by a midpoint equal to 0
    | NoMidpoint     // the loop never ran, so there is no last midpoint to report

  datatype Status =
    | Rejected(reason: Rejection)
    | Converged(root: real)
    | Exhausted(root: real)     // maximum iterations reached: a best-effort estimate
    | Crashed(fault: Fault)

  datatype Run = Run(trace: seq<Record>, status: Status)

  /** The midpoint `(xl + xu) / 2` of a bracket. */
  function Midpoint(b: Bracket): (xr: real)
    ensures xr - b.xl == b.xu - xr
    ensures b.xl < b.xu ==> b.xl < xr < b.xu
  {
    (b.xl + b.xu) / 2.0
  }

  /**
   * The error of a pass whose midpoint is `xr`, given the previous midpoint
   * (absent on the first pass); `None` where Python's float division raises.
   */
  function PassError(xr: real, fxr: real, xrold: Option<real>): (e: Option<PercentError>)
    ensures e.None? <==> fxr != 0.0 && xrold.Some? && xr == 0.0
    ensures fxr == 0.0 ==> e == Some(Finite(0.0))
    ensures fxr != 0.0 && xrold.None? ==> e == Some(Infinite)
    ensures fxr != 0.0 && xrold.Some? && xr != 0.0 ==>
      e.Some? && e.value.Finite? && e.value.value >= 0.0 && (e.value.value == 0.0 <==> xr == xrold.value)
  {
    if fxr == 0.0 then Some(Finite(0.0))
    else
      match xrold
      case None => Some(Infinite)
      case Some(prev) => if xr == 0.0 then None else Some(Finite(RelativePercent(xr, prev)))
  }

  /** Replaces the bound on the side without a sign change by the midpoint, with its cached value. */
  function Narrow(b: Bracket, xr: real, fxr: real): (n: Bracket)
    ensures n == b.(xu := xr, fxu := fxr) || n == b.(xl := xr, fxl := fxr)
    ensures b.fxl * fxr < 0.0 ==> n.xl == b.xl && n.fxl == b.fxl
    ensures !(b.fxl * fxr < 0.0) ==> n.xu == b.xu && n.fxu == b.fxu
  {
    if b.fxl * fxr < 0.0 then b.(xu := xr, fxu := fxr) else b.(xl := xr, fxl := fxr)
  }

  /** Narrowing at the midpoint keeps the bracket proper and halves its width exactly. */
  lemma NarrowHalves(b: Bracket, fxr: real)
    requires b.xl < b.xu
    ensures Narrow(b, Midpoint(b), fxr).xl < Narrow(b, Midpoint(b), fxr).xu
    ensures Narrow(b, Midpoint(b), fxr).Width() * 2.0 == b.Width()
  {
  }

  /** A nonzero value at the new bound keeps the sign change of the bracket. */
  lemma NarrowKeepsSignChange(b: Bracket, xr: real, fxr: real)
    requires b.SignChange() && fxr != 0.0
    ensures Narrow(b, xr, fxr).SignChange()
  {
    if !(b.fxl * fxr < 0.0) {
      assert b.fxl != 0.0;
      if b.fxl > 0.0 {
        assert fxr > 0.0 && b.fxu < 0.0;
      } else {
        assert fxr < 0.0 && b.fxu > 0.0;
      }
    }
  }

  /**
   * The loop of `bisection_method`: `remaining` passes are left, the next one
   * is numbered `iter`, and `xrold` is the previous midpoint.
   */
  function Loop(f: real -> real, eps: real, b: Bracket, xrold: Option<real>, iter: nat, remaining: nat): (run: Run)
    ensures |run.trace| <= remaining
    ensures !run.status.Rejected?
    ensures run.status.Converged? ==>
      run.trace != [] && run.status.root == Last(run.trace).xr && WithinTolerance(Last(run.trace).error, eps)
    ensures run.status.Exhausted? ==> |run.trace| == remaining
    ensures run.status.Exhausted? && remaining > 0 ==> run.status.root == Last(run.trace).xr
    ensures run.status.Exhausted? && remaining == 0 ==> xrold == Some(run.status.root)
    ensures run.status == Crashed(NoMidpoint) ==> remaining == 0 && xrold == None
    decreases remaining
  {
    if remaining == 0 then
      match xrold
      case None => Run([], Crashed(NoMidpoint))
      case Some(x) => Run([], Exhausted(x))
    else
      var xr := Midpoint(b);
      var fxr := f(xr);
      match PassError(xr, fxr, xrold)
      case None => Run([], Crashed(ZeroMidpoint))
      case Some(e) =>
        var rec := Record(iter, b, xr, fxr, e);
        if WithinTolerance(e, eps) then Run([rec], Converged(xr))
        else
          var rest := Loop(f, eps, Narrow(b, xr, fxr), Some(xr), iter + 1, remaining - 1);
          Run([rec] + rest.trace, rest.status)
  }

  /** What a single record states about itself: the midpoint and its value. */
  ghost predicate Evaluated(f: real -> real, r: Record)
  {
    r.xr == Midpoint(r.bracket) && r.fxr == f(r.xr)
  }

  /** How a record follows a non-terminating one. */
  ghost predicate Follows(eps: real, prev: Record, next: Record)
  {
    && !WithinTolerance(prev.error, eps)
    && next.iter == prev.iter + 1
    && next.bracket == Narrow(prev.bracket, prev.xr, prev.fxr)
    && PassError(next.xr, next.fxr, Some(prev.xr)) == Some(next.error)
  }

  /** The shape of the trace `t` of a run from bracket `b`, previous midpoint `xrold` and pass `iter`. */
  ghost predicate TraceFrom(f: real -> real, eps: real, b: Bracket, xrold: Option<real>, iter: nat, t: seq<Record>)
  {
    && (t != [] ==> t[0].iter == iter && t[0].bracket == b && PassError(t[0].xr, t[0].fxr, xrold) == Some(t[0].error))
    && (forall k :: 0 <= k < |t| ==> Evaluated(f, t[k]))
    && (forall k :: 0 <= k < |t| - 1 ==> Follows(eps, t[k], t[k + 1]))
  }

  /** A record that missed the tolerance, then the trace of the run from the bracket it leaves. */
  lemma TraceCons(f: real -> real, eps: real, rec: Record, xrold: Option<real>, rest: seq<Record>)
    requires Evaluated(f, rec) && PassError(rec.xr, rec.fxr, xrold) == Some(rec.error)
    requires !WithinTolerance(rec.error, eps)
    requires TraceFrom(f, eps, Narrow(rec.bracket, rec.xr, rec.fxr), Some(rec.xr), rec.iter + 1, rest)
    ensures TraceFrom(f, eps, rec.bracket, xrold, rec.iter, [rec] + rest)
  {
    var t := [rec] + rest;
    forall k | 0 <= k < |t| - 1
      ensures Follows(eps, t[k], t[k + 1])
    {
      if k > 0 {
        assert t[k] == rest[k - 1] && t[k + 1] == rest[k];
      }
    }
  }

  /** The shape of every trace the loop produces. */
  lemma {:induction false} LoopTrace(f: real -> real, eps: real, b: Bracket, xrold: Option<real>, iter: nat, remaining: nat)
    ensures TraceFrom(f, eps, b, xrold, iter, Loop(f, eps, b, xrold, iter, remaining).trace)
    decreases remaining
  {
    if remaining > 0 {
      var xr := Midpoint(b);
      var fxr := f(xr);
      var e := PassError(xr, fxr, xrold);
      if e.Some? && !WithinTolerance(e.value, eps) {
        var n := Narrow(b, xr, fxr);
        LoopTrace(f, eps, n, Some(xr), iter + 1, remaining - 1);
        var rest := Loop(f, eps, n, Some(xr), iter + 1, remaining - 1).trace;
        var rec := Record(iter, b, xr, fxr, e.value);
        assert Loop(f, eps, b, xrold, iter, remaining).trace == [rec] + rest;
        assert Evaluated(f, rec) && PassError(rec.xr, rec.fxr, xrold) == Some(rec.error);
        assert TraceFrom(f, eps, Narrow(rec.bracket, rec.xr, rec.fxr), Some(rec.xr), rec.iter + 1, rest);
        TraceCons(f, eps, rec, xrold, rest);
      }
    }
  }

  /** The bracket that the pass after the records `t` of a run from `b` halves. */
  function NextBracket(b: Bracket, t: seq<Record>): Bracket
  {
    if t == [] then b else Narrow(Last(t).bracket, Last(t).xr, Last(t).fxr)
  }

  /**
   * A run from `b` crashes only in a pass that has a previous midpoint, whose
   * own midpoint is 0 and not a zero of `f`, before its budget runs out.
   */
  ghost predicate CrashesAt(f: real -> real, b: Bracket, xrold: Option<real>, remaining: nat, run: Run)
  {
    run.status == Crashed(ZeroMidpoint) ==>
      && |run.trace| < remaining
      && (run.trace != [] || xrold.Some?)
      && Midpoint(NextBracket(b, run.trace)) == 0.0
      && f(0.0) != 0.0
  }

  /** A record, then a run from the bracket it leaves, crashes as that run does. */
  lemma CrashCons(f: real -> real, b: Bracket, xrold: Option<real>, remaining: nat, rec: Record, rest: Run)
    requires remaining > 0 && rec.bracket == b
    requires CrashesAt(f, Narrow(b, rec.xr, rec.fxr), Some(rec.xr), remaining - 1, rest)
    ensures CrashesAt(f, b, xrold, remaining, Run([rec] + rest.trace, rest.status))
  {
    var t := [rec] + rest.trace;
    if rest.trace != [] {
      assert Last(t) == Last(rest.trace);
    } else {
      assert Last(t) == rec;
    }
    assert NextBracket(b, t) == NextBracket(Narrow(b, rec.xr, rec.fxr), rest.trace);
  }

  /** Where every run of the loop crashes. */
  lemma {:induction false} LoopCrash(f: real -> real, eps: real, b: Bracket, xrold: Option<real>, iter: nat, remaining: nat)
    ensures CrashesAt(f, b, xrold, remaining, Loop(f, eps, b, xrold, iter, remaining))
    decreases remaining
  {
    if remaining > 0 {
      LoopCrash(f, eps, Narrow(b, Midpoint(b), f(Midpoint(b))), Some(Midpoint(b)), iter + 1, remaining - 1);
    }
    CrashStep(f, eps, b, xrold, iter, remaining);
  }

  /** One pass of the loop crashes where the run from the bracket it leaves does, or at its own midpoint. */
  lemma CrashStep(f: real -> real, eps: real, b: Bracket, xrold: Option<real>, iter: nat, remaining: nat)
    requires remaining > 0 ==>
      var n := Narrow(b, Midpoint(b), f(Midpoint(b)));
      CrashesAt(f, n, Some(Midpoint(b)), remaining - 1, Loop(f, eps, n, Some(Midpoint(b)), iter + 1, remaining - 1))
    ensures CrashesAt(f, b, xrold, remaining, Loop(f, eps, b, xrold, iter, remaining))
  {
    if remaining > 0 {
      var xr := Midpoint(b);
      var fxr := f(xr);
      var e := PassError(xr, fxr, xrold);
      if e.Some? && !WithinTolerance(e.value, eps) {
        var n := Narrow(b, xr, fxr);
        var rest := Loop(f, eps, n, Some(xr), iter + 1, remaining - 1);
        var rec := Record(iter, b, xr, fxr, e.value);
        assert Loop(f, eps, b, xrold, iter, remaining) == Run([rec] + rest.trace, rest.status);
        assert CrashesAt(f, Narrow(b, rec.xr, rec.fxr), Some(rec.xr), remaining - 1, rest);
        CrashCons(f, b, xrold, remaining, rec, rest);
      }
    }
  }

  /** A run that did not converge ends, if it made a pass at all, with a record that missed the tolerance. */
  ghost predicate EndsMissed(eps: real, run: Run)
  {
    !run.status.Converged? && run.trace != [] ==> !WithinTolerance(Last(run.trace).error, eps)
  }

  /** A record that missed the tolerance, then a run that ends as `EndsMissed` says. */
  lemma MissedCons(eps: real, rec: Record, rest: Run)
    requires !WithinTolerance(rec.error, eps) && EndsMissed(eps, rest)
    ensures EndsMissed(eps, Run([rec] + rest.trace, rest.status))
  {
    var t := [rec] + rest.trace;
    if rest.trace != [] {
      assert Last(t) == Last(rest.trace);
    } else {
      assert Last(t) == rec;
    }
  }

  /** Every run of the loop ends as `EndsMissed` says. */
  lemma {:induction false} LoopMissed(f: real -> real, eps: real, b: Bracket, xrold: Option<real>, iter: nat, remaining: nat)
    ensures EndsMissed(eps, Loop(f, eps, b, xrold, iter, remaining))
    decreases remaining
  {
    if remaining > 0 {
      LoopMissed(f, eps, Narrow(b, Midpoint(b), f(Midpoint(b))), Some(Midpoint(b)), iter + 1, remaining - 1);
    }
    MissedStep(f, eps, b, xrold, iter, remaining);
  }

  /** One pass of the loop keeps `EndsMissed` of the run from the bracket it leaves. */
  lemma MissedStep(f: real -> real, eps: real, b: Bracket, xrold: Option<real>, iter: nat, remaining: nat)
    requires remaining > 0 ==>
      EndsMissed(eps, Loop(f, eps, Narrow(b, Midpoint(b), f(Midpoint(b))), Some(Midpoint(b)), iter + 1, remaining - 1))
    ensures EndsMissed(eps, Loop(f, eps, b, xrold, iter, remaining))
  {
    if remaining > 0 {
      var xr := Midpoint(b);
      var fxr := f(xr);
      var e := PassError(xr, fxr, xrold);
      if e.Some? && !WithinTolerance(e.value, eps) {
        var rest := Loop(f, eps, Narrow(b, xr, fxr), Some(xr), iter + 1, remaining - 1);
        var rec := Record(iter, b, xr, fxr, e.value);
        assert Loop(f, eps, b, xrold, iter, remaining) == Run([rec] + rest.trace, rest.status);
        MissedCons(eps, rec, rest);
      }
    }
  }

  /** The bracket of the record `k` passes into a run. */
  ghost predicate BracketAt(f: real -> real, b0: Bracket, k: nat, b: Bracket)
  {
    && b.xl < b.xu
    && b.SignChange()
    && b.Cached(f)
    && b.Width() == b0.Width() * Pow(0.5, k)
  }

  lemma HalvedWidth(w: real, half: real, k: nat)
    requires k > 0 && half * 2.0 == w
    ensures half * Pow(0.5, k - 1) == w * Pow(0.5, k)
  {
    var p := Pow(0.5, k - 1);
    assert Pow(0.5, k) == 0.5 * p;
    assert w * (0.5 * p) == (w * 0.5) * p;
  }

  /** Every record `k` of `t` has the bracket `BracketAt(f, b0, k, _)` and its midpoint inside. */
  ghost predicate Brackets(f: real -> real, b0: Bracket, t: seq<Record>)
  {
    forall k :: 0 <= k < |t| ==> BracketAt(f, b0, k, t[k].bracket) && t[k].bracket.xl < t[k].xr < t[k].bracket.xu
  }

  /**
   * Given `eps >= 0` and a proper sign-change bracket with cached values,
   * every record of the loop has a proper sign-change bracket whose width is
   * the initial width halved once per pass, with the midpoint strictly inside.
   */
  lemma {:induction false} LoopBrackets(f: real -> real, eps: real, b: Bracket, xrold: Option<real>, iter: nat, remaining: nat)
    requires eps >= 0.0
    requires b.xl < b.xu && b.SignChange() && b.Cached(f)
    ensures Brackets(f, b, Loop(f, eps, b, xrold, iter, remaining).trace)
    decreases remaining
  {
    var t := Loop(f, eps, b, xrold, iter, remaining).trace;
    if remaining > 0 {
      var xr := Midpoint(b);
      var fxr := f(xr);
      var e := PassError(xr, fxr, xrold);
      if e.Some? && !WithinTolerance(e.value, eps) {
        var n := Narrow(b, xr, fxr);
        assert fxr != 0.0;
        NarrowHalves(b, fxr);
        NarrowKeepsSignChange(b, xr, fxr);
        var t' := Loop(f, eps, n, Some(xr), iter + 1, remaining - 1).trace;
        LoopBrackets(f, eps, n, Some(xr), iter + 1, remaining - 1);
        assert t == [Record(iter, b, xr, fxr, e.value)] + t';
        BracketsCons(f, b, n, Record(iter, b, xr, fxr, e.value), t');
      }
    }
  }

  /** A record on the initial bracket followed by records of a bracket half as wide. */
  lemma BracketsCons(f: real -> real, b: Bracket, n: Bracket, rec: Record, t: seq<Record>)
    requires b.xl < b.xu && b.SignChange() && b.Cached(f)
    requires rec.bracket == b && b.xl < rec.xr < b.xu
    requires n.Width() * 2.0 == b.Width() && Brackets(f, n, t)
    ensures Brackets(f, b, [rec] + t)
  {
    var t2 := [rec] + t;
    forall k | 0 <= k < |t2|
      ensures BracketAt(f, b, k, t2[k].bracket) && t2[k].bracket.xl < t2[k].xr < t2[k].bracket.xu
    {
      if k > 0 {
        assert t2[k] == t[k - 1];
        assert BracketAt(f, n, k - 1, t[k - 1].bracket);
        HalvedWidth(b.Width(), n.Width(), k);
      }
    }
  }

  /** `bisection_method` on its own: it rejects only `f(xl)*f(xu) > 0` and numbers passes from 1. */
  function BisectionMethod(f: real -> real, xl: real, xu: real, eps: real, maxIter: int): (run: Run)
    ensures run.status == Rejected(NoSignChange) <==> f(xl) * f(xu) > 0.0
    ensures run.status.Rejected? ==> run.trace == []
    ensures |run.trace| <= if maxIter > 0 then maxIter else 0
    ensures maxIter <= 0 && f(xl) * f(xu) <= 0.0 ==> run.status == Crashed(NoMidpoint)
  {
    var b := Bracket(xl, xu, f(xl), f(xu));
    if b.fxl * b.fxu > 0.0 then Run([], Rejected(NoSignChange))
    else Loop(f, eps, b, None, 1, if maxIter > 0 then maxIter else 0)
  }

  /** `start_bisection`: the input checks in the order the source makes them, then the method. */
  function StartBisection(f: real -> real, xl: real, xu: real, eps: real, maxIter: int): (run: Run)
    ensures run.status.Rejected? <==> maxIter <= 0 || xl >= xu || f(xl) * f(xu) >= 0.0
    ensures run.status == Rejected(NonPositiveIterations) <==> maxIter <= 0
    ensures run.status == Rejected(EmptyBracket) <==> maxIter > 0 && xl >= xu
    ensures run.status.Rejected? ==> run.trace == []
  {
    if maxIter <= 0 then Run([], Rejected(NonPositiveIterations))
    else if xl >= xu then Run([], Rejected(EmptyBracket))
    else if f(xl) * f(xu) >= 0.0 then Run([], Rejected(NoSignChange))
    else BisectionMethod(f, xl, xu, eps, maxIter)
  }

  /**
   * An accepted run: records are numbered from 1, the first has an infinite
   * error unless its midpoint is a zero of `f`, each later error is measured
   * against the previous midpoint, and every non-final record missed the
   * tolerance. Success reports the last midpoint once its error is within
   * `eps`; any other ending comes after a last record that missed it too.
   * Exhaustion reports the last of exactly `maxIter` midpoints, and a crash
   * happens only in a later pass, within the budget, whose midpoint is 0
   * without being a zero of `f`.
   */
  lemma BisectionRun(f: real -> real, xl: real, xu: real, eps: real, maxIter: int)
    requires !StartBisection(f, xl, xu, eps, maxIter).status.Rejected?
    ensures var run := StartBisection(f, xl, xu, eps, maxIter);
      var t := run.trace;
      && |t| <= maxIter
      && (t != [] ==> t[0].bracket == Bracket(xl, xu, f(xl), f(xu)))
      && (t != [] ==> PassError(t[0].xr, t[0].fxr, None) == Some(t[0].error))
      && (t != [] && t[0].fxr != 0.0 ==> t[0].error == Infinite)
      && (forall k :: 0 <= k < |t| ==> t[k].iter == k + 1 && Evaluated(f, t[k]))
      && (forall k :: 0 <= k < |t| - 1 ==> Follows(eps, t[k], t[k + 1]))
      && (run.status.Converged? ==> t != [] && run.status.root == Last(t).xr && WithinTolerance(Last(t).error, eps))
      && (run.status.Exhausted? ==> |t| == maxIter && run.status.root == Last(t).xr)
      && (!run.status.Converged? && t != [] ==> !WithinTolerance(Last(t).error, eps))
      && (run.status.Crashed? ==> run.status.fault == ZeroMidpoint)
      && (run.status.Crashed? ==>
            |t| < maxIter && t != [] && Midpoint(Narrow(Last(t).bracket, Last(t).xr, Last(t).fxr)) == 0.0 && f(0.0) != 0.0)
  {
    var b := Bracket(xl, xu, f(xl), f(xu));
    LoopTrace(f, eps, b, None, 1, maxIter);
    LoopCrash(f, eps, b, None, 1, maxIter);
    LoopMissed(f, eps, b, None, 1, maxIter);
    var t := StartBisection(f, xl, xu, eps, maxIter).trace;
    forall k | 0 <= k < |t|
      ensures t[k].iter == k + 1
    {
      IterNumbers(t, eps, k);
    }
  }

  lemma {:induction false} IterNumbers(t: seq<Record>, eps: real, k: nat)
    requires k < |t| && t[0].iter == 1
    requires forall j :: 0 <= j < |t| - 1 ==> Follows(eps, t[j], t[j + 1])
    ensures t[k].iter == k + 1
  {
    if k > 0 {
      IterNumbers(t, eps, k - 1);
    }
  }

  /**
   * For `eps >= 0`, every record of an accepted run has a proper sign-change
   * bracket of width `(xu - xl) / 2^k` with cached end values, and its
   * midpoint lies strictly inside.
   */
  lemma BisectionBrackets(f: real -> real, xl: real, xu: real, eps: real, maxIter: int)
    requires eps >= 0.0
    requires !StartBisection(f, xl, xu, eps, maxIter).status.Rejected?
    ensures Brackets(f, Bracket(xl, xu, f(xl), f(xu)), StartBisection(f, xl, xu, eps, maxIter).trace)
  {
    var b := Bracket(xl, xu, f(xl), f(xu));
    assert StartBisection(f, xl, xu, eps, maxIter) == Loop(f, eps, b, None, 1, maxIter);
    LoopBrackets(f, eps, b, None, 1, maxIter);
  }
}
