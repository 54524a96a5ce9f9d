/**
 * The Newton-Raphson root-finder of `newton.py` (the iteration inside
 * `calculate`).  Its conventions are kept as written: the error of a pass is
 * the relative change of the current iterate against the previously
 * evaluated one (taken as 0 before the first pass), convergence is the
 * strict test `error < tol` and reports the current iterate, and exhaustion
 * reports the next iterate, which is never evaluated.
 */
module Newton {
  import opened Numeric

  /** One table row: the iterate, `f` and `f'` there, and the error column (omitted on row 0). */
  datatype Row = Row(iter: nat, x: real, fx: real, dfx: real, error: Option<real>)

  /** Python exceptions that reach the generic error handler of `calculate`. */
  datatype Fault =
    | ZeroIterate    // the error formula divides by an iterate equal to 0
    | NoIterations   // no pass ran, so the result formatter was never defined

  datatype Status =
    | Converged(root: real, passes: nat)
    | Exhausted(root: real)     // maximum iterations reached: a best-effort estimate
    | FlatDerivative            // `|f'(x)| < 1e-15`: the method stops without a result
    | Crashed(fault: Fault)

  datatype Run = Run(rows: seq<Row>, status: Status)

  /** The bound below which `|f'(x)|` counts as zero (1e-15). */
  const DerivativeFloor: real := 0.000000000000001

  /** The tangent step `x - f(x)/f'(x)`: the zero of the tangent line at `x`. */
  function TangentStep(x: real, fx: real, dfx: real): (xn: real)
    requires dfx != 0.0
    ensures fx + dfx * (xn - x) == 0.0
  {
    assert dfx * (fx / dfx) == fx;
    x - fx / dfx
  }

  /** The iterate that follows a row. */
  function Next(r: Row): real
    requires r.dfx != 0.0
  {
    TangentStep(r.x, r.fx, r.dfx)
  }

  /**
   * The passes of `calculate` from iterate `x`, whose previously evaluated
   * iterate is `xPrev`; `remaining` passes are left and the next is numbered `i`.
   */
  function Loop(f: real -> real, df: real -> real, tol: real, x: real, xPrev: real, i: nat, remaining: nat): (run: Run)
    ensures |run.rows| <= remaining
    ensures run.status.Converged? ==>
      run.rows != [] && run.status.root == Last(run.rows).x && run.status.passes == i + |run.rows|
    ensures run.status.Exhausted? ==> |run.rows| == remaining
    ensures run.status.Exhausted? && remaining == 0 ==> run.status.root == x
    ensures run.status.Exhausted? && remaining > 0 ==>
      Last(run.rows).dfx != 0.0 && run.status.root == Next(Last(run.rows))
    ensures run.status.FlatDerivative? || run.status.Crashed? ==> |run.rows| < remaining
    ensures run.status != Crashed(NoIterations)
    decreases remaining
  {
    if remaining == 0 then Run([], Exhausted(x))
    else
      var fx := f(x);
      var dfx := df(x);
      if Abs(dfx) < DerivativeFloor then Run([], FlatDerivative)
      else
        var xNext := TangentStep(x, fx, dfx);
        if x == 0.0 then Run([], Crashed(ZeroIterate))
        else
          var error := RelativePercent(x, xPrev);
          var row := Row(i, x, fx, dfx, if i > 0 then Some(error) else None);
          if error < tol then Run([row], Converged(x, i + 1))
          else
            var rest := Loop(f, df, tol, xNext, x, i + 1, remaining - 1);
            Run([row] + rest.rows, rest.status)
  }

  /** `calculate`: at most `maxIter` passes from `x0`, with the previous iterate starting at 0. */
  function Calculate(f: real -> real, df: real -> real, x0: real, tol: real, maxIter: int): (run: Run)
    ensures maxIter <= 0 <==> run.status == Crashed(NoIterations)
    ensures |run.rows| <= if maxIter > 0 then maxIter else 0
  {
    if maxIter <= 0 then Run([], Crashed(NoIterations))
    else Loop(f, df, tol, x0, 0.0, 0, maxIter)
  }

  /** The error a row was tested against `tol` with: its change against the previous iterate. */
  ghost predicate Tested(r: Row, xPrev: real, tol: real, last: bool)
  {
    && r.x != 0.0
    && r.error == (if r.iter > 0 then Some(RelativePercent(r.x, xPrev)) else None)
    && (last || RelativePercent(r.x, xPrev) >= tol)
  }

  /** What a row shows about `f` and `f'` at its iterate. */
  ghost predicate Evaluated(f: real -> real, df: real -> real, r: Row)
  {
    r.fx == f(r.x) && r.dfx == df(r.x) && Abs(r.dfx) >= DerivativeFloor
  }

  /** The iterate evaluated in the pass after the rows `rows` of a run from `x0`. */
  function Upcoming(rows: seq<Row>, x0: real): real
  {
    if rows == [] || Last(rows).dfx == 0.0 then x0 else Next(Last(rows))
  }

  /** The iterate evaluated just before row `k`, or 0 for row 0. */
  function PrevX(rows: seq<Row>, k: nat): real
    requires k < |rows|
  {
    if k == 0 then 0.0 else rows[k - 1].x
  }

  /** The rows of a run from iterate `x`, previous iterate `xPrev` and pass number `i`. */
  ghost predicate RowsFrom(f: real -> real, df: real -> real, tol: real, t: seq<Row>, x: real, xPrev: real, i: nat)
  {
    && (t != [] ==> t[0].x == x && Tested(t[0], xPrev, tol, |t| == 1))
    && (forall k :: 0 <= k < |t| ==> t[k].iter == i + k && Evaluated(f, df, t[k]))
    && (forall k :: 0 <= k < |t| - 1 ==> t[k + 1].x == Next(t[k]) && Tested(t[k + 1], t[k].x, tol, k + 1 == |t| - 1))
  }

  /** A row that missed the tolerance, followed by the rows of the run from its tangent step. */
  lemma RowsCons(f: real -> real, df: real -> real, tol: real, row: Row, xPrev: real, rest: seq<Row>)
    requires Evaluated(f, df, row) && Tested(row, xPrev, tol, false) && row.dfx != 0.0
    requires RowsFrom(f, df, tol, rest, Next(row), row.x, row.iter + 1)
    ensures RowsFrom(f, df, tol, [row] + rest, row.x, xPrev, row.iter)
  {
    var t := [row] + rest;
    forall k | 0 <= k < |t| - 1
      ensures t[k + 1].x == Next(t[k]) && Tested(t[k + 1], t[k].x, tol, k + 1 == |t| - 1)
    {
      if k > 0 {
        assert t[k] == rest[k - 1] && t[k + 1] == rest[k];
      }
    }
  }

  /** A single row that was evaluated and tested. */
  lemma RowsOne(f: real -> real, df: real -> real, tol: real, row: Row, xPrev: real)
    requires Evaluated(f, df, row) && Tested(row, xPrev, tol, true)
    ensures RowsFrom(f, df, tol, [row], row.x, xPrev, row.iter)
  {
  }

  /** The rows of every run of the loop. */
  lemma {:induction false} LoopRows(f: real -> real, df: real -> real, tol: real, x: real, xPrev: real, i: nat, remaining: nat)
    ensures RowsFrom(f, df, tol, Loop(f, df, tol, x, xPrev, i, remaining).rows, x, xPrev, i)
    decreases remaining
  {
    if remaining > 0 && Abs(df(x)) >= DerivativeFloor && x != 0.0 {
      LoopRows(f, df, tol, TangentStep(x, f(x), df(x)), x, i + 1, remaining - 1);
    }
    RowsStep(f, df, tol, x, xPrev, i, remaining);
  }

  /** One pass of the loop extends the rows of the run from the next iterate. */
  lemma RowsStep(f: real -> real, df: real -> real, tol: real, x: real, xPrev: real, i: nat, remaining: nat)
    requires remaining > 0 && Abs(df(x)) >= DerivativeFloor && x != 0.0 ==>
      RowsFrom(f, df, tol, Loop(f, df, tol, TangentStep(x, f(x), df(x)), x, i + 1, remaining - 1).rows, TangentStep(x, f(x), df(x)), x, i + 1)
    ensures RowsFrom(f, df, tol, Loop(f, df, tol, x, xPrev, i, remaining).rows, x, xPrev, i)
  {
    if remaining > 0 {
      var fx := f(x);
      var dfx := df(x);
      if Abs(dfx) < DerivativeFloor || x == 0.0 {
        assert Loop(f, df, tol, x, xPrev, i, remaining).rows == [];
      } else {
        var xNext := TangentStep(x, fx, dfx);
        var error := RelativePercent(x, xPrev);
        var row := Row(i, x, fx, dfx, if i > 0 then Some(error) else None);
        if error < tol {
          assert Loop(f, df, tol, x, xPrev, i, remaining).rows == [row];
          RowsOne(f, df, tol, row, xPrev);
        } else {
          var rest := Loop(f, df, tol, xNext, x, i + 1, remaining - 1).rows;
          assert Loop(f, df, tol, x, xPrev, i, remaining).rows == [row] + rest;
          assert Next(row) == xNext;
          assert Tested(row, xPrev, tol, false);
          assert Evaluated(f, df, row);
          assert row.dfx != 0.0;
          assert RowsFrom(f, df, tol, rest, Next(row), row.x, row.iter + 1);
          RowsCons(f, df, tol, row, xPrev, rest);
        }
      }
    }
  }

  /** How a run from iterate `x` with previous iterate `xPrev` ended. */
  ghost predicate EndsFrom(df: real -> real, tol: real, run: Run, x: real, xPrev: real)
  {
    var t := run.rows;
    && (run.status.Converged? ==> t != [] && Last(t).x != 0.0 && RelativePercent(Last(t).x, if |t| == 1 then xPrev else t[|t| - 2].x) < tol)
    && (!run.status.Converged? && t != [] ==> Last(t).x != 0.0 && RelativePercent(Last(t).x, if |t| == 1 then xPrev else t[|t| - 2].x) >= tol)
    && (run.status.FlatDerivative? ==> Abs(df(Upcoming(t, x))) < DerivativeFloor)
    && (run.status.Crashed? ==> Upcoming(t, x) == 0.0 && Abs(df(0.0)) >= DerivativeFloor)
  }

  /** A row followed by the run from its tangent step ends as that run does. */
  lemma EndsCons(df: real -> real, tol: real, row: Row, xPrev: real, rest: Run)
    requires row.dfx != 0.0 && (rest.rows != [] ==> Last(rest.rows).dfx != 0.0)
    requires row.x != 0.0 && RelativePercent(row.x, xPrev) >= tol
    requires EndsFrom(df, tol, rest, Next(row), row.x)
    ensures EndsFrom(df, tol, Run([row] + rest.rows, rest.status), row.x, xPrev)
  {
    var t := [row] + rest.rows;
    if rest.rows != [] {
      assert Last(t) == Last(rest.rows);
      assert |rest.rows| >= 2 ==> t[|t| - 2] == rest.rows[|rest.rows| - 2];
      assert |rest.rows| == 1 ==> t[|t| - 2] == row;
      assert Upcoming(t, row.x) == Upcoming(rest.rows, Next(row));
    } else {
      assert Last(t) == row;
    }
  }

  /** How every run of the loop ends. */
  lemma {:induction false} LoopEnd(f: real -> real, df: real -> real, tol: real, x: real, xPrev: real, i: nat, remaining: nat)
    ensures EndsFrom(df, tol, Loop(f, df, tol, x, xPrev, i, remaining), x, xPrev)
    decreases remaining
  {
    if remaining > 0 && Abs(df(x)) >= DerivativeFloor && x != 0.0 {
      LoopEnd(f, df, tol, TangentStep(x, f(x), df(x)), x, i + 1, remaining - 1);
    }
    EndsStep(f, df, tol, x, xPrev, i, remaining);
  }

  /** One pass of the loop ends as the run from the next iterate does, unless it stops there. */
  lemma EndsStep(f: real -> real, df: real -> real, tol: real, x: real, xPrev: real, i: nat, remaining: nat)
    requires remaining > 0 && Abs(df(x)) >= DerivativeFloor && x != 0.0 ==>
      EndsFrom(df, tol, Loop(f, df, tol, TangentStep(x, f(x), df(x)), x, i + 1, remaining - 1), TangentStep(x, f(x), df(x)), x)
    ensures EndsFrom(df, tol, Loop(f, df, tol, x, xPrev, i, remaining), x, xPrev)
  {
    if remaining > 0 {
      var fx := f(x);
      var dfx := df(x);
      if Abs(dfx) >= DerivativeFloor && x != 0.0 {
        var xNext := TangentStep(x, fx, dfx);
        var error := RelativePercent(x, xPrev);
        if error >= tol {
          var rest := Loop(f, df, tol, xNext, x, i + 1, remaining - 1);
          if rest.rows != [] {
            LoopRows(f, df, tol, xNext, x, i + 1, remaining - 1);
            assert Evaluated(f, df, rest.rows[|rest.rows| - 1]);
          }
          var row := Row(i, x, fx, dfx, if i > 0 then Some(error) else None);
          assert Loop(f, df, tol, x, xPrev, i, remaining) == Run([row] + rest.rows, rest.status);
          assert Next(row) == xNext;
          assert row.dfx != 0.0;
          assert EndsFrom(df, tol, rest, Next(row), row.x);
          EndsCons(df, tol, row, xPrev, rest);
        }
      }
    }
  }

  /**
   * A run of `calculate` with at least one pass: row `k` is numbered `k` and
   * shows `f` and `f'` at its iterate, row 0 is `x0` without an error column,
   * each later row is the tangent step from the one before and shows its
   * change against it, and every row but the last missed the tolerance.
   * Convergence reports the iterate of the last row; every other ending
   * comes after a last row that missed the tolerance too. Exhaustion reports
   * the tangent step from the last of exactly `maxIter` rows, and the two
   * aborts happen at the iterate the next pass evaluates, the zero iterate
   * only once the derivative test there has passed.
   */
  lemma NewtonRun(f: real -> real, df: real -> real, x0: real, tol: real, maxIter: int)
    requires maxIter > 0
    ensures var run := Calculate(f, df, x0, tol, maxIter);
      var t := run.rows;
      && (t != [] ==> t[0].x == x0 && t[0].error == None)
      && (forall k :: 0 <= k < |t| ==> t[k].iter == k && Evaluated(f, df, t[k]) && Tested(t[k], PrevX(t, k), tol, k == |t| - 1))
      && (forall k :: 0 <= k < |t| - 1 ==> t[k + 1].x == Next(t[k]))
      && (run.status.Converged? ==>
            run.status.root == Last(t).x && run.status.passes == |t| && RelativePercent(Last(t).x, PrevX(t, |t| - 1)) < tol)
      && (run.status.Exhausted? ==> |t| == maxIter && run.status.root == Next(Last(t)))
      && (run.status.FlatDerivative? ==> |t| < maxIter && Abs(df(Upcoming(t, x0))) < DerivativeFloor)
      && (!run.status.Converged? && t != [] ==> RelativePercent(Last(t).x, PrevX(t, |t| - 1)) >= tol)
      && (run.status.Crashed? ==> |t| < maxIter && Upcoming(t, x0) == 0.0 && Abs(df(0.0)) >= DerivativeFloor)
  {
    LoopRows(f, df, tol, x0, 0.0, 0, maxIter);
    LoopEnd(f, df, tol, x0, 0.0, 0, maxIter);
    var t := Calculate(f, df, x0, tol, maxIter).rows;
    forall k | 0 <= k < |t|
      ensures Tested(t[k], PrevX(t, k), tol, k == |t| - 1)
    {
      if k > 0 {
        assert Tested(t[k - 1 + 1], t[k - 1].x, tol, k - 1 + 1 == |t| - 1);
      }
    }
  }

  /**
   * The first pass compares `x0` with the initial previous iterate 0, so its
   * error is 100%: a run stops there exactly when `100 < tol`.
   */
  lemma FirstPassError(f: real -> real, df: real -> real, x0: real, tol: real, maxIter: int)
    requires maxIter > 0 && x0 != 0.0 && Abs(df(x0)) >= DerivativeFloor
    ensures Calculate(f, df, x0, tol, maxIter).status == Converged(x0, 1) <==> 100.0 < tol
  {
    assert (x0 - 0.0) / x0 == 1.0;
    assert RelativePercent(x0, 0.0) == 100.0;
  }
}
