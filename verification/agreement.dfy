/**
 * The two linear-system calculators side by side: with the same pivoting
 * setting, `GE.py` and `LUDec.py` choose the same pivot rows and perform the
 * same eliminations on the coefficient part (the multipliers that GE applies
 * to the augmented column, LU stores in `L`), so over the reals they divide
 * by zero at the same place or return the same solution.
 */
module Agreement {
  import opened Matrices
  import Gauss
  import LU

  /** The coefficient part of the augmented matrix equals `U`. */
  ghost predicate Mirrors(ab: Matrix, u: Matrix)
    requires Shaped(ab, 4) && Shaped(u, 3)
  {
    forall r, c :: 0 <= r < 3 && 0 <= c < 3 ==> ab[r][c] == u[r][c]
  }

  /** The pivot rule looks at column `col` only. */
  lemma {:induction false} ArgMaxSame(m1: Matrix, m2: Matrix, col: nat, best: nat, next: nat)
    requires |m1| == 3 && |m2| == 3 && best < next <= 3
    requires forall r :: 0 <= r < 3 ==> col < |m1[r]| && col < |m2[r]| && m1[r][col] == m2[r][col]
    ensures ArgMaxFrom(m1, col, best, next) == ArgMaxFrom(m2, col, best, next)
    decreases 3 - next
  {
    if next < 3 {
      ArgMaxSame(m1, m2, col, next, next + 1);
      ArgMaxSame(m1, m2, col, best, next + 1);
    }
  }

  /** One elimination row leaves the coefficient parts equal. */
  lemma StepMirrors(ab: Matrix, s: LU.Factors, i: nat, j: nat)
    requires Shaped(ab, 4) && LU.WellShaped(s) && Mirrors(ab, s.u) && i < j < 3 && ab[i][i] != 0.0
    ensures Mirrors(Subtract(ab, j, i, ab[j][i] / ab[i][i], i), LU.EliminationStep(s, i, j).u)
  {
  }

  /** The inner loops of stage `i` run alike. */
  lemma {:induction false} EliminateBelowMirrors(ab: Matrix, s: LU.Factors, i: nat, j: nat)
    requires Shaped(ab, 4) && LU.WellShaped(s) && Mirrors(ab, s.u) && i < j <= 3
    ensures Gauss.EliminateBelow(ab, i, j).Ok? == LU.EliminateBelow(s, i, j).Ok?
    ensures Gauss.EliminateBelow(ab, i, j).Ok? ==>
      Mirrors(Gauss.EliminateBelow(ab, i, j).value, LU.EliminateBelow(s, i, j).value.u)
    decreases 3 - j
  {
    if j < 3 && ab[i][i] != 0.0 {
      StepMirrors(ab, s, i, j);
      EliminateBelowMirrors(Subtract(ab, j, i, ab[j][i] / ab[i][i], i), LU.EliminationStep(s, i, j), i, j + 1);
    }
  }

  /** The pivoting steps pick the same row and leave the coefficient parts equal. */
  lemma PivotMirrors(ab: Matrix, s: LU.Factors, i: nat)
    requires Shaped(ab, 4) && LU.WellShaped(s) && Mirrors(ab, s.u) && i < 3 && Cleared(ab, i)
    ensures Mirrors(Gauss.Pivot(ab, i), LU.PivotStep(s, i).u)
  {
    ArgMaxSame(ab, s.u, i, i, i + 1);
    var p := PivotRow(ab, i, i);
    assert p == PivotRow(s.u, i, i);
    if p != i {
      assert Gauss.Pivot(ab, i) == SwapRows(ab, i, p);
      assert LU.PivotStep(s, i).u == SwapSpan(s.u, i, p, i, 3);
      SwapMirrors(ab, s.u, i, p);
    }
  }

  /**
   * A whole-row swap of the augmented matrix mirrors a swap of `U` from
   * column `i` on, when both rows are already zero before column `i`.
   */
  lemma SwapMirrors(ab: Matrix, u: Matrix, i: nat, p: nat)
    requires Shaped(ab, 4) && Shaped(u, 3) && Mirrors(ab, u) && i < p < 3
    requires forall c :: 0 <= c < i ==> ab[i][c] == 0.0 && ab[p][c] == 0.0
    ensures Mirrors(SwapRows(ab, i, p), SwapSpan(u, i, p, i, 3))
  {
  }

  /** Stage `i` runs alike. */
  lemma StageMirrors(ab: Matrix, s: LU.Factors, pivoting: bool, i: nat)
    requires Shaped(ab, 4) && LU.WellShaped(s) && Mirrors(ab, s.u) && i < 3 && Cleared(ab, i)
    ensures Gauss.Stage(ab, pivoting, i).Ok? == LU.Stage(s, pivoting, i).Ok?
    ensures Gauss.Stage(ab, pivoting, i).Ok? ==> Mirrors(Gauss.Stage(ab, pivoting, i).value, LU.Stage(s, pivoting, i).value.u)
  {
    if pivoting {
      PivotMirrors(ab, s, i);
      EliminateBelowMirrors(Gauss.Pivot(ab, i), LU.PivotStep(s, i), i, i + 1);
    } else {
      EliminateBelowMirrors(ab, s, i, i + 1);
    }
  }

  /** The stage loops run alike and stop at the same zero pivot. */
  lemma {:induction false} EliminateMirrors(ab: Matrix, s: LU.Factors, pivoting: bool, i: nat)
    requires Shaped(ab, 4) && LU.WellShaped(s) && Mirrors(ab, s.u) && i <= 3 && Cleared(ab, i)
    ensures Gauss.Eliminate(ab, pivoting, i).Ok? == LU.Decompose(s, pivoting, i).Ok?
    ensures Gauss.Eliminate(ab, pivoting, i).ZeroPivot? ==>
      Gauss.Eliminate(ab, pivoting, i).row == LU.Decompose(s, pivoting, i).row
    ensures Gauss.Eliminate(ab, pivoting, i).Ok? ==>
      Mirrors(Gauss.Eliminate(ab, pivoting, i).value, LU.Decompose(s, pivoting, i).value.u)
    decreases 3 - i
  {
    if i < 3 {
      StageMirrors(ab, s, pivoting, i);
      if Gauss.Stage(ab, pivoting, i).Ok? {
        EliminateMirrors(Gauss.Stage(ab, pivoting, i).value, LU.Stage(s, pivoting, i).value, pivoting, i + 1);
      }
    }
  }

  /**
   * Back-substitution stops at the highest row with a zero diagonal entry,
   * so two matrices with the same diagonal stop at the same row.
   */
  lemma SameStop(m1: Matrix, rhs1: Vector, m2: Matrix, rhs2: Vector, x: Vector)
    requires |m1| == 3 && |m2| == 3 && (forall r :: 0 <= r < 3 ==> |m1[r]| >= 3 && |m2[r]| >= 3)
    requires |rhs1| == 3 && |rhs2| == 3 && |x| == 3
    requires forall r :: 0 <= r < 3 ==> m1[r][r] == m2[r][r]
    ensures BackSubstitute(m1, rhs1, x, 3).Ok? == BackSubstitute(m2, rhs2, x, 3).Ok?
    ensures BackSubstitute(m1, rhs1, x, 3).ZeroPivot? ==>
      BackSubstitute(m1, rhs1, x, 3).row == BackSubstitute(m2, rhs2, x, 3).row
  {
  }

  /**
   * With the same pivoting setting, Gaussian elimination and LU
   * decomposition give the same result: the same solution, or a zero pivot
   * in the same row.
   */
  lemma SameResult(a: Matrix, b: Vector, pivoting: bool)
    requires Shaped(a, 3) && |b| == 3
    ensures Gauss.Solve(a, b, pivoting) == LU.Solve(a, b, pivoting)
  {
    var ab, s0 := Gauss.Augment(a, b), LU.Start(a, b);
    EliminateMirrors(ab, s0, pivoting, 0);
    var ge, lu := Gauss.Eliminate(ab, pivoting, 0), LU.Decompose(s0, pivoting, 0);
    if ge.Ok? {
      var m, s := ge.value, lu.value;
      var c := LU.ForwardSubstitute(s.l, s.pb, [0.0, 0.0, 0.0], 0);
      SameStop(m, Gauss.RightHandSide(m), s.u, c, [0.0, 0.0, 0.0]);
      var x1, x2 := Gauss.Solve(a, b, pivoting), LU.Solve(a, b, pivoting);
      if x1.Ok? {
        LU.SolveCorrect(a, b, pivoting);
        Gauss.SolveCorrect(a, b, pivoting, x2.value);
      }
    }
  }

  /** When both succeed, the two calculators agree; in particular their solutions coincide. */
  lemma SolutionsAgree(a: Matrix, b: Vector, pivotingGE: bool, pivotingLU: bool)
    requires Shaped(a, 3) && |b| == 3
    requires Gauss.Solve(a, b, pivotingGE).Ok? && LU.Solve(a, b, pivotingLU).Ok?
    ensures Gauss.Solve(a, b, pivotingGE).value == LU.Solve(a, b, pivotingLU).value
  {
    LU.SolveCorrect(a, b, pivotingLU);
    Gauss.SolveCorrect(a, b, pivotingGE, LU.Solve(a, b, pivotingLU).value);
  }
}
