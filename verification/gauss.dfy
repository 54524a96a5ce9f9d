/**
 * Gaussian elimination on the augmented matrix `[A|b]` (`solve` in `GE.py`):
 * three stages, each optionally swapping in the row with the largest pivot
 * and then clearing the pivot column below the diagonal, followed by
 * back-substitution from row 2 up to row 0.
 */
module Gauss {
  import opened Numeric
  import opened Matrices

  /** `np.column_stack((A, b))`: `b` becomes column 3. */
  function Augment(a: Matrix, b: Vector): (ab: Matrix)
    requires Shaped(a, 3) && |b| == 3
    ensures Shaped(ab, 4)
    ensures forall r, c :: 0 <= r < 3 && 0 <= c < 3 ==> ab[r][c] == a[r][c]
    ensures forall r :: 0 <= r < 3 ==> ab[r][3] == b[r]
  {
    [a[0] + [b[0]], a[1] + [b[1]], a[2] + [b[2]]]
  }

  /** The right-hand column of an augmented matrix. */
  function RightHandSide(ab: Matrix): (c: Vector)
    requires Shaped(ab, 4)
    ensures |c| == 3 && forall r :: 0 <= r < 3 ==> c[r] == ab[r][3]
  {
    [ab[0][3], ab[1][3], ab[2][3]]
  }

  /** `x` satisfies every equation of the augmented system. */
  ghost predicate Satisfies(ab: Matrix, x: Vector)
    requires Shaped(ab, 4) && |x| == 3
  {
    forall r :: 0 <= r < 3 ==> Dot(ab[r], x) == ab[r][3]
  }

  /**
   * The pivoting step of stage `i`: the row `PivotRow` chooses is swapped
   * with row `i` when it is a different row.
   */
  function Pivot(ab: Matrix, i: nat): (m: Matrix)
    requires Shaped(ab, 4) && i < 3
    ensures Shaped(m, 4) && multiset(m) == multiset(ab)
    ensures m[i] == ab[PivotRow(ab, i, i)]
    ensures forall r :: 0 <= r < i ==> m[r] == ab[r]
    ensures Cleared(ab, i) ==> Cleared(m, i)
  {
    var p := PivotRow(ab, i, i);
    if p != i then SwapRows(ab, i, p) else ab
  }

  /**
   * The inner loop `for j in range(i+1, 3)` of stage `i` from row `j` on:
   * each row loses the multiple of row `i` that clears its entry in column `i`.
   */
  function EliminateBelow(ab: Matrix, i: nat, j: nat): (res: Result<Matrix>)
    requires Shaped(ab, 4) && i < j <= 3
    ensures res.Ok? <==> j == 3 || ab[i][i] != 0.0
    ensures res.ZeroPivot? ==> res.row == i
    ensures res.Ok? ==> Shaped(res.value, 4)
    ensures res.Ok? ==> forall r :: 0 <= r < j ==> res.value[r] == ab[r]
    ensures res.Ok? ==> forall r :: j <= r < 3 ==> res.value[r][i] == 0.0
    ensures res.Ok? ==> forall r, c :: 0 <= r < 3 && 0 <= c < i ==> res.value[r][c] == ab[r][c]
    decreases 3 - j
  {
    if j == 3 then Ok(ab)
    else if ab[i][i] == 0.0 then ZeroPivot(i)
    else
      var m := ab[j][i] / ab[i][i];
      var next := Subtract(ab, j, i, m, i);
      assert next[j][i] == ab[j][i] - m * ab[i][i];
      MultiplierClears(ab[j][i], ab[i][i]);
      var res := EliminateBelow(next, i, j + 1);
      assert res.Ok? ==> res.value[j] == next[j];
      res
  }

  /** Stage `i`: the optional pivoting step, then the elimination below row `i`. */
  function Stage(ab: Matrix, pivoting: bool, i: nat): (res: Result<Matrix>)
    requires Shaped(ab, 4) && i < 3 && Cleared(ab, i)
    ensures pivoting ==> (res.Ok? <==> i == 2 || exists r :: i <= r < 3 && ab[r][i] != 0.0)
    ensures !pivoting ==> (res.Ok? <==> i == 2 || ab[i][i] != 0.0)
    ensures res.ZeroPivot? ==> res.row == i
    ensures res.Ok? ==> Shaped(res.value, 4) && Cleared(res.value, i + 1)
    ensures res.Ok? ==> forall r :: 0 <= r < i ==> res.value[r] == ab[r]
    ensures res.Ok? ==> res.value[i] == if pivoting then ab[PivotRow(ab, i, i)] else ab[i]
  {
    var m := if pivoting then Pivot(ab, i) else ab;
    var res := EliminateBelow(m, i, i + 1);
    if res.Ok? then
      ClearsColumn(m, res.value, i);
      if pivoting && i < 2 then LargestIsNonzero(ab, i); res else res
    else res
  }

  /** Clearing column `i` below the diagonal, and nothing left of it, extends `Cleared` by one column. */
  lemma ClearsColumn(m: Matrix, v: Matrix, i: nat)
    requires Shaped(m, 4) && Shaped(v, 4) && i < 3 && Cleared(m, i)
    requires forall r, c :: 0 <= r < 3 && 0 <= c < i ==> v[r][c] == m[r][c]
    requires forall r :: i < r < 3 ==> v[r][i] == 0.0
    ensures Cleared(v, i + 1)
  {
  }

  /** The loop `for i in range(3)` from stage `i` on. */
  function Eliminate(ab: Matrix, pivoting: bool, i: nat): (res: Result<Matrix>)
    requires Shaped(ab, 4) && i <= 3 && Cleared(ab, i)
    ensures res.Ok? ==> Shaped(res.value, 4) && Cleared(res.value, 3)
    ensures res.Ok? ==> forall r :: i <= r < 2 ==> res.value[r][r] != 0.0
    ensures res.Ok? ==> forall r :: 0 <= r < i ==> res.value[r] == ab[r]
    ensures res.ZeroPivot? ==> i <= res.row < 2
    decreases 3 - i
  {
    if i == 3 then Ok(ab)
    else
      match Stage(ab, pivoting, i)
      case ZeroPivot(k) => ZeroPivot(k)
      case Ok(m) => Eliminate(m, pivoting, i + 1)
  }

  /** `solve`: augment, eliminate, and back-substitute from row 2 up with `x` starting at zero. */
  function Solve(a: Matrix, b: Vector, pivoting: bool): (res: Result<Vector>)
    requires Shaped(a, 3) && |b| == 3
    ensures res.Ok? ==> |res.value| == 3
    ensures res.ZeroPivot? ==> res.row < 3
  {
    match Eliminate(Augment(a, b), pivoting, 0)
    case ZeroPivot(k) => ZeroPivot(k)
    case Ok(m) => BackSubstitute(m, RightHandSide(m), [0.0, 0.0, 0.0], 3)
  }

  /** Exchanging two equations does not change the solutions. */
  lemma SwapKeepsSolutions(ab: Matrix, i: nat, p: nat, x: Vector)
    requires Shaped(ab, 4) && i < 3 && p < 3 && |x| == 3
    ensures Satisfies(SwapRows(ab, i, p), x) <==> Satisfies(ab, x)
  {
    var s := SwapRows(ab, i, p);
    if Satisfies(s, x) {
      forall r | 0 <= r < 3
        ensures Dot(ab[r], x) == ab[r][3]
      {
        assert ab[r] == s[if r == i then p else if r == p then i else r];
      }
    }
  }

  /**
   * Subtracting a multiple of equation `i` from equation `j` from column
   * `i` on does not change the solutions, because equation `i` is zero in
   * the columns before `i`.
   */
  lemma SubtractKeepsSolutions(ab: Matrix, j: nat, i: nat, factor: real, x: Vector)
    requires Shaped(ab, 4) && i < 3 && j < 3 && i != j && |x| == 3
    requires forall c :: 0 <= c < i ==> ab[i][c] == 0.0
    ensures Satisfies(Subtract(ab, j, i, factor, i), x) <==> Satisfies(ab, x)
  {
    var s := Subtract(ab, j, i, factor, i);
    forall c | 0 <= c < 4
      ensures s[j][c] == ab[j][c] - factor * ab[i][c]
    {
    }
    RowCombination(ab[j], ab[i], s[j], factor, x);
    assert s[i] == ab[i];
  }

  lemma RowCombination(u: Vector, v: Vector, w: Vector, factor: real, x: Vector)
    requires |u| == 4 && |v| == 4 && |w| == 4 && |x| == 3
    requires forall c :: 0 <= c < 4 ==> w[c] == u[c] - factor * v[c]
    ensures Dot(w, x) - w[3] == (Dot(u, x) - u[3]) - factor * (Dot(v, x) - v[3])
  {
  }

  /** The inner loop keeps the solutions of a system cleared before column `i`. */
  lemma {:induction false} EliminateBelowKeepsSolutions(ab: Matrix, i: nat, j: nat, x: Vector)
    requires Shaped(ab, 4) && i < j <= 3 && |x| == 3
    requires forall c :: 0 <= c < i ==> ab[i][c] == 0.0
    requires EliminateBelow(ab, i, j).Ok?
    ensures Satisfies(EliminateBelow(ab, i, j).value, x) <==> Satisfies(ab, x)
    decreases 3 - j
  {
    if j < 3 {
      var next := Subtract(ab, j, i, ab[j][i] / ab[i][i], i);
      SubtractKeepsSolutions(ab, j, i, ab[j][i] / ab[i][i], x);
      assert next[i] == ab[i];
      EliminateBelowKeepsSolutions(next, i, j + 1, x);
    }
  }

  /** Every stage keeps the solutions. */
  lemma StageKeepsSolutions(ab: Matrix, pivoting: bool, i: nat, x: Vector)
    requires Shaped(ab, 4) && i < 3 && Cleared(ab, i) && |x| == 3
    requires Stage(ab, pivoting, i).Ok?
    ensures Satisfies(Stage(ab, pivoting, i).value, x) <==> Satisfies(ab, x)
  {
    var m := if pivoting then Pivot(ab, i) else ab;
    if pivoting {
      var p := PivotRow(ab, i, i);
      if p != i {
        SwapKeepsSolutions(ab, i, p, x);
      }
    }
    assert Cleared(m, i);
    EliminateBelowKeepsSolutions(m, i, i + 1, x);
  }

  /** The whole elimination keeps the solutions. */
  lemma {:induction false} EliminateKeepsSolutions(ab: Matrix, pivoting: bool, i: nat, x: Vector)
    requires Shaped(ab, 4) && i <= 3 && Cleared(ab, i) && |x| == 3
    requires Eliminate(ab, pivoting, i).Ok?
    ensures Satisfies(Eliminate(ab, pivoting, i).value, x) <==> Satisfies(ab, x)
    decreases 3 - i
  {
    if i < 3 {
      var m := Stage(ab, pivoting, i).value;
      StageKeepsSolutions(ab, pivoting, i, x);
      EliminateKeepsSolutions(m, pivoting, i + 1, x);
    }
  }

  /** `x` satisfies `[A|b]` exactly when `A x == b`. */
  lemma AugmentedSystem(a: Matrix, b: Vector, x: Vector)
    requires Shaped(a, 3) && |b| == 3 && |x| == 3
    ensures Satisfies(Augment(a, b), x) <==> MatVec(a, x) == b
  {
    var ab := Augment(a, b);
    forall r | 0 <= r < 3
      ensures Dot(ab[r], x) == Dot(a[r], x)
    {
    }
  }

  /** On the eliminated system, `x` solves every back-substitution row exactly when it satisfies the system. */
  lemma TriangularSatisfies(m: Matrix, x: Vector)
    requires Shaped(m, 4) && Cleared(m, 3) && |x| == 3
    ensures Satisfies(m, x) <==> forall r :: 0 <= r < 3 ==> RowSolved(m, RightHandSide(m), x, r)
  {
    forall r | 0 <= r < 3
      ensures RowSolved(m, RightHandSide(m), x, r) <==> Dot(m[r], x) == m[r][3]
    {
      UpperRow(m, x, r);
    }
  }

  /**
   * When no pivot is zero, `solve` finds the one solution of `A x = b`: the
   * vector it returns solves the system, and every solution is that vector.
   */
  lemma SolveCorrect(a: Matrix, b: Vector, pivoting: bool, y: Vector)
    requires Shaped(a, 3) && |b| == 3 && |y| == 3
    requires Solve(a, b, pivoting).Ok?
    ensures MatVec(a, Solve(a, b, pivoting).value) == b
    ensures MatVec(a, y) == b <==> y == Solve(a, b, pivoting).value
  {
    var ab := Augment(a, b);
    var m := Eliminate(ab, pivoting, 0).value;
    var x := Solve(a, b, pivoting).value;
    var rhs := RightHandSide(m);
    TriangularSatisfies(m, x);
    EliminateKeepsSolutions(ab, pivoting, 0, x);
    AugmentedSystem(a, b, x);
    TriangularSatisfies(m, y);
    EliminateKeepsSolutions(ab, pivoting, 0, y);
    AugmentedSystem(a, b, y);
    if MatVec(a, y) == b {
      TriangularUnique(m, rhs, x, y);
    }
  }
}
