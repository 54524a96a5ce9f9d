/**
 * The 3x3 linear algebra shared by `GE.py` and `LUDec.py`: matrices as
 * sequences of rows over `real`, the products the two solvers are judged
 * by, the partial-pivoting rule (`argmax` of `|m[r][i]|` over rows `i..2`),
 * whole-row and partial-row swaps and updates, and back-substitution.
 */
module Matrices {
  import opened Numeric

  type Vector = seq<real>
  type Matrix = seq<seq<real>>

  /** Three rows of `cols` entries each. */
  predicate Shaped(m: Matrix, cols: nat)
  {
    |m| == 3 && forall r :: 0 <= r < 3 ==> |m[r]| == cols
  }

  /** The sum of the first three products `u[k] * v[k]`. */
  function Dot(u: Vector, v: Vector): real
    requires |u| >= 3 && |v| >= 3
  {
    u[0] * v[0] + u[1] * v[1] + u[2] * v[2]
  }

  /** The product `m x` of the square part of `m` with `x`. */
  function MatVec(m: Matrix, x: Vector): (y: Vector)
    requires |m| == 3 && (forall r :: 0 <= r < 3 ==> |m[r]| >= 3) && |x| == 3
    ensures |y| == 3 && forall r :: 0 <= r < 3 ==> y[r] == Dot(m[r], x)
  {
    [Dot(m[0], x), Dot(m[1], x), Dot(m[2], x)]
  }

  /** Entry `c` of the row vector `u b`. */
  function Combine(u: Vector, b: Matrix, c: nat): real
    requires |u| == 3 && Shaped(b, 3) && c < 3
  {
    u[0] * b[0][c] + u[1] * b[1][c] + u[2] * b[2][c]
  }

  /** The row vector `u b`. */
  function RowTimes(u: Vector, b: Matrix): Vector
    requires |u| == 3 && Shaped(b, 3)
  {
    [Combine(u, b, 0), Combine(u, b, 1), Combine(u, b, 2)]
  }

  /** The matrix product `a b`. */
  function MatMul(a: Matrix, b: Matrix): (p: Matrix)
    requires Shaped(a, 3) && Shaped(b, 3)
    ensures Shaped(p, 3)
    ensures forall r, c :: 0 <= r < 3 && 0 <= c < 3 ==> p[r][c] == Combine(a[r], b, c)
  {
    [RowTimes(a[0], b), RowTimes(a[1], b), RowTimes(a[2], b)]
  }

  /** `np.eye(3)`. */
  const Identity: Matrix := [[1.0, 0.0, 0.0], [0.0, 1.0, 0.0], [0.0, 0.0, 1.0]]

  /** `(a b) x == a (b x)`. */
  lemma MatMulVec(a: Matrix, b: Matrix, x: Vector)
    requires Shaped(a, 3) && Shaped(b, 3) && |x| == 3
    ensures MatVec(MatMul(a, b), x) == MatVec(a, MatVec(b, x))
  {
    var p := MatMul(a, b);
    var bx := MatVec(b, x);
    forall r | 0 <= r < 3
      ensures Dot(p[r], x) == Dot(a[r], bx)
    {
      assert p[r] == RowTimes(a[r], b);
      RowAssociates(a[r], b, x);
    }
  }

  /** `(u b) x == u (b x)` for a row vector `u`. */
  lemma RowAssociates(u: Vector, b: Matrix, x: Vector)
    requires |u| == 3 && Shaped(b, 3) && |x| == 3
    ensures Dot(RowTimes(u, b), x) == Dot(u, MatVec(b, x))
  {
    Regroup(u[0], u[1], u[2], b[0][0], b[0][1], b[0][2], b[1][0], b[1][1], b[1][2], b[2][0], b[2][1], b[2][2], x[0], x[1], x[2]);
  }

  lemma Regroup(u0: real, u1: real, u2: real, b00: real, b01: real, b02: real, b10: real, b11: real, b12: real,
                b20: real, b21: real, b22: real, x0: real, x1: real, x2: real)
    ensures (u0 * b00 + u1 * b10 + u2 * b20) * x0 + (u0 * b01 + u1 * b11 + u2 * b21) * x1 + (u0 * b02 + u1 * b12 + u2 * b22) * x2
         == u0 * (b00 * x0 + b01 * x1 + b02 * x2) + u1 * (b10 * x0 + b11 * x1 + b12 * x2) + u2 * (b20 * x0 + b21 * x1 + b22 * x2)
  {
  }

  /** Exchange rows (or entries) `i` and `p`. */
  function SwapRows<T>(m: seq<T>, i: nat, p: nat): (s: seq<T>)
    requires i < |m| && p < |m|
    ensures |s| == |m| && s[i] == m[p] && s[p] == m[i]
    ensures forall r :: 0 <= r < |m| && r != i && r != p ==> s[r] == m[r]
    ensures multiset(s) == multiset(m)
  {
    var s := m[i := m[p]][p := m[i]];
    SwapPermutes(m, i, p);
    s
  }

  lemma SwapPermutes<T>(m: seq<T>, i: nat, p: nat)
    requires i < |m| && p < |m|
    ensures multiset(m[i := m[p]][p := m[i]]) == multiset(m)
  {
    if i != p {
      var once := m[i := m[p]];
      assert multiset(once) == multiset(m) - multiset{m[i]} + multiset{m[p]};
      assert multiset(once[p := m[i]]) == multiset(once) - multiset{m[p]} + multiset{m[i]};
    }
  }

  /** Exchange the entries of rows `i` and `p` in the columns `lo..hi-1` only (a fancy-index slice swap). */
  function SwapSpan(m: Matrix, i: nat, p: nat, lo: nat, hi: nat): (s: Matrix)
    requires i < |m| && p < |m| && hi <= |m[i]| && |m[p]| == |m[i]|
    ensures |s| == |m| && |s[i]| == |m[i]| && |s[p]| == |m[p]|
    ensures forall r :: 0 <= r < |m| && r != i && r != p ==> s[r] == m[r]
    ensures forall c :: 0 <= c < |m[i]| ==>
      && s[i][c] == (if lo <= c < hi then m[p][c] else m[i][c])
      && s[p][c] == (if lo <= c < hi then m[i][c] else m[p][c])
  {
    var ri := seq(|m[i]|, c requires 0 <= c < |m[i]| => if lo <= c < hi then m[p][c] else m[i][c]);
    var rp := seq(|m[p]|, c requires 0 <= c < |m[p]| => if lo <= c < hi then m[i][c] else m[p][c]);
    if i == p then m else m[i := ri][p := rp]
  }

  /**
   * `m[j, lo:] -= factor * m[i, lo:]`: row `j` loses `factor` times row `i`
   * in the columns from `lo` on.
   */
  function Subtract(m: Matrix, j: nat, i: nat, factor: real, lo: nat): (s: Matrix)
    requires j < |m| && i < |m| && |m[i]| == |m[j]|
    ensures |s| == |m| && |s[j]| == |m[j]|
    ensures forall r :: 0 <= r < |m| && r != j ==> s[r] == m[r]
    ensures forall c :: 0 <= c < |m[j]| ==> s[j][c] == if c < lo then m[j][c] else m[j][c] - factor * m[i][c]
  {
    m[j := seq(|m[j]|, c requires 0 <= c < |m[j]| => if c < lo then m[j][c] else m[j][c] - factor * m[i][c])]
  }

  /**
   * `np.argmax(np.abs(m[i:, col])) + i`: the first row from `i` on whose
   * entry in column `col` has the largest absolute value.
   */
  function PivotRow(m: Matrix, i: nat, col: nat): (p: nat)
    requires |m| == 3 && (forall r :: 0 <= r < 3 ==> col < |m[r]|) && i < 3
    ensures i <= p < 3
    ensures forall r :: i <= r < 3 ==> Abs(m[r][col]) <= Abs(m[p][col])
    ensures forall r :: i <= r < p ==> Abs(m[r][col]) < Abs(m[p][col])
  {
    ArgMaxFrom(m, col, i, i + 1)
  }

  /** The first maximiser over rows `lo..2`, scanning on from row `next` with the best row so far `best`. */
  function ArgMaxFrom(m: Matrix, col: nat, best: nat, next: nat): (p: nat)
    requires |m| == 3 && (forall r :: 0 <= r < 3 ==> col < |m[r]|) && best < next <= 3
    ensures best <= p < 3
    ensures Abs(m[best][col]) <= Abs(m[p][col])
    ensures forall r :: next <= r < 3 ==> Abs(m[r][col]) <= Abs(m[p][col])
    ensures forall r :: next <= r < p ==> Abs(m[r][col]) < Abs(m[p][col])
    ensures p != best ==> next <= p && Abs(m[best][col]) < Abs(m[p][col])
    decreases 3 - next
  {
    if next == 3 then best
    else if Abs(m[next][col]) > Abs(m[best][col]) then ArgMaxFrom(m, col, next, next + 1)
    else ArgMaxFrom(m, col, best, next + 1)
  }

  /** The largest entry of a column that has a nonzero entry is nonzero. */
  lemma LargestIsNonzero(m: Matrix, i: nat)
    requires |m| == 3 && (forall r :: 0 <= r < 3 ==> i < |m[r]|) && i < 3
    requires exists r :: i <= r < 3 && m[r][i] != 0.0
    ensures m[PivotRow(m, i, i)][i] != 0.0
  {
    var r :| i <= r < 3 && m[r][i] != 0.0;
    assert Abs(m[r][i]) <= Abs(m[PivotRow(m, i, i)][i]);
  }

  /** The multiplier `a / p` clears the entry `a` against the nonzero pivot `p`. */
  lemma MultiplierClears(a: real, p: real)
    requires p != 0.0
    ensures a - a / p * p == 0.0
  {
  }

  /** The entries of the columns before `s` are zero below the diagonal. */
  ghost predicate Cleared(m: Matrix, s: nat)
    requires |m| == 3 && forall r :: 0 <= r < 3 ==> |m[r]| >= 3
  {
    forall r, c :: 0 <= c < s && c < r < 3 ==> m[r][c] == 0.0
  }

  /** Every entry strictly below the diagonal of the square part is zero. */
  ghost predicate UpperTriangular(m: Matrix)
    requires |m| == 3 && forall r :: 0 <= r < 3 ==> |m[r]| >= 3
  {
    forall r, c :: 0 <= c < r < 3 ==> m[r][c] == 0.0
  }

  /** Ones on the diagonal, zeros above it. */
  ghost predicate UnitLowerTriangular(m: Matrix)
    requires Shaped(m, 3)
  {
    forall r, c :: 0 <= r < 3 && 0 <= c < 3 ==> (r == c ==> m[r][c] == 1.0) && (r < c ==> m[r][c] == 0.0)
  }

  /** Row `r` is the unit row `e_k`. */
  predicate IsUnitRow(row: Vector, k: nat)
    requires |row| == 3 && k < 3
  {
    forall c :: 0 <= c < 3 ==> row[c] == if c == k then 1.0 else 0.0
  }

  /** A permutation matrix: every row is a unit row, and no two rows are the same unit row. */
  ghost predicate IsPermutationMatrix(m: Matrix)
  {
    && Shaped(m, 3)
    && (forall r :: 0 <= r < 3 ==> exists k :: 0 <= k < 3 && IsUnitRow(m[r], k))
    && m[0] != m[1] && m[0] != m[2] && m[1] != m[2]
  }

  /** Swapping two rows of a permutation matrix gives a permutation matrix. */
  lemma SwapKeepsPermutation(m: Matrix, i: nat, p: nat)
    requires IsPermutationMatrix(m) && i < 3 && p < 3
    ensures IsPermutationMatrix(SwapRows(m, i, p))
  {
  }

  /** The identity is a permutation matrix. */
  lemma IdentityIsPermutation()
    ensures IsPermutationMatrix(Identity)
  {
    assert IsUnitRow(Identity[0], 0) && IsUnitRow(Identity[1], 1) && IsUnitRow(Identity[2], 2);
  }

  /** A permutation matrix loses nothing: `P x == P y` only when `x == y`. */
  lemma PermutationInjective(m: Matrix, x: Vector, y: Vector)
    requires IsPermutationMatrix(m) && |x| == 3 && |y| == 3
    requires MatVec(m, x) == MatVec(m, y)
    ensures x == y
  {
    var k0 :| 0 <= k0 < 3 && IsUnitRow(m[0], k0);
    var k1 :| 0 <= k1 < 3 && IsUnitRow(m[1], k1);
    var k2 :| 0 <= k2 < 3 && IsUnitRow(m[2], k2);
    UnitRowPicks(m[0], k0, x, y);
    UnitRowPicks(m[1], k1, x, y);
    UnitRowPicks(m[2], k2, x, y);
    assert MatVec(m, x)[0] == MatVec(m, y)[0];
    assert MatVec(m, x)[1] == MatVec(m, y)[1];
    assert MatVec(m, x)[2] == MatVec(m, y)[2];
    assert k0 != k1 && k0 != k2 && k1 != k2;
    assert x[k0] == y[k0] && x[k1] == y[k1] && x[k2] == y[k2];
  }

  lemma UnitRowPicks(row: Vector, k: nat, x: Vector, y: Vector)
    requires |row| == 3 && k < 3 && IsUnitRow(row, k) && |x| == 3 && |y| == 3
    ensures Dot(row, x) == x[k] && Dot(row, y) == y[k]
  {
  }

  /** `sum(m[i, from:3] * x[from:3])`. */
  function TailDot(row: Vector, x: Vector, from: nat): real
    requires |row| >= 3 && |x| == 3
    decreases 3 - from
  {
    if from >= 3 then 0.0 else row[from] * x[from] + TailDot(row, x, from + 1)
  }

  /** Row `i` of the triangular system `m x = rhs` as back-substitution reads it. */
  ghost predicate RowSolved(m: Matrix, rhs: Vector, x: Vector, i: nat)
    requires |m| == 3 && (forall r :: 0 <= r < 3 ==> |m[r]| >= 3) && |rhs| == 3 && |x| == 3 && i < 3
  {
    m[i][i] * x[i] + TailDot(m[i], x, i + 1) == rhs[i]
  }

  /** The outcome of a solver stage: a value, or the row whose zero pivot the source divides by. */
  datatype Result<T> = Ok(value: T) | ZeroPivot(row: nat)

  /**
   * The loop `for i in range(2, -1, -1)` of back-substitution with `k` rows
   * still to solve (rows `k-1` down to 0), writing `x[i]` in place.
   */
  function BackSubstitute(m: Matrix, rhs: Vector, x: Vector, k: nat): (res: Result<Vector>)
    requires |m| == 3 && (forall r :: 0 <= r < 3 ==> |m[r]| >= 3) && |rhs| == 3 && |x| == 3 && k <= 3
    ensures res.Ok? <==> forall r :: 0 <= r < k ==> m[r][r] != 0.0
    ensures res.Ok? ==> |res.value| == 3 && forall r :: k <= r < 3 ==> res.value[r] == x[r]
    ensures res.Ok? ==> forall r :: 0 <= r < k ==> RowSolved(m, rhs, res.value, r)
    ensures res.ZeroPivot? ==> res.row < k && m[res.row][res.row] == 0.0 && forall r :: res.row < r < k ==> m[r][r] != 0.0
    decreases k
  {
    if k == 0 then Ok(x)
    else
      var i := k - 1;
      if m[i][i] == 0.0 then ZeroPivot(i)
      else
        var xi := SolveScalar(m[i][i], TailDot(m[i], x, i + 1), rhs[i]);
        var res := BackSubstitute(m, rhs, x[i := xi], i);
        if res.Ok? then
          SolvedRow(m, rhs, x, i, res.value);
          res
        else res
  }

  /**
   * A value for `x[i]` that solves row `i` against the entries of `x` after
   * `i` still solves it in every `y` that keeps those entries.
   */
  lemma SolvedRow(m: Matrix, rhs: Vector, x: Vector, i: nat, y: Vector)
    requires |m| == 3 && (forall r :: 0 <= r < 3 ==> |m[r]| >= 3) && |rhs| == 3 && |x| == 3 && |y| == 3 && i < 3
    requires m[i][i] * y[i] + TailDot(m[i], x, i + 1) == rhs[i]
    requires forall c :: i < c < 3 ==> y[c] == x[c]
    ensures RowSolved(m, rhs, y, i)
  {
    TailUnchanged(m[i], x, y, i + 1);
  }

  /** `x[i] = (b[i] - tail) / A[i][i]`: the one value with `d * q + t == a`. */
  function SolveScalar(d: real, t: real, a: real): (q: real)
    requires d != 0.0
    ensures d * q + t == a
  {
    (a - t) / d
  }

  /** `TailDot` reads only the entries from `from` on. */
  lemma {:induction false} TailUnchanged(row: Vector, x: Vector, y: Vector, from: nat)
    requires |row| >= 3 && |x| == 3 && |y| == 3
    requires forall c :: from <= c < 3 ==> x[c] == y[c]
    ensures TailDot(row, x, from) == TailDot(row, y, from)
    decreases 3 - from
  {
    if from < 3 {
      TailUnchanged(row, x, y, from + 1);
    }
  }

  /** On an upper-triangular matrix, row `i` of back-substitution is row `i` of `m x`. */
  lemma UpperRow(m: Matrix, x: Vector, i: nat)
    requires |m| == 3 && (forall r :: 0 <= r < 3 ==> |m[r]| >= 3) && |x| == 3 && i < 3
    requires UpperTriangular(m)
    ensures m[i][i] * x[i] + TailDot(m[i], x, i + 1) == Dot(m[i], x)
  {
    assert TailDot(m[i], x, 3) == 0.0;
  }

  /**
   * An upper-triangular system with a nonzero diagonal has exactly one
   * solution: two vectors solving every row coincide.
   */
  lemma TriangularUnique(m: Matrix, rhs: Vector, x: Vector, y: Vector)
    requires |m| == 3 && (forall r :: 0 <= r < 3 ==> |m[r]| >= 3) && |rhs| == 3 && |x| == 3 && |y| == 3
    requires forall r :: 0 <= r < 3 ==> m[r][r] != 0.0
    requires forall r :: 0 <= r < 3 ==> RowSolved(m, rhs, x, r) && RowSolved(m, rhs, y, r)
    ensures x == y
  {
    for i := 3 downto 0
      invariant forall c :: i <= c < 3 ==> x[c] == y[c]
    {
      TailUnchanged(m[i], x, y, i + 1);
      assert RowSolved(m, rhs, x, i) && RowSolved(m, rhs, y, i);
      assert m[i][i] * (x[i] - y[i]) == 0.0;
    }
  }
}
