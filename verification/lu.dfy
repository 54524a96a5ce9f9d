/**
 * LU decomposition with synchronised partial pivoting (`solve` in
 * `LUDec.py`): starting from `L = I`, `U = A`, `P = I` and a copy of `b`,
 * each stage may swap the pivot row into place in all four at once and then
 * records the multipliers in `L` while clearing column `i` of `U`; forward
 * substitution then solves `L c = P b` and back-substitution `U x = c`.
 */
module LU {
  import opened Numeric
  import opened Matrices

  /** The state of the decomposition: `L`, `U`, `P` and the permuted right-hand side. */
  datatype Factors = Factors(l: Matrix, u: Matrix, p: Matrix, pb: Vector)

  predicate WellShaped(s: Factors)
  {
    Shaped(s.l, 3) && Shaped(s.u, 3) && Shaped(s.p, 3) && |s.pb| == 3
  }

  /** `L = np.eye(3)`, `U = A.copy()`, `P = np.eye(3)`, `b = b.copy()`. */
  function Start(a: Matrix, b: Vector): (s: Factors)
    requires Shaped(a, 3) && |b| == 3
    ensures WellShaped(s) && s.l == Identity && s.u == a && s.p == Identity && s.pb == b
  {
    Factors(Identity, a, Identity, b)
  }

  /**
   * The pivoting step of stage `i`: when `PivotRow` picks another row, it
   * is exchanged with row `i` in `U` (columns `i..2`), in `L` (columns
   * `0..i-1`, and only from stage 1 on), in `P` and in `b`.
   */
  function PivotStep(s: Factors, i: nat): (t: Factors)
    requires WellShaped(s) && i < 3
    ensures WellShaped(t)
  {
    var p := PivotRow(s.u, i, i);
    if p != i then
      Factors(if i > 0 then SwapSpan(s.l, i, p, 0, i) else s.l,
              SwapSpan(s.u, i, p, i, 3),
              SwapRows(s.p, i, p),
              SwapRows(s.pb, i, p))
    else s
  }
  /**
   * The pivoting step brings the entry of largest absolute value in column
   * `i`, from row `i` down, to `U[i][i]`, exchanges the same two rows of `P`
   * and `b`, and keeps every other row of the four.
   */
  lemma PivotSwaps(s: Factors, i: nat)
    requires WellShaped(s) && i < 3
    ensures var t, p := PivotStep(s, i), PivotRow(s.u, i, i);
      && t.u[i][i] == s.u[p][i]
      && (forall r :: i <= r < 3 ==> Abs(s.u[r][i]) <= Abs(t.u[i][i]))
      && t.p[i] == s.p[p] && t.p[p] == s.p[i]
      && t.pb[i] == s.pb[p] && t.pb[p] == s.pb[i]
      && (forall r :: 0 <= r < 3 && r != i && r != p ==>
            t.l[r] == s.l[r] && t.u[r] == s.u[r] && t.p[r] == s.p[r] && t.pb[r] == s.pb[r])
  {
  }


  /**
   * The inner loop `for j in range(i+1, 3)` of stage `i` from row `j` on:
   * `L[j][i]` receives the multiplier and row `j` of `U` loses that multiple
   * of row `i` from column `i` on.
   */
  function EliminateBelow(s: Factors, i: nat, j: nat): (res: Result<Factors>)
    requires WellShaped(s) && i < j <= 3
    ensures res.Ok? <==> j == 3 || s.u[i][i] != 0.0
    ensures res.ZeroPivot? ==> res.row == i
    ensures res.Ok? ==> WellShaped(res.value) && res.value.p == s.p && res.value.pb == s.pb
    ensures res.Ok? ==> forall r :: 0 <= r < j ==> res.value.u[r] == s.u[r]
    ensures res.Ok? ==> forall r :: j <= r < 3 ==> res.value.u[r][i] == 0.0
    decreases 3 - j
  {
    if j == 3 then Ok(s)
    else if s.u[i][i] == 0.0 then ZeroPivot(i)
    else EliminateBelow(EliminationStep(s, i, j), i, j + 1)
  }

  /** `L[j][i] = U[j][i] / U[i][i]`, then `U[j, i:] -= L[j][i] * U[i, i:]`. */
  function EliminationStep(s: Factors, i: nat, j: nat): (t: Factors)
    requires WellShaped(s) && i < j < 3 && s.u[i][i] != 0.0
    ensures WellShaped(t) && t.p == s.p && t.pb == s.pb
    ensures t.u[j][i] == 0.0 && forall r :: 0 <= r < 3 && r != j ==> t.u[r] == s.u[r]
  {
    var m := s.u[j][i] / s.u[i][i];
    MultiplierClears(s.u[j][i], s.u[i][i]);
    Factors(s.l[j := s.l[j][i := m]], Subtract(s.u, j, i, m, i), s.p, s.pb)
  }

  /** Stage `i`: the optional pivoting step, then the elimination below row `i`. */
  function Stage(s: Factors, pivoting: bool, i: nat): (res: Result<Factors>)
    requires WellShaped(s) && i < 3
    ensures !pivoting ==> (res.Ok? <==> i == 2 || s.u[i][i] != 0.0)
    ensures pivoting ==> (res.Ok? <==> i == 2 || exists r :: i <= r < 3 && s.u[r][i] != 0.0)
    ensures res.ZeroPivot? ==> res.row == i
    ensures res.Ok? ==> WellShaped(res.value)
    ensures res.Ok? && !pivoting ==> res.value.p == s.p && res.value.pb == s.pb
    ensures res.Ok? ==> forall r :: 0 <= r < i ==> res.value.u[r] == s.u[r]
    ensures res.Ok? && i < 2 ==> res.value.u[i][i] != 0.0
  {
    var t := if pivoting then PivotStep(s, i) else s;
    if pivoting && i < 2 && (exists r :: i <= r < 3 && s.u[r][i] != 0.0) then
      LargestIsNonzero(s.u, i);
      EliminateBelow(t, i, i + 1)
    else EliminateBelow(t, i, i + 1)
  }

  /** The loop `for i in range(3)` from stage `i` on. */
  function Decompose(s: Factors, pivoting: bool, i: nat): (res: Result<Factors>)
    requires WellShaped(s) && i <= 3
    ensures res.Ok? ==> WellShaped(res.value)
    ensures res.Ok? && !pivoting ==> res.value.p == s.p && res.value.pb == s.pb
    ensures res.Ok? ==> forall r :: 0 <= r < i ==> res.value.u[r] == s.u[r]
    ensures res.Ok? ==> forall r :: i <= r < 2 ==> res.value.u[r][r] != 0.0
    ensures res.ZeroPivot? ==> i <= res.row < 2
    decreases 3 - i
  {
    if i == 3 then Ok(s)
    else
      match Stage(s, pivoting, i)
      case ZeroPivot(k) => ZeroPivot(k)
      case Ok(t) => Decompose(t, pivoting, i + 1)
  }

  /** `sum(L[i, :i] * c[:i])`. */
  function HeadDot(row: Vector, x: Vector, upto: nat): real
    requires |row| == 3 && |x| == 3 && upto <= 3
  {
    if upto == 0 then 0.0 else HeadDot(row, x, upto - 1) + row[upto - 1] * x[upto - 1]
  }

  /**
   * Forward substitution `for i in range(3)` from row `i` on, writing `c[i]`
   * in place: no division, so it always finishes.
   */
  function ForwardSubstitute(l: Matrix, pb: Vector, c: Vector, i: nat): (res: Vector)
    requires Shaped(l, 3) && |pb| == 3 && |c| == 3 && i <= 3
    ensures |res| == 3 && forall r :: 0 <= r < i ==> res[r] == c[r]
    ensures forall r :: i <= r < 3 ==> res[r] + HeadDot(l[r], res, r) == pb[r]
    decreases 3 - i
  {
    if i == 3 then c
    else
      var ci := pb[i] - HeadDot(l[i], c, i);
      var res := ForwardSubstitute(l, pb, c[i := ci], i + 1);
      HeadUnchanged(l[i], c[i := ci], res, i);
      HeadUnchanged(l[i], c, c[i := ci], i);
      res
  }

  /** `HeadDot` reads only the entries before `upto`. */
  lemma {:induction false} HeadUnchanged(row: Vector, x: Vector, y: Vector, upto: nat)
    requires |row| == 3 && |x| == 3 && |y| == 3 && upto <= 3
    requires forall c :: 0 <= c < upto ==> x[c] == y[c]
    ensures HeadDot(row, x, upto) == HeadDot(row, y, upto)
    decreases upto
  {
    if upto > 0 {
      HeadUnchanged(row, x, y, upto - 1);
    }
  }

  /** `solve`: decompose, then solve `L c = P b` forward and `U x = c` backward, each from zero. */
  function Solve(a: Matrix, b: Vector, pivoting: bool): (res: Result<Vector>)
    requires Shaped(a, 3) && |b| == 3
    ensures res.Ok? ==> |res.value| == 3
    ensures res.ZeroPivot? ==> res.row < 3
  {
    match Decompose(Start(a, b), pivoting, 0)
    case ZeroPivot(k) => ZeroPivot(k)
    case Ok(s) =>
      var c := ForwardSubstitute(s.l, s.pb, [0.0, 0.0, 0.0], 0);
      BackSubstitute(s.u, c, [0.0, 0.0, 0.0], 3)
  }

  /**
   * The shape of the factors at stage `i` with rows `i+1..j-1` done: `L` is
   * unit lower triangular and still the identity in the columns not yet
   * written, and `U` is cleared below the diagonal in the columns done.
   */
  ghost predicate Structure(s: Factors, i: nat, j: nat)
  {
    && WellShaped(s)
    && UnitLowerTriangular(s.l)
    && (forall r, c :: 0 <= c < r < 3 && (c > i || (c == i && r >= j)) ==> s.l[r][c] == 0.0)
    && Cleared(s.u, i)
    && (forall r :: i < r < j && r < 3 ==> s.u[r][i] == 0.0)
  }

  /** `P` is a permutation matrix, the right-hand side is `P b`, and `L U == P A`. */
  ghost predicate Factorises(s: Factors, a: Matrix, b: Vector)
    requires Shaped(a, 3) && |b| == 3
  {
    && WellShaped(s)
    && IsPermutationMatrix(s.p)
    && s.pb == MatVec(s.p, b)
    && MatMul(s.l, s.u) == MatMul(s.p, a)
  }

  /** The invariant holds at the start. */
  lemma StartProgress(a: Matrix, b: Vector)
    requires Shaped(a, 3) && |b| == 3
    ensures Structure(Start(a, b), 0, 1) && Factorises(Start(a, b), a, b)
  {
    IdentityIsPermutation();
    IdentityProducts(a, b);
  }

  lemma IdentityProducts(a: Matrix, b: Vector)
    requires Shaped(a, 3) && |b| == 3
    ensures MatMul(Identity, a) == a && MatVec(Identity, b) == b
  {
    var p := MatMul(Identity, a);
    assert forall r :: 0 <= r < 3 ==> p[r] == a[r];
  }

  /** The index `k` after exchanging `i` and `p`. */
  function Exchanged(i: nat, p: nat, k: nat): nat
  {
    if k == i then p else if k == p then i else k
  }

  /**
   * A product whose factors are both conjugated by the same exchange is
   * the original product with two rows exchanged.
   */
  lemma ExchangedProduct(l: Matrix, u: Matrix, l2: Matrix, u2: Matrix, i: nat, p: nat, r: nat, c: nat)
    requires Shaped(l, 3) && Shaped(u, 3) && Shaped(l2, 3) && Shaped(u2, 3)
    requires i < 3 && p < 3 && r < 3 && c < 3
    requires forall k :: 0 <= k < 3 ==> l2[r][k] == l[Exchanged(i, p, r)][Exchanged(i, p, k)]
    requires forall k :: 0 <= k < 3 ==> u2[k][c] == u[Exchanged(i, p, k)][c]
    ensures Combine(l2[r], u2, c) == Combine(l[Exchanged(i, p, r)], u, c)
  {
    var q := Exchanged(i, p, r);
    assert l2[r][0] * u2[0][c] == l[q][Exchanged(i, p, 0)] * u[Exchanged(i, p, 0)][c];
    assert l2[r][1] * u2[1][c] == l[q][Exchanged(i, p, 1)] * u[Exchanged(i, p, 1)][c];
    assert l2[r][2] * u2[2][c] == l[q][Exchanged(i, p, 2)] * u[Exchanged(i, p, 2)][c];
  }

  /**
   * Exchanging rows `i` and `p > i` of `L` in the columns before `i`, when
   * the columns from `i` on are still the identity, conjugates `L` by the exchange.
   */
  lemma SwapConjugates(l: Matrix, i: nat, p: nat)
    requires Shaped(l, 3) && i < p < 3
    requires forall r, k :: 0 <= r < 3 && i <= k < 3 ==> l[r][k] == if r == k then 1.0 else 0.0
    ensures var l2 := if i > 0 then SwapSpan(l, i, p, 0, i) else l;
      forall r, k :: 0 <= r < 3 && 0 <= k < 3 ==> l2[r][k] == l[Exchanged(i, p, r)][Exchanged(i, p, k)]
  {
  }

  /** Exchanging rows `i` and `p` of `U` from column `i` on exchanges the whole rows when both are zero before `i`. */
  lemma SwapWholeRows(u: Matrix, i: nat, p: nat)
    requires Shaped(u, 3) && i < p < 3
    requires forall c :: 0 <= c < i ==> u[i][c] == 0.0 && u[p][c] == 0.0
    ensures forall k :: 0 <= k < 3 ==> SwapSpan(u, i, p, i, 3)[k] == u[Exchanged(i, p, k)]
  {
    var u2 := SwapSpan(u, i, p, i, 3);
    assert u2[i] == u[p] by {
      assert forall c :: 0 <= c < 3 ==> u2[i][c] == u[p][c];
    }
    assert u2[p] == u[i] by {
      assert forall c :: 0 <= c < 3 ==> u2[p][c] == u[i][c];
    }
  }

  /** The pivoting step keeps `L U == P A`. */
  lemma PivotKeepsProduct(s: Factors, a: Matrix, i: nat, p: nat, t: Factors)
    requires Shaped(a, 3) && WellShaped(s) && WellShaped(t) && i < 3 && p < 3
    requires forall r, k :: 0 <= r < 3 && 0 <= k < 3 ==> t.l[r][k] == s.l[Exchanged(i, p, r)][Exchanged(i, p, k)]
    requires forall k :: 0 <= k < 3 ==> t.u[k] == s.u[Exchanged(i, p, k)] && t.p[k] == s.p[Exchanged(i, p, k)]
    requires MatMul(s.l, s.u) == MatMul(s.p, a)
    ensures MatMul(t.l, t.u) == MatMul(t.p, a)
  {
    var lu, pa := MatMul(s.l, s.u), MatMul(s.p, a);
    var lu2, pa2 := MatMul(t.l, t.u), MatMul(t.p, a);
    forall r, c | 0 <= r < 3 && 0 <= c < 3
      ensures lu2[r][c] == pa2[r][c]
    {
      ExchangedProduct(s.l, s.u, t.l, t.u, i, p, r, c);
      assert lu[Exchanged(i, p, r)][c] == pa[Exchanged(i, p, r)][c];
    }
    assert forall r :: 0 <= r < 3 ==> lu2[r] == pa2[r];
  }

  /** The pivoting step keeps the shape of the factors. */
  lemma PivotKeepsStructure(s: Factors, i: nat)
    requires i < 3 && Structure(s, i, i + 1)
    ensures Structure(PivotStep(s, i), i, i + 1)
  {
  }

  /** In the columns from `i` on, `L` is still the identity at stage `i`. */
  lemma IdentityColumns(s: Factors, i: nat)
    requires i < 3 && Structure(s, i, i + 1)
    ensures forall r, k :: 0 <= r < 3 && i <= k < 3 ==> s.l[r][k] == if r == k then 1.0 else 0.0
  {
  }

  /** Exchanging two rows of `P` and the same two entries of `P b` keeps the right-hand side `P b`. */
  lemma SwapKeepsImage(pm: Matrix, pb: Vector, b: Vector, i: nat, p: nat)
    requires Shaped(pm, 3) && |b| == 3 && i < 3 && p < 3 && pb == MatVec(pm, b)
    ensures SwapRows(pb, i, p) == MatVec(SwapRows(pm, i, p), b)
  {
  }

  /** The pivoting step keeps `P` a permutation, the right-hand side `P b`, and `L U == P A`. */
  lemma PivotKeepsFactorisation(s: Factors, a: Matrix, b: Vector, i: nat)
    requires Shaped(a, 3) && |b| == 3 && i < 3 && Structure(s, i, i + 1) && Factorises(s, a, b)
    ensures Factorises(PivotStep(s, i), a, b)
  {
    var p := PivotRow(s.u, i, i);
    if p != i {
      var l2 := if i > 0 then SwapSpan(s.l, i, p, 0, i) else s.l;
      var t := Factors(l2, SwapSpan(s.u, i, p, i, 3), SwapRows(s.p, i, p), SwapRows(s.pb, i, p));
      assert t == PivotStep(s, i);
      IdentityColumns(s, i);
      SwapConjugates(s.l, i, p);
      SwapWholeRows(s.u, i, p);
      SwapKeepsPermutation(s.p, i, p);
      PivotKeepsProduct(s, a, i, p, t);
      SwapKeepsImage(s.p, s.pb, b, i, p);
    }
  }

  /**
   * One entry of `L U` after an elimination step: row `j` of `U` lost `m`
   * times row `i`, and `L` gained `m` at `(j, i)`, where it was 0; since
   * column `j` of `L` is the unit column, the two changes cancel.
   */
  lemma EliminationEntry(lr: Vector, lr2: Vector, u: Matrix, u2: Matrix, r: nat, i: nat, j: nat, m: real, c: nat)
    requires |lr| == 3 && |lr2| == 3 && Shaped(u, 3) && Shaped(u2, 3)
    requires i < j < 3 && r < 3 && c < 3
    requires forall k :: 0 <= k < 3 ==> u2[k][c] == u[k][c] - (if k == j then m * u[i][c] else 0.0)
    requires forall k :: 0 <= k < 3 ==> lr2[k] == lr[k] + (if r == j && k == i then m else 0.0)
    requires lr[j] == if r == j then 1.0 else 0.0
    ensures Combine(lr2, u2, c) == Combine(lr, u, c)
  {
  }

  /** The elimination step keeps the shape of the factors and advances the row. */
  lemma EliminationKeepsStructure(s: Factors, i: nat, j: nat)
    requires i < j < 3 && Structure(s, i, j) && s.u[i][i] != 0.0
    ensures Structure(EliminationStep(s, i, j), i, j + 1)
  {
  }

  /** What an elimination step changes, entry by entry, under the stage invariant. */
  lemma EliminationChanges(s: Factors, i: nat, j: nat, t: Factors)
    requires WellShaped(s) && i < j < 3 && s.u[i][i] != 0.0 && s.l[j][i] == 0.0
    requires forall c :: 0 <= c < i ==> s.u[i][c] == 0.0
    requires t == EliminationStep(s, i, j)
    ensures WellShaped(t)
    ensures forall k, c :: 0 <= k < 3 && 0 <= c < 3 ==> t.u[k][c] == s.u[k][c] - (if k == j then t.l[j][i] * s.u[i][c] else 0.0)
    ensures forall r, k :: 0 <= r < 3 && 0 <= k < 3 ==> t.l[r][k] == s.l[r][k] + (if r == j && k == i then t.l[j][i] else 0.0)
  {
  }

  /** Column `j` of `l` is the unit column `e_j`. */
  ghost predicate UnitColumn(l: Matrix, j: nat)
    requires Shaped(l, 3) && j < 3
  {
    forall r :: 0 <= r < 3 ==> l[r][j] == if r == j then 1.0 else 0.0
  }

  /**
   * While row `j` of stage `i` is pending, `L` is still the identity in
   * column `j` and at `(j, i)`, and the pivot row of `U` is zero before column `i`.
   */
  lemma PendingEntries(s: Factors, i: nat, j: nat)
    requires i < j < 3 && Structure(s, i, j)
    ensures UnitColumn(s.l, j) && s.l[j][i] == 0.0
    ensures forall c :: 0 <= c < i ==> s.u[i][c] == 0.0
  {
  }

  /** An elimination step leaves `L U` as it was. */
  lemma ProductUnchanged(l: Matrix, u: Matrix, l2: Matrix, u2: Matrix, i: nat, j: nat, m: real)
    requires Shaped(l, 3) && Shaped(u, 3) && Shaped(l2, 3) && Shaped(u2, 3) && i < j < 3
    requires forall k, c :: 0 <= k < 3 && 0 <= c < 3 ==> u2[k][c] == u[k][c] - (if k == j then m * u[i][c] else 0.0)
    requires forall r, k :: 0 <= r < 3 && 0 <= k < 3 ==> l2[r][k] == l[r][k] + (if r == j && k == i then m else 0.0)
    requires UnitColumn(l, j)
    ensures MatMul(l2, u2) == MatMul(l, u)
  {
    var lu, lu2 := MatMul(l, u), MatMul(l2, u2);
    forall r, c | 0 <= r < 3 && 0 <= c < 3
      ensures lu2[r][c] == lu[r][c]
    {
      EliminationEntry(l[r], l2[r], u, u2, r, i, j, m, c);
    }
    assert forall r :: 0 <= r < 3 ==> lu2[r] == lu[r];
  }

  /** The elimination step keeps `L U` unchanged, and with it the factorisation. */
  lemma EliminationKeepsFactorisation(s: Factors, a: Matrix, b: Vector, i: nat, j: nat)
    requires Shaped(a, 3) && |b| == 3 && i < j < 3 && Structure(s, i, j) && s.u[i][i] != 0.0
    requires Factorises(s, a, b)
    ensures Factorises(EliminationStep(s, i, j), a, b)
  {
    PendingEntries(s, i, j);
    EliminationKeepsProduct(s, i, j);
    FactorisesAgain(s, EliminationStep(s, i, j), a, b);
  }

  /** The elimination step leaves `L U` as it was while column `j` of `L` is the unit column. */
  lemma EliminationKeepsProduct(s: Factors, i: nat, j: nat)
    requires WellShaped(s) && i < j < 3 && s.u[i][i] != 0.0
    requires UnitColumn(s.l, j) && s.l[j][i] == 0.0
    requires forall c :: 0 <= c < i ==> s.u[i][c] == 0.0
    ensures MatMul(EliminationStep(s, i, j).l, EliminationStep(s, i, j).u) == MatMul(s.l, s.u)
  {
    var t := EliminationStep(s, i, j);
    EliminationChanges(s, i, j, t);
    ProductUnchanged(s.l, s.u, t.l, t.u, i, j, t.l[j][i]);
  }

  /** Factors with the same `P`, the same right-hand side and the same `L U` factorise alike. */
  lemma FactorisesAgain(s: Factors, t: Factors, a: Matrix, b: Vector)
    requires Shaped(a, 3) && |b| == 3 && WellShaped(t) && Factorises(s, a, b)
    requires t.p == s.p && t.pb == s.pb && MatMul(t.l, t.u) == MatMul(s.l, s.u)
    ensures Factorises(t, a, b)
  {
  }

  /** The inner loop of stage `i` keeps the invariant and finishes column `i`. */
  lemma {:induction false} EliminateBelowKeeps(s: Factors, a: Matrix, b: Vector, i: nat, j: nat)
    requires Shaped(a, 3) && |b| == 3 && i < j <= 3 && Structure(s, i, j) && Factorises(s, a, b)
    requires EliminateBelow(s, i, j).Ok?
    ensures Structure(EliminateBelow(s, i, j).value, i, 3) && Factorises(EliminateBelow(s, i, j).value, a, b)
    decreases 3 - j
  {
    if j < 3 {
      EliminationKeepsStructure(s, i, j);
      EliminationKeepsFactorisation(s, a, b, i, j);
      EliminateBelowKeeps(EliminationStep(s, i, j), a, b, i, j + 1);
    }
  }

  /** A finished column `i` is the start of stage `i + 1`. */
  lemma NextStage(s: Factors, i: nat)
    requires i < 3 && Structure(s, i, 3)
    ensures Structure(s, i + 1, i + 2)
  {
  }

  /** Every stage keeps the invariant. */
  lemma StageKeeps(s: Factors, a: Matrix, b: Vector, pivoting: bool, i: nat)
    requires Shaped(a, 3) && |b| == 3 && i < 3 && Structure(s, i, i + 1) && Factorises(s, a, b)
    requires Stage(s, pivoting, i).Ok?
    ensures Structure(Stage(s, pivoting, i).value, i + 1, i + 2) && Factorises(Stage(s, pivoting, i).value, a, b)
  {
    var t := if pivoting then PivotStep(s, i) else s;
    if pivoting {
      PivotKeepsStructure(s, i);
      PivotKeepsFactorisation(s, a, b, i);
    }
    EliminateBelowKeeps(t, a, b, i, i + 1);
    NextStage(EliminateBelow(t, i, i + 1).value, i);
  }

  /** The whole decomposition keeps the invariant. */
  lemma {:induction false} DecomposeKeeps(s: Factors, a: Matrix, b: Vector, pivoting: bool, i: nat)
    requires Shaped(a, 3) && |b| == 3 && i <= 3 && Structure(s, i, i + 1) && Factorises(s, a, b)
    requires Decompose(s, pivoting, i).Ok?
    ensures Structure(Decompose(s, pivoting, i).value, 3, 4) && Factorises(Decompose(s, pivoting, i).value, a, b)
    decreases 3 - i
  {
    if i < 3 {
      StageKeeps(s, a, b, pivoting, i);
      DecomposeKeeps(Stage(s, pivoting, i).value, a, b, pivoting, i + 1);
    }
  }

  /**
   * A decomposition without a zero pivot yields a unit lower-triangular
   * `L`, an upper-triangular `U` with nonzero entries at `(0, 0)` and
   * `(1, 1)`, a permutation matrix `P` and the right-hand side `P b` with
   * `L U == P A`; without pivoting `P` stays `I` and `b` unpermuted.
   */
  lemma Factorisation(a: Matrix, b: Vector, pivoting: bool)
    requires Shaped(a, 3) && |b| == 3 && Decompose(Start(a, b), pivoting, 0).Ok?
    ensures var s := Decompose(Start(a, b), pivoting, 0).value;
      && WellShaped(s)
      && UnitLowerTriangular(s.l)
      && UpperTriangular(s.u)
      && s.u[0][0] != 0.0 && s.u[1][1] != 0.0
      && IsPermutationMatrix(s.p)
      && s.pb == MatVec(s.p, b)
      && MatMul(s.l, s.u) == MatMul(s.p, a)
      && (!pivoting ==> s.p == Identity && s.pb == b)
  {
    StartProgress(a, b);
    DecomposeKeeps(Start(a, b), a, b, pivoting, 0);
  }

  /** Forward substitution on a unit lower-triangular `L` solves `L c = P b`. */
  lemma ForwardSolves(l: Matrix, pb: Vector)
    requires Shaped(l, 3) && |pb| == 3 && UnitLowerTriangular(l)
    ensures MatVec(l, ForwardSubstitute(l, pb, [0.0, 0.0, 0.0], 0)) == pb
  {
    var c := ForwardSubstitute(l, pb, [0.0, 0.0, 0.0], 0);
    forall r | 0 <= r < 3
      ensures Dot(l[r], c) == pb[r]
    {
      assert c[r] + HeadDot(l[r], c, r) == pb[r];
      LowerRow(l[r], c, r);
    }
  }

  /** With a 1 at position `i` and zeros after it, forward substitution's row `i` is the full product. */
  lemma LowerRow(row: Vector, c: Vector, i: nat)
    requires |row| == 3 && |c| == 3 && i < 3
    requires row[i] == 1.0 && forall k :: i < k < 3 ==> row[k] == 0.0
    ensures c[i] + HeadDot(row, c, i) == Dot(row, c)
  {
    var h0, h1, h2 := HeadDot(row, c, 0), HeadDot(row, c, 1), HeadDot(row, c, 2);
    assert h1 == h0 + row[0] * c[0] && h0 == 0.0;
    assert h2 == h1 + row[1] * c[1];
    if i == 0 {
      assert row[1] == 0.0 && row[2] == 0.0;
    } else if i == 1 {
      assert row[2] == 0.0;
    }
  }

  /** On an upper-triangular `U`, a vector solving every back-substitution row solves `U x = c`. */
  lemma BackSolves(u: Matrix, c: Vector, x: Vector)
    requires Shaped(u, 3) && |c| == 3 && |x| == 3 && UpperTriangular(u)
    requires forall r :: 0 <= r < 3 ==> RowSolved(u, c, x, r)
    ensures MatVec(u, x) == c
  {
    forall r | 0 <= r < 3
      ensures Dot(u[r], x) == c[r]
    {
      assert RowSolved(u, c, x, r);
      UpperRow(u, x, r);
    }
  }

  /** When no pivot is zero, the vector `solve` returns solves `A x = b`. */
  lemma SolveCorrect(a: Matrix, b: Vector, pivoting: bool)
    requires Shaped(a, 3) && |b| == 3 && Solve(a, b, pivoting).Ok?
    ensures MatVec(a, Solve(a, b, pivoting).value) == b
  {
    var s := Decompose(Start(a, b), pivoting, 0).value;
    Factorisation(a, b, pivoting);
    var c := ForwardSubstitute(s.l, s.pb, [0.0, 0.0, 0.0], 0);
    var x := Solve(a, b, pivoting).value;
    ForwardSolves(s.l, s.pb);
    BackSolves(s.u, c, x);
    MatMulVec(s.l, s.u, x);
    MatMulVec(s.p, a, x);
    PermutationInjective(s.p, MatVec(a, x), b);
  }
}
