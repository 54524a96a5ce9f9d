# Numerical analysis calculators in Dafny

This project models the numerical core of a small numerical-analysis
calculator. The calculator is a set of tkinter windows. Each window wraps
one classical algorithm:

- bisection, secant and Newton–Raphson root finding;
- golden-section search for a maximum or a minimum;
- Gaussian elimination and LU decomposition on a 3×3 linear system, each
  with optional partial pivoting.

Each algorithm is lifted out of its GUI method as pure functions. The four
iterative methods have a step function and a driver bounded by the
iteration count, which returns the rows the window would display and the
outcome it would report. The two linear solvers return the solution
vector, or the row of the zero pivot they would divide by.

Arithmetic is over Dafny's exact `real`, so several identities are proved
exactly rather than within a rounding tolerance:

- the bisection width halves on every pass;
- the golden-section width shrinks by the factor `R`, and the reused
  interior point lands exactly where the formula puts it;
- elimination clears the column below the pivot;
- LU decomposition keeps `L U == P A`;
- the returned vector solves `A x = b`.

The function being analysed (and, for Newton, its derivative) is a
parameter `f: real -> real` (and `df`). It stands for the expression that
the user types and the calculator evaluates.

Modules, one per file:

- `Numeric` (`numeric.dfy`): `Option`, absolute value, powers, and the
  relative-percent error shared by the three root finders.
- `Bisection`, `Secant`, `Newton` (`bisection.dfy`, `secant.dfy`,
  `newton.dfy`): each root finder's input checks, loop and outcome.
  Every exit of the source has a status:
  - converged;
  - iterations exhausted, with a best-effort root;
  - the division guards;
  - the Python exceptions that reach the generic error handler.
- `GoldenSection` (`golden.dfy`): the search as a function of the
  parameter `r`. `IsGoldenRatio(r)` characterises `(√5 − 1)/2` exactly as
  the positive `r` with `(2r + 1)² = 5`.
- `Matrices` (`matrices.dfy`): 3×3 vectors and matrices, the products,
  the row operations that both solvers share, the pivot rule, permutation
  matrices, and back-substitution.
- `Gauss` (`gauss.dfy`): `solve` of `GE.py`.
- `LU` (`lu.dfy`): `solve` of `LUDec.py`.
- `Agreement` (`agreement.dfy`): with the same pivoting setting, the two
  linear solvers give identical results.

Neither linear solver guards its divisions. Over floating point, a zero
pivot gives `inf`/`nan`; here it gives `ZeroPivot(row)`, at exactly the
division that would have produced them:

- `ZeroPivot(i)` when a multiplier at stage `i < 2` divides by a zero
  diagonal entry;
- `ZeroPivot(k)` during back-substitution, where `k` is the highest row
  whose diagonal entry is zero.

Stage 2 has no rows below the pivot, so it never divides.

## Model

| member | source | states |
|---|---|---|
| Numeric.RelativePercent | numericalAnalysisCalculator/calculators/BisectUPdated.py:126 | the relative-percent error is never negative, and it is zero exactly when the new value equals the old one |
| Bisection.StartBisection | numericalAnalysisCalculator/calculators/BisectUPdated.py:199-218 | a run is rejected before any pass exactly when `max_iter <= 0`, `xl >= xu` or `f(xl)*f(xu) >= 0`; each reason is reported under its own condition, checked in the source's order |
| Bisection.BisectionMethod | numericalAnalysisCalculator/calculators/BisectUPdated.py:108-119 | the inner method rejects exactly when `f(xl)*f(xu) > 0`; it evaluates at most `max_iter` midpoints; with no pass to run it has no last midpoint to report |
| Bisection.Midpoint | numericalAnalysisCalculator/calculators/BisectUPdated.py:120 | the midpoint is equidistant from both bounds and lies strictly inside a proper bracket |
| Bisection.PassError | numericalAnalysisCalculator/calculators/BisectUPdated.py:123-126 | a zero of `f` at the midpoint gives error 0; otherwise the first pass has an infinite error, and a later pass has the relative-percent change against the previous midpoint (non-negative, zero exactly when the midpoint repeats), except that a zero midpoint makes the error division fail |
| Bisection.Narrow | numericalAnalysisCalculator/calculators/BisectUPdated.py:140-143 | exactly one bound, with its cached value, is replaced by the midpoint; which one follows the sign of `f(xl)*f(xr)` |
| Bisection.NarrowHalves | numericalAnalysisCalculator/calculators/BisectUPdated.py:140-143 | narrowing at the midpoint keeps `xl < xu` and halves the width exactly |
| Bisection.NarrowKeepsSignChange | numericalAnalysisCalculator/calculators/BisectUPdated.py:123-143 | a nonzero value at the midpoint keeps `f(xl)*f(xu) < 0` after narrowing; a zero gives error 0, which stops the loop first |
| Bisection.Loop | numericalAnalysisCalculator/calculators/BisectUPdated.py:119-149 | the loop runs at most `remaining` passes; success reports the last midpoint once its error is within `eps`; exhaustion comes after exactly `remaining` passes and reports the last midpoint |
| Bisection.BisectionRun | numericalAnalysisCalculator/calculators/BisectUPdated.py:118-149 | in an accepted run: passes are numbered from 1; the first error is computed without a previous midpoint, so it is infinite unless `f(xr) == 0`; each later error is measured against the previous midpoint; every non-final pass missed `eps`; success reports the last midpoint once its error is within `eps`; any other ending comes after a last pass that missed `eps` too, so exhaustion means `max_iter` non-terminating passes and reports the last midpoint; the only crash is a zero midpoint in the error division, which happens within the budget, in a pass after the first, at a midpoint 0 with `f(0) != 0` |
| Bisection.BisectionBrackets | numericalAnalysisCalculator/calculators/BisectUPdated.py:114-143 | given `eps >= 0`, pass `k` of an accepted run has a proper sign-change bracket with cached end values and width `(xu - xl)/2^k`, and its midpoint lies strictly inside |
| Secant.StartSecant | numericalAnalysisCalculator/calculators/secantUpdated.py:195-210 | a run is rejected before any pass exactly when `max_iter <= 0` or the two guesses are equal |
| Secant.SecantMethod | numericalAnalysisCalculator/calculators/secantUpdated.py:108-118 | the trace opens with record 0 for the initial pair, whose error is infinite, followed by at most `max_iter` pass records |
| Secant.SecantPoint | numericalAnalysisCalculator/calculators/secantUpdated.py:125 | the secant line through the two window points vanishes at the new iterate |
| Secant.IterateError | numericalAnalysisCalculator/calculators/secantUpdated.py:132 | the error is infinite exactly when the new iterate is 0; otherwise it is non-negative and zero exactly when the iterate did not move |
| Secant.ZeroIterateNeverConverges | numericalAnalysisCalculator/calculators/secantUpdated.py:132-141 | a zero iterate never meets a finite tolerance |
| Secant.Loop | numericalAnalysisCalculator/calculators/secantUpdated.py:118-151 | the loop runs at most `remaining` passes; success reports the newest iterate once its error is within `eps`; exhaustion comes after exactly `remaining` passes and reports the newest iterate; the division guard stops the loop before its budget runs out |
| Secant.SecantRun | numericalAnalysisCalculator/calculators/secantUpdated.py:115-151 | in an accepted run, record `k` is numbered `k` and shows `f` at its points. Each pass follows from the one before in these ways: the guard `abs(f(x_{i-1}) - f(x_i)) >= 1e-20` held; the window slid by one point and carried its cached value; the new point is the secant iterate; the previous record missed `eps`. Success reports the newest iterate once its error is within `eps`; every other ending comes after a last record that missed `eps`: exhaustion reports the newest of exactly `max_iter` iterates, and the guard aborts only on a window whose two values are closer than `1e-20` |
| Newton.TangentStep | numericalAnalysisCalculator/calculators/newton.py:143 | the tangent line at `x` vanishes at the next iterate |
| Newton.Calculate | numericalAnalysisCalculator/calculators/newton.py:127-185 | `max_iter <= 0` is exactly the case that ends in the generic error handler with no iterations; otherwise there are at most `max_iter` rows |
| Newton.Loop | numericalAnalysisCalculator/calculators/newton.py:132-176 | the loop has at most `remaining` passes. Convergence reports the current iterate, not the next one, together with the pass count. Exhaustion comes after exactly `remaining` passes and reports the tangent step from the last row. A flat derivative or a zero iterate stops the loop before its budget runs out |
| Newton.NewtonRun | numericalAnalysisCalculator/calculators/newton.py:127-185 | row `k` is numbered `k`; it shows `f` and `f'` at its iterate, with `abs(f') >= 1e-15`. Row 0 is `x0`, with no error column. Each later row is the tangent step from the one before, and its error is measured against that row's iterate. Every row but the last had error `>= tol`. Convergence reports the last row's iterate, after a strictly smaller error; every other ending comes after a last row whose error was `>= tol`. Exhaustion reports the tangent step from the last of exactly `max_iter` rows. A flat derivative and a zero iterate are detected at the iterate the next pass evaluates, the zero iterate only after `abs(f'(0)) >= 1e-15` passed |
| Newton.FirstPassError | numericalAnalysisCalculator/calculators/newton.py:129-174 | because the previous iterate starts at 0, the first pass has error 100% and stops there exactly when `100 < tol` |
| GoldenSection.GoldenRatioFacts | numericalAnalysisCalculator/calculators/goldenSectionSearch.py:9 | `R*R + R == 1` and `1/2 < R < 1` |
| GoldenSection.Init | numericalAnalysisCalculator/calculators/goldenSectionSearch.py:101-103 | the initial search keeps `d = R(xu - xl)`, `x1 = xl + d` and `x2 = xu - d` with cached values, and `xl < x2 < x1 < xu` |
| GoldenSection.InteriorOrder | numericalAnalysisCalculator/calculators/goldenSectionSearch.py:101-102 | the points at distance `R(xu - xl)` from the two ends of a proper bracket satisfy `xl < x2 < x1 < xu` |
| GoldenSection.MovesLower | numericalAnalysisCalculator/calculators/goldenSectionSearch.py:128 | the lower bound moves exactly when `f(x1)` is strictly better than `f(x2)` in the chosen sense, so ties keep the left part |
| GoldenSection.StepShape | numericalAnalysisCalculator/calculators/goldenSectionSearch.py:128-143 | a pass drops `[xl, x2]` or `[x1, xu]` as the branch test says, reuses the surviving interior point with its cached value as the other interior point, evaluates `f` only at the one new point at distance `d = R(xu - xl)` of the new bracket, and reports the kept interior point, which is at least as good as both old interior values in the chosen sense |
| GoldenSection.StepInvariant | numericalAnalysisCalculator/calculators/goldenSectionSearch.py:128-143 | a pass keeps `d`, `x1`, `x2` and their cached values consistent, with the reused point exactly where the new `d` puts it. The width shrinks by exactly `R`, and `xl < x2 < x1 < xu` still holds. The reported optimum is the better old interior point with its cached value, lies inside the new bracket, and is at least as good as both old interior values |
| GoldenSection.Loop | numericalAnalysisCalculator/calculators/goldenSectionSearch.py:114-147 | the loop shows exactly one row per pass, ends with the search it started from when no pass is left, and has an optimum bound after any pass |
| GoldenSection.GoldenSearch | numericalAnalysisCalculator/calculators/goldenSectionSearch.py:93-162 | `xl >= xu` is exactly the case rejected before any evaluation; `max_iter < 1` on a proper bracket is exactly the case with no optimum to report; otherwise there are exactly `max_iter` rows |
| GoldenSection.GoldenRun | numericalAnalysisCalculator/calculators/goldenSectionSearch.py:93-150 | an accepted search shows exactly `max_iter` rows, and row `k` shows a consistent search of width `R^k (xu - xl)`. It ends with a consistent search of width `R^max_iter (xu - xl)` and reports an interior point of that final bracket, with its value |
| Matrices.SwapRows | numericalAnalysisCalculator/calculators/GE.py:105-106 | a swap exchanges two rows, keeps every other row, and the result is a permutation of the rows |
| Matrices.SwapSpan | numericalAnalysisCalculator/calculators/LUDec.py:139-141 | a partial swap exchanges the two rows inside a column range only, and keeps everything else |
| Matrices.Subtract | numericalAnalysisCalculator/calculators/GE.py:113 | a row operation changes only row `j`, subtracting the multiple of row `i` from column `lo` on |
| Matrices.PivotRow | numericalAnalysisCalculator/calculators/GE.py:104 | the pivot row is in `i..2`, has the largest absolute entry in the pivot column, and is the first row to do so |
| Matrices.SwapKeepsPermutation | numericalAnalysisCalculator/calculators/LUDec.py:142 | swapping two rows of a permutation matrix gives a permutation matrix |
| Matrices.PermutationInjective | numericalAnalysisCalculator/calculators/LUDec.py:125-142 | a permutation matrix maps distinct vectors to distinct vectors |
| Matrices.SolveScalar | numericalAnalysisCalculator/calculators/GE.py:119 | with a nonzero diagonal entry, the value `q` written to `x[i]` solves the row equation `A[i][i] q + tail == b[i]` |
| Matrices.BackSubstitute | numericalAnalysisCalculator/calculators/GE.py:117-119 | back-substitution succeeds exactly when the diagonal entries are nonzero, and then every row's equation `sum_{k>=i} m[i][k] x[k] == rhs[i]` holds; otherwise it stops at the highest row with a zero diagonal entry |
| Matrices.TriangularUnique | numericalAnalysisCalculator/calculators/LUDec.py:167-182 | with a nonzero diagonal, at most one vector solves every back-substitution row |
| Gauss.Augment | numericalAnalysisCalculator/calculators/GE.py:97 | the augmented matrix holds `A` in columns 0..2 and `b` in column 3 |
| Gauss.Pivot | numericalAnalysisCalculator/calculators/GE.py:103-106 | pivoting puts the row chosen by the pivot rule at row `i`, keeps the multiset of rows and the rows above `i`, and keeps the columns already cleared |
| Gauss.EliminateBelow | numericalAnalysisCalculator/calculators/GE.py:110-113 | elimination succeeds exactly when there are no rows left to clear or the pivot is nonzero. On success it keeps the rows above `j`, clears column `i` from row `j` down, and keeps the columns before `i` |
| Gauss.Stage | numericalAnalysisCalculator/calculators/GE.py:102-113 | with pivoting, a stage fails exactly when it has rows to clear and column `i` is zero from row `i` down; without pivoting, exactly when it has rows to clear and `Ab[i][i]` is zero. A stage that succeeds clears one more column, keeps the rows above `i`, and places the chosen pivot row at `i` |
| Gauss.Eliminate | numericalAnalysisCalculator/calculators/GE.py:102-115 | after all stages the coefficient part is upper triangular, with nonzero pivots at rows 0 and 1; a zero pivot is reported at a stage row |
| Gauss.SwapKeepsSolutions | numericalAnalysisCalculator/calculators/GE.py:105-106 | exchanging two equations does not change the solutions |
| Gauss.SubtractKeepsSolutions | numericalAnalysisCalculator/calculators/GE.py:113 | subtracting a multiple of one equation from another, where the skipped columns are zero in the pivot row, does not change the solutions |
| Gauss.Solve | numericalAnalysisCalculator/calculators/GE.py:92-119 | a result is a 3-vector, or a zero pivot at one of the three rows; that the vector solves `A x = b` and is the only solution is stated by `Gauss.SolveCorrect` |
| Gauss.SolveCorrect | numericalAnalysisCalculator/calculators/GE.py:92-119 | when no pivot is zero, the returned vector solves `A x = b`, and every solution equals it |
| LU.Start | numericalAnalysisCalculator/calculators/LUDec.py:123-126 | the state starts with `L = I`, `U = A`, `P = I` and the right-hand side `b` |
| LU.PivotSwaps | numericalAnalysisCalculator/calculators/LUDec.py:136-143 | the pivot row chosen by `argmax` is exchanged with row `i`, so `U[i][i]` becomes the entry of largest absolute value in column `i` from row `i` down; `P` and `b` exchange the same two rows, and every other row of `L`, `U`, `P` and `b` is kept |
| LU.PivotKeepsFactorisation | numericalAnalysisCalculator/calculators/LUDec.py:136-143 | the synchronised swap in `U`, `L`, `P` and `b` keeps `P` a permutation, keeps the right-hand side equal to `P b`, and keeps `L U == P A` |
| LU.EliminationStep | numericalAnalysisCalculator/calculators/LUDec.py:150-152 | one elimination row zeroes `U[j][i]`, changes no other row of `U`, and leaves `P` and `b` alone |
| LU.EliminationKeepsFactorisation | numericalAnalysisCalculator/calculators/LUDec.py:149-152 | storing the multiplier in `L` and subtracting in `U` keeps `L U == P A` |
| LU.EliminateBelow | numericalAnalysisCalculator/calculators/LUDec.py:149-152 | the inner loop succeeds exactly when there are no rows left or `U[i][i]` is nonzero; on success it clears column `i` of `U` from row `j` down, keeps the rows of `U` above `j`, and leaves `P` and `b` alone; otherwise it reports the zero pivot at row `i` |
| LU.Stage | numericalAnalysisCalculator/calculators/LUDec.py:132-152 | a stage fails under the same conditions as in Gaussian elimination. A stage that succeeds has a nonzero pivot at row `i < 2`, keeps the rows of `U` above `i`, and without pivoting leaves `P` and `b` unchanged |
| LU.Decompose | numericalAnalysisCalculator/calculators/LUDec.py:132-152 | the stage loop from stage `i` keeps the rows of `U` above `i`, gives nonzero pivots at the stages before the last, leaves `P` and `b` alone without pivoting, and reports a zero pivot only at a stage row `i..1` |
| LU.Factorisation | numericalAnalysisCalculator/calculators/LUDec.py:123-152 | a decomposition without a zero pivot gives: a unit lower-triangular `L`; an upper-triangular `U` with nonzero `U[0][0]` and `U[1][1]`; a permutation `P`; `b` permuted to `P b`; and `L U == P A`. Without pivoting, `P == I` and `b` is unchanged |
| LU.ForwardSubstitute | numericalAnalysisCalculator/calculators/LUDec.py:159-161 | each `c[i]` plus the sum of `L[i][k] c[k]` over `k < i` equals `b[i]` |
| LU.ForwardSolves | numericalAnalysisCalculator/calculators/LUDec.py:159-161 | on a unit lower-triangular `L`, forward substitution solves `L c = P b` |
| LU.BackSolves | numericalAnalysisCalculator/calculators/LUDec.py:167-181 | on an upper-triangular `U`, a vector that solves every back-substitution row solves `U x = c` |
| LU.SolveCorrect | numericalAnalysisCalculator/calculators/LUDec.py:118-182 | when no pivot is zero, the returned vector solves `A x = b` |
| LU.Solve | numericalAnalysisCalculator/calculators/LUDec.py:118-182 | a result is a 3-vector, or a zero pivot at one of the three rows; that the vector solves `A x = b` is stated by `LU.SolveCorrect` |
| Agreement.SameResult | numericalAnalysisCalculator/calculators/LUDec.py:132-182 | with the same pivoting setting, `GE.py` and `LUDec.py` give the same result: the same solution, or a zero pivot at the same row |
| Agreement.SolutionsAgree | numericalAnalysisCalculator/calculators/GE.py:92-119 | whenever both solvers succeed, whatever their pivoting settings, their solutions are equal |

## Left out

- The tkinter windows, the table rows and the narration written into the text boxes are left out. The rows are modelled as values; their formatting is not.
- Message boxes are left out. Each error message becomes a status or rejection reason. Two messages share one: the sign-change errors of `BisectUPdated.py` at line 115 (inner method, `f(xl)*f(xu) > 0`) and line 215 (input check, `f(xl)*f(xu) >= 0`) are both `Rejected(NoSignChange)`; which check produced it follows from the member, `Bisection.BisectionMethod` or `Bisection.StartBisection`.
- The input parsing (`float(...)`, `int(...)`, `get_matrix`) is left out. Inputs are Dafny `real`/`int` values.
- The expression evaluators built on Python's `eval` are replaced by the parameters `f` and `df`. An expression that fails to evaluate is not modelled.
- IEEE floating point is left out: rounding, `inf` and `nan` arithmetic, and `math.sqrt`. Everything is exact over `real`. The thresholds `1e-20` and `1e-15` are exact real constants.
- The infinite error of the root finders is a separate constructor, `Infinite`, which never meets a finite tolerance.
- A zero pivot is reported as `ZeroPivot` instead of continuing with `inf`/`nan` entries.
- GoldenSection: `R` is a parameter `r` with `IsGoldenRatio(r)` instead of the float `(math.sqrt(5) - 1)/2`. Dafny's reals have no square root.
- GoldenSection.RowOf: the values `f(xl)` and `f(xu)` that each pass evaluates only for display are kept in the row; nothing depends on them.
- Bisection, Secant, Newton: no convergence to a root is claimed. Such a claim needs continuity of `f`, which the source neither checks nor states.
- `FalsePosUpdated` is imported by the launcher `main_app.py`. It is not part of this model.
- The numpy calls are replaced by explicit sequence functions with the same meaning: `argmax` of absolute values with the first index on ties, fancy-index row swaps, `column_stack`, `sum` of elementwise products.
