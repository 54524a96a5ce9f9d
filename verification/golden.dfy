/**
 * The golden-section search of `goldenSectionSearch.py` (`run`): a bracket
 * with two interior points at distance `d = R(xu - xl)` from the ends shrinks
 * by the factor `R` each pass, reusing one interior point and its cached
 * value, for exactly `max_iter` passes.
 */
module GoldenSection {
  import opened Numeric

  /**
   * `R = (sqrt(5) - 1)/2`, characterised exactly as the positive number with
   * `2R + 1 = sqrt(5)`.  Dafny's reals have no square root, so the searches
   * below take `R` as a parameter satisfying this predicate.
   */
  predicate IsGoldenRatio(r: real)
  {
    r > 0.0 && (2.0 * r + 1.0) * (2.0 * r + 1.0) == 5.0
  }

  /** The facts the search relies on: `R*R + R == 1` and `1/2 < R < 1`. */
  lemma GoldenRatioFacts(r: real)
    requires IsGoldenRatio(r)
    ensures r * r + r == 1.0
    ensures 0.5 < r < 1.0
  {
    assert 4.0 * (r * r + r) + 1.0 == 5.0;
    assert r * r > 0.0;
    assert r < 1.0;
    assert r * r < r * 1.0;
  }

  datatype Sense = Maximize | Minimize

  /** The bracket, the step `d`, and the interior points `x1 = xl + d`, `x2 = xu - d` with cached values. */
  datatype Search = Search(xl: real, xu: real, d: real, x1: real, fx1: real, x2: real, fx2: real)
  {
    function Width(): real { xu - xl }
  }

  /** The relation `run` keeps between the fields of a search. */
  ghost predicate Consistent(f: real -> real, r: real, s: Search)
  {
    && s.d == r * s.Width()
    && s.x1 == s.xl + s.d
    && s.x2 == s.xu - s.d
    && s.fx1 == f(s.x1)
    && s.fx2 == f(s.x2)
  }

  /** One table row: the bracket ends, the interior points, all with their values, and `d`. */
  datatype Row = Row(iter: nat, xl: real, fxl: real, x1: real, fx1: real, x2: real, fx2: real, xu: real, fxu: real, d: real)

  /** The provisional optimum of a pass with its cached value. */
  datatype Optimum = Optimum(x: real, fx: real)

  /** The outcome of `run`: the rows, the final search and the optimum of the last pass. */
  datatype Report =
    | EmptyBracket                    // `xl >= xu`, rejected before any evaluation
    | NoPasses                        // `max_iter < 1`: no optimum was ever bound
    | Found(rows: seq<Row>, last: Search, optimum: Optimum)

  /** The initial search: `d = R(xu - xl)`, `x1 = xl + d`, `x2 = xu - d`, both evaluated. */
  function Init(f: real -> real, r: real, xl: real, xu: real): (s: Search)
    requires IsGoldenRatio(r)
    ensures Consistent(f, r, s) && s.xl == xl && s.xu == xu
    ensures xl < xu ==> xl < s.x2 < s.x1 < xu
  {
    var d := r * (xu - xl);
    InteriorOrder(r, xl, xu, xu - xl, d);
    Search(xl, xu, d, xl + d, f(xl + d), xu - d, f(xu - d))
  }

  /**
   * Since `1/2 < R < 1`, the points at distance `d = R w` from either end of
   * a bracket of width `w = xu - xl > 0` are ordered `xl < x2 < x1 < xu`.
   */
  lemma InteriorOrder(r: real, xl: real, xu: real, w: real, d: real)
    requires IsGoldenRatio(r) && w == xu - xl && d == r * w
    ensures xl < xu ==> xl < xu - d < xl + d < xu
  {
    GoldenRatioFacts(r);
    if xl < xu {
      Fraction(r, w);
    }
  }

  /** A fraction strictly between 1/2 and 1 of a positive width. */
  lemma Fraction(r: real, w: real)
    requires 0.5 < r < 1.0 && w > 0.0
    ensures r * w < w && 2.0 * (r * w) > w
  {
    assert (1.0 - r) * w > 0.0;
    assert (2.0 * r - 1.0) * w > 0.0;
  }

  /**
   * The branch test of a pass: the left part `[xl, x2]` is dropped, and `xl`
   * moves to `x2`, exactly when `f(x1)` is strictly better than `f(x2)` in
   * the given sense; ties keep the left part.
   */
  function MovesLower(sense: Sense, fx1: real, fx2: real): (b: bool)
    ensures fx1 == fx2 ==> !b
    ensures b <==> if sense == Maximize then fx1 > fx2 else fx1 < fx2
  {
    (sense == Maximize && fx1 > fx2) || (sense == Minimize && fx1 < fx2)
  }

  /** The outcome of one pass: the next search and the pass's provisional optimum. */
  datatype Pass = Pass(next: Search, optimum: Optimum)

  /** One pass of `run`. */
  function Step(f: real -> real, r: real, sense: Sense, s: Search): Pass
  {
    if MovesLower(sense, s.fx1, s.fx2) then
      var xl := s.x2;
      var d := r * (s.xu - xl);
      var x1 := xl + d;
      Pass(Search(xl, s.xu, d, x1, f(x1), s.x1, s.fx1), Optimum(s.x1, s.fx1))
    else
      var xu := s.x1;
      var d := r * (xu - s.xl);
      var x2 := xu - d;
      Pass(Search(s.xl, xu, d, s.x2, s.fx2, x2, f(x2)), Optimum(s.x2, s.fx2))
  }
  /**
   * A pass drops the part of the bracket beyond the worse interior point,
   * keeps the better one with its cached value as the other interior point,
   * evaluates `f` at the one new point, and reports the kept point.
   */
  lemma StepShape(f: real -> real, r: real, sense: Sense, s: Search)
    ensures var p := Step(f, r, sense, s);
      && (MovesLower(sense, s.fx1, s.fx2) ==>
            && p.next.xl == s.x2 && p.next.xu == s.xu
            && p.next.x2 == s.x1 && p.next.fx2 == s.fx1
            && p.next.x1 == p.next.xl + p.next.d && p.next.fx1 == f(p.next.x1))
      && (!MovesLower(sense, s.fx1, s.fx2) ==>
            && p.next.xl == s.xl && p.next.xu == s.x1
            && p.next.x1 == s.x2 && p.next.fx1 == s.fx2
            && p.next.x2 == p.next.xu - p.next.d && p.next.fx2 == f(p.next.x2))
      && p.next.d == r * p.next.Width()
      && (p.optimum == Optimum(s.x1, s.fx1) || p.optimum == Optimum(s.x2, s.fx2))
      && (sense == Maximize ==> p.optimum.fx >= s.fx1 && p.optimum.fx >= s.fx2)
      && (sense == Minimize ==> p.optimum.fx <= s.fx1 && p.optimum.fx <= s.fx2)
  {
  }


  /**
   * A pass keeps the search consistent (the reused point is exactly where
   * the formula for the new `d` puts it), shrinks the width by exactly `R`,
   * keeps `xl < x2 < x1 < xu`, and reports as optimum the better old interior
   * point with its cached value, which is an interior point of the new bracket.
   */
  lemma StepInvariant(f: real -> real, r: real, sense: Sense, s: Search)
    requires IsGoldenRatio(r) && Consistent(f, r, s)
    ensures var n, opt := Step(f, r, sense, s).next, Step(f, r, sense, s).optimum;
      && Consistent(f, r, n)
      && n.Width() == r * s.Width()
      && (s.xl < s.xu ==> n.xl < n.x2 < n.x1 < n.xu)
      && opt.fx == f(opt.x)
      && opt.x == (if MovesLower(sense, s.fx1, s.fx2) then s.x1 else s.x2)
      && opt.x == (if MovesLower(sense, s.fx1, s.fx2) then n.x2 else n.x1)
      && (sense == Maximize ==> opt.fx >= s.fx1 && opt.fx >= s.fx2)
      && (sense == Minimize ==> opt.fx <= s.fx1 && opt.fx <= s.fx2)
  {
    GoldenRatioFacts(r);
    var w := s.Width();
    var n, opt := Step(f, r, sense, s).next, Step(f, r, sense, s).optimum;
    if MovesLower(sense, s.fx1, s.fx2) {
      assert n.Width() == s.d == r * w;
      assert n.d == r * (r * w);
      assert (r * r + r) * w == w;
      assert s.x1 == n.xu - n.d;
    } else {
      assert n.Width() == s.d == r * w;
      assert n.d == r * (r * w);
      assert (r * r + r) * w == w;
      assert s.x2 == n.xl + n.d;
    }
    if s.xl < s.xu {
      assert n.Width() > 0.0;
      InteriorOrder(r, n.xl, n.xu, n.Width(), n.d);
    }
  }

  /** The row a pass displays before it updates the search. */
  function RowOf(f: real -> real, s: Search, iter: nat): Row
  {
    Row(iter, s.xl, f(s.xl), s.x1, s.fx1, s.x2, s.fx2, s.xu, f(s.xu), s.d)
  }

  /** The search a row shows. */
  function SearchOf(row: Row): Search
  {
    Search(row.xl, row.xu, row.d, row.x1, row.fx1, row.x2, row.fx2)
  }

  /** The rows of the passes, the search after the last pass, and the optimum of the last pass. */
  datatype Trace = Trace(rows: seq<Row>, last: Search, optimum: Option<Optimum>)

  /** The passes of `run`: `remaining` are left, the next is numbered `iter`, `opt` is the last optimum. */
  function Loop(f: real -> real, r: real, sense: Sense, s: Search, iter: nat, remaining: nat, opt: Option<Optimum>): (t: Trace)
    ensures |t.rows| == remaining
    ensures remaining == 0 ==> t.last == s && t.optimum == opt
    ensures remaining > 0 ==> t.optimum.Some?
    decreases remaining
  {
    if remaining == 0 then Trace([], s, opt)
    else
      var pass := Step(f, r, sense, s);
      var rest := Loop(f, r, sense, pass.next, iter + 1, remaining - 1, Some(pass.optimum));
      Trace([RowOf(f, s, iter)] + rest.rows, rest.last, rest.optimum)
  }

  /** `run`: reject an empty bracket, set up the search, run `max_iter` passes, report the last optimum. */
  function GoldenSearch(f: real -> real, r: real, sense: Sense, xl: real, xu: real, maxIter: int): (rep: Report)
    requires IsGoldenRatio(r)
    ensures rep == EmptyBracket <==> xl >= xu
    ensures rep == NoPasses <==> xl < xu && maxIter < 1
    ensures rep.Found? ==> |rep.rows| == maxIter
  {
    if xl >= xu then EmptyBracket
    else
      var t := Loop(f, r, sense, Init(f, r, xl, xu), 1, if maxIter > 0 then maxIter else 0, None);
      match t.optimum
      case None => NoPasses
      case Some(o) => Found(t.rows, t.last, o)
  }

  /** The search after `k` passes keeps the invariant and has width `R^k` times the initial one. */
  ghost predicate After(f: real -> real, r: real, s0: Search, k: nat, s: Search)
  {
    && Consistent(f, r, s)
    && s.xl < s.x2 < s.x1 < s.xu
    && s.Width() == Pow(r, k) * s0.Width()
  }

  /** Row `k` of a run from `s0`: it shows the search after `k` passes, with `f` at both ends. */
  ghost predicate RowAfter(f: real -> real, r: real, s0: Search, k: nat, row: Row)
  {
    After(f, r, s0, k, SearchOf(row)) && row.fxl == f(row.xl) && row.fxu == f(row.xu)
  }

  lemma ScaledWidth(r: real, w0: real, w1: real, w: real, k: nat)
    requires k > 0 && w1 == r * w0 && w == Pow(r, k - 1) * w1
    ensures w == Pow(r, k) * w0
  {
    assert Pow(r, k) == r * Pow(r, k - 1);
  }

  /** The search after `k` passes from `s`. */
  function Iterate(f: real -> real, r: real, sense: Sense, s: Search, k: nat): Search
    decreases k
  {
    if k == 0 then s else Iterate(f, r, sense, Step(f, r, sense, s).next, k - 1)
  }

  /** Every search `k` passes from a consistent, nonempty one satisfies `After`. */
  lemma {:induction false} IterateAfter(f: real -> real, r: real, sense: Sense, s: Search, k: nat)
    requires IsGoldenRatio(r) && Consistent(f, r, s) && s.xl < s.xu
    ensures After(f, r, s, k, Iterate(f, r, sense, s, k))
    decreases k
  {
    if k == 0 {
      InteriorOrder(r, s.xl, s.xu, s.Width(), s.d);
    } else {
      var next := Step(f, r, sense, s).next;
      StepInvariant(f, r, sense, s);
      IterateAfter(f, r, sense, next, k - 1);
      AfterShift(f, r, s, next, Iterate(f, r, sense, next, k - 1), k);
    }
  }

  /** A search `k - 1` passes after one whose width is `R` times that of `s` is `k` passes after `s`. */
  lemma AfterShift(f: real -> real, r: real, s: Search, next: Search, last: Search, k: nat)
    requires k > 0 && next.Width() == r * s.Width() && After(f, r, next, k - 1, last)
    ensures After(f, r, s, k, last)
  {
    ScaledWidth(r, s.Width(), next.Width(), last.Width(), k);
  }

  /**
   * The loop shows, in row `k`, the search `k` passes from `s`, ends with the
   * search `remaining` passes from `s`, and reports the optimum of the last pass.
   */
  lemma LoopIterates(f: real -> real, r: real, sense: Sense, s: Search, iter: nat, remaining: nat, opt: Option<Optimum>)
    ensures var t := Loop(f, r, sense, s, iter, remaining, opt);
      && t.last == Iterate(f, r, sense, s, remaining)
      && ShowsIterates(f, r, sense, s, iter, t.rows)
      && (remaining > 0 ==> t.optimum == Some(Step(f, r, sense, Iterate(f, r, sense, s, remaining - 1)).optimum))
  {
    LoopLast(f, r, sense, s, iter, remaining, opt);
    LoopShows(f, r, sense, s, iter, remaining, opt);
  }

  /** The loop ends with the search `remaining` passes from `s`, reporting the optimum of the last pass. */
  lemma {:induction false} LoopLast(f: real -> real, r: real, sense: Sense, s: Search, iter: nat, remaining: nat, opt: Option<Optimum>)
    ensures var t := Loop(f, r, sense, s, iter, remaining, opt);
      && t.last == Iterate(f, r, sense, s, remaining)
      && (remaining > 0 ==> t.optimum == Some(Step(f, r, sense, Iterate(f, r, sense, s, remaining - 1)).optimum))
    decreases remaining
  {
    if remaining > 0 {
      var next := Step(f, r, sense, s).next;
      LoopLast(f, r, sense, next, iter + 1, remaining - 1, Some(Step(f, r, sense, s).optimum));
      assert Iterate(f, r, sense, s, remaining) == Iterate(f, r, sense, next, remaining - 1);
      if remaining > 1 {
        assert Iterate(f, r, sense, s, remaining - 1) == Iterate(f, r, sense, next, remaining - 2);
      }
    }
  }

  /** Row `k` of the loop shows the search `k` passes from `s`. */
  lemma {:induction false} LoopShows(f: real -> real, r: real, sense: Sense, s: Search, iter: nat, remaining: nat, opt: Option<Optimum>)
    ensures ShowsIterates(f, r, sense, s, iter, Loop(f, r, sense, s, iter, remaining, opt).rows)
    decreases remaining
  {
    if remaining > 0 {
      var pass := Step(f, r, sense, s);
      var rest := Loop(f, r, sense, pass.next, iter + 1, remaining - 1, Some(pass.optimum)).rows;
      LoopShows(f, r, sense, pass.next, iter + 1, remaining - 1, Some(pass.optimum));
      assert Loop(f, r, sense, s, iter, remaining, opt).rows == [RowOf(f, s, iter)] + rest;
      IteratesCons(f, r, sense, s, iter, rest);
    }
  }

  /** Row `k` of `rows` is the row numbered `iter + k` of the search `k` passes from `s`. */
  ghost predicate ShowsIterates(f: real -> real, r: real, sense: Sense, s: Search, iter: nat, rows: seq<Row>)
  {
    forall k :: 0 <= k < |rows| ==> rows[k] == RowOf(f, Iterate(f, r, sense, s, k), iter + k)
  }

  /** The row of `s` followed by the rows from the next search shows the searches from `s`. */
  lemma IteratesCons(f: real -> real, r: real, sense: Sense, s: Search, iter: nat, rest: seq<Row>)
    requires ShowsIterates(f, r, sense, Step(f, r, sense, s).next, iter + 1, rest)
    ensures ShowsIterates(f, r, sense, s, iter, [RowOf(f, s, iter)] + rest)
  {
    var rows := [RowOf(f, s, iter)] + rest;
    forall k | 0 <= k < |rows|
      ensures rows[k] == RowOf(f, Iterate(f, r, sense, s, k), iter + k)
    {
      if k > 0 {
        assert Iterate(f, r, sense, s, k) == Iterate(f, r, sense, Step(f, r, sense, s).next, k - 1);
        assert rows[k] == rest[k - 1];
      }
    }
  }

  /** Row `k` of `rows` is numbered `iter + k` and shows the search after `k` passes from `s0`. */
  ghost predicate RowsAfter(f: real -> real, r: real, s0: Search, iter: nat, rows: seq<Row>)
  {
    forall k :: 0 <= k < |rows| ==> rows[k].iter == iter + k && RowAfter(f, r, s0, k, rows[k])
  }

  /**
   * An accepted search with at least one pass shows exactly `maxIter` rows,
   * row `k` showing a consistent search of width `R^k (xu - xl)`; it ends
   * with a consistent search of width `R^maxIter (xu - xl)` and reports an
   * interior point of that final bracket with its value.
   */
  lemma GoldenRun(f: real -> real, r: real, sense: Sense, xl: real, xu: real, maxIter: int)
    requires IsGoldenRatio(r) && xl < xu && maxIter >= 1
    ensures var rep := GoldenSearch(f, r, sense, xl, xu, maxIter);
      var s0 := Init(f, r, xl, xu);
      && rep.Found?
      && |rep.rows| == maxIter
      && RowsAfter(f, r, s0, 1, rep.rows)
      && After(f, r, s0, maxIter, rep.last)
      && rep.last.xl < rep.optimum.x < rep.last.xu
      && rep.optimum.fx == f(rep.optimum.x)
  {
    var s0 := Init(f, r, xl, xu);
    LoopRows(f, r, sense, s0, 1, maxIter, None);
    LoopOutcome(f, r, sense, s0, 1, maxIter, None);
  }

  /** Every row of the loop from a consistent, nonempty search shows the search after as many passes. */
  lemma LoopRows(f: real -> real, r: real, sense: Sense, s: Search, iter: nat, remaining: nat, opt: Option<Optimum>)
    requires IsGoldenRatio(r) && Consistent(f, r, s) && s.xl < s.xu
    ensures RowsAfter(f, r, s, iter, Loop(f, r, sense, s, iter, remaining, opt).rows)
  {
    LoopShows(f, r, sense, s, iter, remaining, opt);
    var rows := Loop(f, r, sense, s, iter, remaining, opt).rows;
    forall k | 0 <= k < |rows|
      ensures rows[k].iter == iter + k && RowAfter(f, r, s, k, rows[k])
    {
      IterateAfter(f, r, sense, s, k);
      assert rows[k] == RowOf(f, Iterate(f, r, sense, s, k), iter + k);
      assert SearchOf(rows[k]) == Iterate(f, r, sense, s, k);
    }
  }

  /** After at least one pass the loop ends `remaining` passes on and reports an interior point with its value. */
  lemma LoopOutcome(f: real -> real, r: real, sense: Sense, s: Search, iter: nat, remaining: nat, opt: Option<Optimum>)
    requires IsGoldenRatio(r) && Consistent(f, r, s) && s.xl < s.xu && remaining > 0
    ensures var t := Loop(f, r, sense, s, iter, remaining, opt);
      && After(f, r, s, remaining, t.last)
      && t.optimum.Some?
      && t.last.xl < t.optimum.value.x < t.last.xu
      && t.optimum.value.fx == f(t.optimum.value.x)
  {
    LoopIterates(f, r, sense, s, iter, remaining, opt);
    IterateAfter(f, r, sense, s, remaining);
    var before := Iterate(f, r, sense, s, remaining - 1);
    IterateAfter(f, r, sense, s, remaining - 1);
    LastPassInterior(f, r, sense, before);
    IterateStep(f, r, sense, s, remaining - 1);
  }

  /** The optimum a pass reports is an interior point of the bracket it leaves, with its value. */
  lemma LastPassInterior(f: real -> real, r: real, sense: Sense, s: Search)
    requires IsGoldenRatio(r) && Consistent(f, r, s) && s.xl < s.xu
    ensures var pass := Step(f, r, sense, s);
      && pass.next.xl < pass.optimum.x < pass.next.xu
      && pass.optimum.fx == f(pass.optimum.x)
  {
    StepInvariant(f, r, sense, s);
  }

  /** One more pass after `k` passes gives the search `k + 1` passes from `s`. */
  lemma {:induction false} IterateStep(f: real -> real, r: real, sense: Sense, s: Search, k: nat)
    ensures Iterate(f, r, sense, s, k + 1) == Step(f, r, sense, Iterate(f, r, sense, s, k)).next
    decreases k
  {
    if k > 0 {
      IterateStep(f, r, sense, Step(f, r, sense, s).next, k - 1);
    }
  }
}
