/**
 * Progress of `find_optimum_cost`.  With either search a pass that does not end keeps
 * the reduced costs non-negative and never lowers the dual sum (the sum of the u and v
 * vectors).  With the search as written the sum may stay put for ever: the cover it
 * returns can leave a zero uncovered, epsilon is then 0 and the pass saves the state it
 * started from (`StalledLoop`).  With the corrected search every pass that does not end
 * raises the dual sum by at least one, while no dual sum of non-negative reduced costs
 * exceeds the cost of an assignment, so the loop ends, with a perfect matching, after at
 * most as many passes as that gap.
 */
module Progress {
  import opened Collections
  import opened Graphs
  import opened EqualityGraphs
  import opened DualMatrices
  import opened SetSums
  import opened CoverSplits
  import opened Epsilons
  import opened DualUpdates
  import opened AssignmentProblem
  import opened Duality

  // ---------------------------------------------------------------------------------
  // Sums of the moved vectors

  /** Adding `d` at the indices `at` lists adds `d` once per listed index below the length. */
  lemma {:induction false} SumAddAt(u: seq<int>, at: seq<nat>, d: int)
    ensures Sum(AddAt(u, at, d)) == Sum(u) + d * |RowsOf(at, |u|)|
    decreases |u|
  {
    if |u| > 0 {
      var k := |u| - 1;
      var w := AddAt(u, at, d);
      SumAddAt(u[..k], at, d);
      assert w[..k] == AddAt(u[..k], at, d);
      var before := |RowsOf(at, k)|;
      if k in at {
        assert RowsOf(at, k + 1) == RowsOf(at, k) + {k};
        assert k !in RowsOf(at, k);
        assert w[k] == u[k] + d;
        MulSucc(d, before);
      } else {
        assert RowsOf(at, k + 1) == RowsOf(at, k);
        assert w[k] == u[k];
      }
    }
  }

  /** One more listed index adds one more `d`. */
  lemma MulSucc(d: int, x: nat)
    ensures d * (x + 1) == d * x + d
  {
  }

  /** Taking `d` away at the indices `at` lists takes `d` once per listed index below the length. */
  lemma {:induction false} SumSubtractAt(v: seq<int>, at: seq<nat>, d: int)
    ensures Sum(SubtractAt(v, at, d)) == Sum(v) - d * |RowsOf(at, |v|)|
    decreases |v|
  {
    if |v| > 0 {
      var k := |v| - 1;
      var w := SubtractAt(v, at, d);
      SumSubtractAt(v[..k], at, d);
      assert w[..k] == SubtractAt(v[..k], at, d);
      var before := |RowsOf(at, k)|;
      if k in at {
        assert RowsOf(at, k + 1) == RowsOf(at, k) + {k};
        assert k !in RowsOf(at, k);
        assert w[k] == v[k] - d;
        MulSucc(d, before);
      } else {
        assert RowsOf(at, k + 1) == RowsOf(at, k);
        assert w[k] == v[k];
      }
    }
  }

  // ---------------------------------------------------------------------------------
  // The size of a cover

  /** The column nodes of the columns in `cols`. */
  ghost function ColumnNodes(cols: set<nat>, n: nat): (r: set<nat>) {
    Image(cols, (j: nat) => ColumnNode(n, j))
  }

  /** A cover without repetitions holds at least as many nodes as it covers rows and columns together. */
  lemma CoverCount(cover: seq<nat>, n: nat)
    requires Distinct(cover)
    ensures |RowsOf(cover, n)| + |ColumnsOf(cover, n)| <= |cover|
  {
    var rows, cols := RowsOf(cover, n), ColumnsOf(cover, n);
    var nodes := ColumnNodes(cols, n);
    forall y | y in nodes ensures exists x :: x in cols && ColumnNode(n, x) == y {
      var x :| x in cols && ColumnNode(n, x) == y;
    }
    BijectionCard(cols, nodes, (j: nat) => ColumnNode(n, j));
    assert rows !! nodes;
    assert |rows + nodes| == |rows| + |nodes|;
    forall x | x in rows + nodes ensures x in Elems(cover) {
      if x in nodes {
        var j :| j in cols && ColumnNode(n, j) == x;
      }
    }
    SubsetCard(rows + nodes, Elems(cover));
    DistinctCard(cover);
  }

  /**
   * Rows outside the cover and columns inside it, counted: n less the covered rows, and
   * the covered columns.
   */
  lemma SplitCounts(rows: seq<nat>, red: seq<nat>, cover: seq<nat>, n: nat)
    requires forall i: nat :: i in rows <==> i < n && i !in RowsOf(cover, n)
    requires forall j: nat :: j in red <==> j < n && j in ColumnsOf(cover, n)
    ensures |RowsOf(rows, n)| == n - |RowsOf(cover, n)|
    ensures |RowsOf(red, n)| == |ColumnsOf(cover, n)|
  {
    var covered := RowsOf(cover, n);
    assert RowsOf(rows, n) == Range(n) - covered;
    assert Range(n) == (Range(n) - covered) + covered;
    assert (Range(n) - covered) !! covered;
    RangeCard(n);
    assert RowsOf(red, n) == ColumnsOf(cover, n);
  }

  /** A whole epsilon of at least 0 times a positive difference is at least 0, and at least one when epsilon is. */
  lemma Gain(e: int, a: int, b: int)
    requires e >= 0 && a > b
    ensures e * a - e * b >= 0
    ensures e >= 1 ==> e * a - e * b >= 1
  {
    assert e * a - e * b == e * (a - b);
    assert e * (a - b) >= 0;
    if e >= 1 {
      assert e * (a - b) >= a - b;
    }
  }

  // ---------------------------------------------------------------------------------
  // A pass raises the dual sum

  /**
   * When the matching of the zeros is not perfect, the moved vectors sum to no less than
   * the vectors of the pass, and with the corrected search to more: epsilon is added at the
   * n - |rows covered| uncovered rows and taken away at the |columns covered| covered
   * columns, and the cover, no larger than the matching, has fewer than n nodes.
   */
  lemma ImproveRaises(c: Matrix, n: nat, u: seq<int>, v: seq<int>, m: set<Edge>, search: Search)
    requires IsSquare(c, n) && n > 0 && DualShape(u, n) && (|v| == 0 || |v| == n)
    requires var reduced := ReducedCosts(c, n, u, v);
      && Balanced(reduced, n) && MaximumMatchingOf(m, EqualityGraph(reduced, n)) && !IsPerfect(m, EqualityGraph(reduced, n))
    ensures var r := Improve(ReducedCosts(c, n, u, v), n, m, DualU(c, n, u), IterationV(c, n, u, v), search);
      && r.Continued? && DualSum(r.state.u, r.state.v) >= DualSum(DualU(c, n, u), IterationV(c, n, u, v))
      && (search == Corrected ==> DualSum(r.state.u, r.state.v) > DualSum(DualU(c, n, u), IterationV(c, n, u, v)))
  {
    var reduced := ReducedCosts(c, n, u, v);
    var split, cover := CoverSplitOf(reduced, n, m, search), HungarianCover(reduced, n, m, search);
    var uu, vv := DualU(c, n, u), IterationV(c, n, u, v);
    BalancedSplit(reduced, n, m, search);
    BalancedEpsilon(reduced, n, m, search);
    var e := Epsilon(reduced, n, split.rows, split.cols).value;
    ImproveMoves(reduced, n, m, uu, vv, e, search);
    HungarianCoverFacts(reduced, n, m, search);
    ImperfectIsSmall(reduced, n, m);
    CoverCount(cover, n);
    SplitCounts(split.rows, split.red, cover, n);
    SumAddAt(uu, split.rows, e);
    SumSubtractAt(vv, split.red, e);
    Gain(e, |RowsOf(split.rows, n)|, |RowsOf(split.red, n)|);
  }

  /**
   * A pass that saves a state saves vectors that sum to no less than the vectors it worked
   * with, and with the corrected search to more.
   */
  lemma PassRaises(c: Matrix, n: nat, u: seq<int>, v: seq<int>, matcher: Graph -> set<Edge>, search: Search)
    requires IsSquare(c, n) && MaximumMatcher(matcher) && DualShape(u, n) && (|v| == 0 || |v| == n)
    requires Balanced(ReducedCosts(c, n, u, v), n)
    ensures var r := Iteration(c, n, u, v, matcher, search);
      r.Continued? ==>
        && n > 0 && DualSum(r.state.u, r.state.v) >= DualSum(DualU(c, n, u), IterationV(c, n, u, v))
        && (search == Corrected ==> DualSum(r.state.u, r.state.v) > DualSum(DualU(c, n, u), IterationV(c, n, u, v)))
  {
    var g := EqualityGraph(ReducedCosts(c, n, u, v), n);
    if !IsPerfect(matcher(g), g) {
      IterationImproves(c, n, u, v, matcher, search);
      ImproveRaises(c, n, u, v, matcher(g), search);
    } else {
      IterationPerfect(c, n, u, v, matcher, search);
    }
  }

  // ---------------------------------------------------------------------------------
  // The loop ends

  /**
   * Dual vectors whose reduced costs are balanced, with more passes left than the gap
   * between the cost of the assignment `other` and the dual sum of their pass.
   */
  ghost predicate Fresh(c: Matrix, n: nat, u: seq<int>, v: seq<int>, other: set<Edge>, fuel: nat) {
    && IsSquare(c, n) && DualShape(u, n) && (|v| == 0 || |v| == n)
    && Balanced(ReducedCosts(c, n, u, v), n) && IsAssignment(other, n)
    && fuel > MatchingCost(c, n, other) - DualSum(DualU(c, n, u), IterationV(c, n, u, v))
  }

  /**
   * From balanced reduced costs, a run allowed more passes than the gap between the cost
   * of an assignment and the dual sum of its first pass ends with a perfect matching.
   */
  lemma RunEnds(c: Matrix, n: nat, u: seq<int>, v: seq<int>, matcher: Graph -> set<Edge>, fuel: nat, other: set<Edge>)
    requires MaximumMatcher(matcher) && Fresh(c, n, u, v, other, fuel)
    ensures Run(c, n, u, v, matcher, Corrected, fuel).0.Optimal?
  {
    FreshKept(c, n, matcher, other);
    RepeatEnds(PassOf(c, n, matcher, Corrected), FreshOf(c, n, other), IsOptimal(), u, v, fuel);
  }

  /** `Fresh` as a property of the dual vectors and the passes left. */
  ghost function FreshOf(c: Matrix, n: nat, other: set<Edge>): (r: (seq<int>, seq<int>, nat) -> bool) {
    (x: seq<int>, y: seq<int>, f: nat) => Fresh(c, n, x, y, other, f)
  }

  /** The verdict of a loop that ends with a perfect matching. */
  function IsOptimal(): (r: Outcome -> bool) {
    (o: Outcome) => o.Optimal?
  }

  /** Every pass from vectors ahead of the gap ends with a perfect matching or leaves vectors ahead of it. */
  lemma FreshKept(c: Matrix, n: nat, matcher: Graph -> set<Edge>, other: set<Edge>)
    requires IsSquare(c, n) && MaximumMatcher(matcher)
    ensures var pass, ahead := PassOf(c, n, matcher, Corrected), FreshOf(c, n, other);
      forall x, y, f: nat :: ahead(x, y, f) ==>
        && f > 0
        && (pass(x, y).Finished? ==> IsOptimal()(pass(x, y).outcome))
        && (pass(x, y).Continued? ==> ahead(pass(x, y).state.u, pass(x, y).state.v, f - 1))
  {
    var pass, ahead := PassOf(c, n, matcher, Corrected), FreshOf(c, n, other);
    forall x, y, f: nat | ahead(x, y, f)
      ensures && f > 0
              && (pass(x, y).Finished? ==> IsOptimal()(pass(x, y).outcome))
              && (pass(x, y).Continued? ==> ahead(pass(x, y).state.u, pass(x, y).state.v, f - 1))
    {
      FreshStep(c, n, x, y, matcher, other, f);
    }
  }

  /** A pass from vectors ahead of the gap: a perfect matching, or vectors still ahead with one pass less. */
  lemma FreshStep(c: Matrix, n: nat, u: seq<int>, v: seq<int>, matcher: Graph -> set<Edge>, other: set<Edge>, fuel: nat)
    requires IsSquare(c, n) && MaximumMatcher(matcher) && FreshOf(c, n, other)(u, v, fuel)
    ensures var pass, ahead := PassOf(c, n, matcher, Corrected), FreshOf(c, n, other);
      && fuel > 0
      && (pass(u, v).Finished? ==> IsOptimal()(pass(u, v).outcome))
      && (pass(u, v).Continued? ==> ahead(pass(u, v).state.u, pass(u, v).state.v, fuel - 1))
  {
    FreshNext(c, n, u, v, matcher, other, fuel);
    assert PassOf(c, n, matcher, Corrected)(u, v) == Iteration(c, n, u, v, matcher, Corrected);
  }

  /** `FreshStep`, of the pass itself. */
  lemma FreshNext(c: Matrix, n: nat, u: seq<int>, v: seq<int>, matcher: Graph -> set<Edge>, other: set<Edge>, fuel: nat)
    requires MaximumMatcher(matcher) && Fresh(c, n, u, v, other, fuel)
    ensures fuel > 0
    ensures var r := Iteration(c, n, u, v, matcher, Corrected);
      && (r.Finished? ==> r.outcome.Optimal?)
      && (r.Continued? ==> Fresh(c, n, r.state.u, r.state.v, other, fuel - 1))
  {
    GapStep(c, n, u, v, matcher, other, fuel);
    var r := Iteration(c, n, u, v, matcher, Corrected);
    if r.Continued? {
      SavedDualsKept(c, n, r.state.u, r.state.v);
    }
  }

  /**
   * A pass from balanced reduced costs, with more passes left than the gap: it ends with
   * a perfect matching, or it saves vectors with balanced reduced costs and a gap smaller
   * than the passes then left.
   */
  lemma GapStep(c: Matrix, n: nat, u: seq<int>, v: seq<int>, matcher: Graph -> set<Edge>, other: set<Edge>, fuel: nat)
    requires IsSquare(c, n) && MaximumMatcher(matcher) && DualShape(u, n) && (|v| == 0 || |v| == n)
    requires Balanced(ReducedCosts(c, n, u, v), n) && IsAssignment(other, n)
    requires fuel > MatchingCost(c, n, other) - DualSum(DualU(c, n, u), IterationV(c, n, u, v))
    ensures fuel > 0
    ensures var r := Iteration(c, n, u, v, matcher, Corrected);
      && (r.Finished? ==> r.outcome.Optimal?)
      && (r.Continued? ==> n > 0 && |r.state.u| == n && |r.state.v| == n && Balanced(ReducedCosts(c, n, r.state.u, r.state.v), n))
      && (r.Continued? ==> fuel - 1 > MatchingCost(c, n, other) - DualSum(r.state.u, r.state.v))
  {
    BelowEveryAssignment(c, n, u, v, other);
    PassStep(c, n, u, v, matcher, Corrected);
    PassRaises(c, n, u, v, matcher, Corrected);
    var r := Iteration(c, n, u, v, matcher, Corrected);
    if r.Continued? {
      SavedDualsKept(c, n, r.state.u, r.state.v);
    }
  }

  /**
   * One pass from balanced reduced costs: it ends with a perfect matching, or it saves
   * vectors with balanced reduced costs whose pass will report a dual sum no smaller, and
   * with the corrected search larger.
   */
  lemma PassStep(c: Matrix, n: nat, u: seq<int>, v: seq<int>, matcher: Graph -> set<Edge>, search: Search)
    requires IsSquare(c, n) && MaximumMatcher(matcher) && DualShape(u, n) && (|v| == 0 || |v| == n)
    requires Balanced(ReducedCosts(c, n, u, v), n)
    ensures var r := Iteration(c, n, u, v, matcher, search);
      && (r.Finished? ==> r.outcome.Optimal?)
      && (r.Continued? ==> DualShape(r.state.u, n) && |r.state.v| == n && Balanced(ReducedCosts(c, n, r.state.u, r.state.v), n))
      && (r.Continued? ==> DualSum(DualU(c, n, r.state.u), IterationV(c, n, r.state.u, r.state.v)) >= DualSum(DualU(c, n, u), IterationV(c, n, u, v)))
      && (r.Continued? && search == Corrected ==>
            DualSum(DualU(c, n, r.state.u), IterationV(c, n, r.state.u, r.state.v)) > DualSum(DualU(c, n, u), IterationV(c, n, u, v)))
  {
    IterationKeepsBalance(c, n, u, v, matcher, search);
    PassRaises(c, n, u, v, matcher, search);
    var r := Iteration(c, n, u, v, matcher, search);
    if r.Continued? {
      SavedDualsKept(c, n, r.state.u, r.state.v);
    }
  }

  /** Row i matched to column i. */
  function DiagonalEdge(n: nat): (r: nat -> Edge) {
    i => (i, n + i)
  }

  /** The assignment of every row to the column of the same index. */
  ghost function Diagonal(n: nat): (r: set<Edge>) {
    Image(Range(n), DiagonalEdge(n))
  }

  /** Every square matrix has an assignment: the diagonal. */
  lemma DiagonalIsAssignment(n: nat)
    ensures IsAssignment(Diagonal(n), n)
  {
    var d := Diagonal(n);
    forall y | y in d ensures exists x :: x in Range(n) && DiagonalEdge(n)(x) == y {
      var x :| x in Range(n) && DiagonalEdge(n)(x) == y;
    }
    BijectionCard(Range(n), d, DiagonalEdge(n));
    RangeCard(n);
    forall e1, e2 | e1 in d && e2 in d && e1 != e2
      ensures e1.0 != e2.0 && e1.0 != e2.1 && e1.1 != e2.0 && e1.1 != e2.1
    {
      var i :| i in Range(n) && DiagonalEdge(n)(i) == e1;
      var j :| j in Range(n) && DiagonalEdge(n)(j) == e2;
    }
    forall e | e in d ensures e.0 < n <= e.1 < 2 * n {
      var i :| i in Range(n) && DiagonalEdge(n)(i) == e;
    }
  }

  /**
   * The driver started as `init(vec![], vec![], c)` and allowed more passes than the
   * diagonal's cost less the dual sum of the row and column minima ends with a perfect
   * matching, which is then an assignment of least cost.
   */
  lemma RunEndsFromMinima(c: Matrix, n: nat, matcher: Graph -> set<Edge>, fuel: nat)
    requires IsSquare(c, n) && MaximumMatcher(matcher)
    requires fuel > MatchingCost(c, n, Diagonal(n)) - DualSum(DualU(c, n, []), IterationV(c, n, [], []))
    ensures Run(c, n, [], [], matcher, Corrected, fuel).0.Optimal?
  {
    FirstReduction(c, n);
    DiagonalIsAssignment(n);
    RunEnds(c, n, [], [], matcher, fuel, Diagonal(n));
  }
}
