/**
 * Why the driver's answer is optimal.  The reduced costs `c - U - V` are never negative
 * (the invariant the state's comment documents, u_i + v_j <= c_ij), so every assignment of
 * rows to columns costs at least the dual sum; a perfect matching of the equality graph
 * costs exactly the dual sum, so it is an assignment of least cost.  Each pass that moves
 * the dual vectors by epsilon keeps the reduced costs non-negative, with a zero in every
 * row and every column.
 */
module Duality {
  import opened Collections
  import opened Graphs
  import opened Bipartite
  import opened Hungarian
  import opened HungarianFixed
  import opened DualMatrices
  import opened EqualityGraphs
  import opened SetSums
  import opened CoverSplits
  import opened Epsilons
  import opened DualUpdates
  import opened AssignmentProblem

  // ---------------------------------------------------------------------------------
  // Assignments and the dual sum

  /**
   * An assignment of the n rows to the n columns: n edges (row i, column node n + j),
   * no two sharing a row or a column.
   */
  ghost predicate IsAssignment(m: set<Edge>, n: nat) {
    && IsMatching(m) && |m| == n
    && (forall e :: e in m ==> e.0 < n <= e.1 < 2 * n)
  }

  /** Entry i of a vector, 0 off its end. */
  function Entry(u: seq<int>, i: int): (r: int) {
    if 0 <= i < |u| then u[i] else 0
  }

  /** The weight `u[i]` of index i. */
  function IndexWeight(u: seq<int>): (r: nat -> int) {
    (i: nat) => Entry(u, i)
  }

  /** The weight u[i] + w[j] of the edge (row i, column node n + j). */
  function EdgeDual(u: seq<int>, w: seq<int>, n: nat): (r: Edge -> int) {
    (e: Edge) => Entry(u, e.0) + Entry(w, e.1 - n)
  }

  /** The weight u[i] of the edge (row i, column node n + j). */
  function RowPart(u: seq<int>): (r: Edge -> int) {
    (e: Edge) => Entry(u, e.0)
  }

  /** The weight w[j] of the edge (row i, column node n + j). */
  function ColumnPart(w: seq<int>, n: nat): (r: Edge -> int) {
    (e: Edge) => Entry(w, e.1 - n)
  }

  /** The row of an edge. */
  function RowOf(): (r: Edge -> nat) {
    (e: Edge) => e.0
  }

  /** The column of an edge (row i, column node n + j): j. */
  function ColumnOf(n: nat): (r: Edge -> nat) {
    (e: Edge) => if e.1 >= n then e.1 - n else 0
  }

  /** 0 .. n-1 has n elements. */
  lemma {:induction false} RangeCard(n: nat)
    ensures |Range(n)| == n
  {
    if n > 0 {
      var smaller := Range(n - 1);
      RangeCard(n - 1);
      assert n - 1 !in smaller;
      assert |smaller + {n - 1}| == |smaller| + 1;
    }
  }

  /** n edges sent one-to-one below n reach every number below n. */
  lemma FullImage(m: set<Edge>, n: nat, p: Edge -> nat)
    requires |m| == n
    requires forall e :: e in m ==> p(e) < n
    requires forall e1, e2 :: e1 in m && e2 in m && p(e1) == p(e2) ==> e1 == e2
    ensures Image(m, p) == Range(n)
  {
    var image := Image(m, p);
    BijectionCard(m, image, p);
    RangeCard(n);
    assert image <= Range(n);
    if image != Range(n) {
      assert exists x :: x in Range(n) && x !in image;
      var x :| x in Range(n) && x !in image;
      SubsetCard(image, Range(n) - {x});
    }
  }

  /** Over an assignment, u[i] at the row of each edge adds up to the sum of u. */
  lemma RowsSum(m: set<Edge>, n: nat, u: seq<int>)
    requires IsAssignment(m, n) && |u| == n
    ensures SetSum(m, RowPart(u)) == Sum(u)
  {
    var p, w := RowOf(), IndexWeight(u);
    forall e1, e2 | e1 in m && e2 in m && p(e1) == p(e2) ensures e1 == e2 {
    }
    FullImage(m, n, p);
    forall e | e in m ensures RowPart(u)(e) == w(p(e)) {
    }
    SetSumImage(m, p, w, RowPart(u));
    SetSumRange(u, w);
  }

  /** Over an assignment, w[j] at the column of each edge adds up to the sum of w. */
  lemma ColumnsSum(m: set<Edge>, n: nat, w: seq<int>)
    requires IsAssignment(m, n) && |w| == n
    ensures SetSum(m, ColumnPart(w, n)) == Sum(w)
  {
    var p, f := ColumnOf(n), IndexWeight(w);
    forall e1, e2 | e1 in m && e2 in m && p(e1) == p(e2) ensures e1 == e2 {
    }
    FullImage(m, n, p);
    forall e | e in m ensures ColumnPart(w, n)(e) == f(p(e)) {
    }
    SetSumImage(m, p, f, ColumnPart(w, n));
    SetSumRange(w, f);
  }

  /** Every row and every column of an assignment is used once: u[i] + w[j] over its edges adds up to the dual sum. */
  lemma AssignmentDualSum(m: set<Edge>, n: nat, u: seq<int>, w: seq<int>)
    requires IsAssignment(m, n) && |u| == n && |w| == n
    ensures SetSum(m, EdgeDual(u, w, n)) == Sum(u) + Sum(w)
  {
    SetSumAdd(m, RowPart(u), ColumnPart(w, n), EdgeDual(u, w, n));
    RowsSum(m, n, u);
    ColumnsSum(m, n, w);
  }

  /** Weak duality: when u_i + w_j <= c_ij everywhere, every assignment costs at least the dual sum. */
  lemma WeakDuality(c: Matrix, n: nat, u: seq<int>, w: seq<int>, m: set<Edge>)
    requires IsSquare(c, n) && |u| == n && |w| == n && IsAssignment(m, n)
    requires forall i, j :: 0 <= i < n && 0 <= j < n ==> u[i] + w[j] <= c[i][j]
    ensures Sum(u) + Sum(w) <= MatchingCost(c, n, m)
  {
    forall e | e in m ensures EdgeDual(u, w, n)(e) <= CostOf(c, n)(e) {
      EdgeDualEntry(c, n, u, w, e);
    }
    SetSumLe(m, EdgeDual(u, w, n), CostOf(c, n));
    AssignmentDualSum(m, n, u, w);
  }

  /** An assignment whose every edge has u_i + w_j == c_ij costs exactly the dual sum. */
  lemma TightCost(c: Matrix, n: nat, u: seq<int>, w: seq<int>, m: set<Edge>)
    requires IsSquare(c, n) && |u| == n && |w| == n && IsAssignment(m, n)
    requires forall e :: e in m ==> u[e.0] + w[e.1 - n] == c[e.0][e.1 - n]
    ensures MatchingCost(c, n, m) == Sum(u) + Sum(w)
  {
    forall e | e in m ensures EdgeDual(u, w, n)(e) == CostOf(c, n)(e) {
      EdgeDualEntry(c, n, u, w, e);
    }
    SetSumSame(m, EdgeDual(u, w, n), CostOf(c, n));
    AssignmentDualSum(m, n, u, w);
  }

  /** On the edge (row i, column node n + j) the dual weight is u_i + w_j and the cost c_ij. */
  lemma EdgeDualEntry(c: Matrix, n: nat, u: seq<int>, w: seq<int>, e: Edge)
    requires IsSquare(c, n) && |u| == n && |w| == n && e.0 < n <= e.1 < 2 * n
    ensures EdgeDual(u, w, n)(e) == u[e.0] + w[e.1 - n] && CostOf(c, n)(e) == c[e.0][e.1 - n]
  {
    LookupCostEntry(c, n, e);
  }

  // ---------------------------------------------------------------------------------
  // The answer of a pass that finds a perfect matching

  /** A perfect matching of the equality graph is an assignment using zero reduced costs only. */
  lemma PerfectIsAssignment(r: Matrix, n: nat, m: set<Edge>)
    requires IsSquare(r, n) && MaximumMatchingOf(m, EqualityGraph(r, n)) && IsPerfect(m, EqualityGraph(r, n))
    ensures IsAssignment(m, n) && forall e :: e in m ==> r[e.0][e.1 - n] == 0
  {
    EqualityGraphEdges(r, n);
    EqualityMatching(r, n, m);
  }

  /** A pass that ends with a perfect matching: the matching and the vectors of the pass. */
  lemma PerfectPass(c: Matrix, n: nat, u: seq<int>, v: seq<int>, matcher: Graph -> set<Edge>, search: Search)
    requires IsSquare(c, n) && MaximumMatcher(matcher)
    requires Iteration(c, n, u, v, matcher, search).Finished? && Iteration(c, n, u, v, matcher, search).outcome.Optimal?
    ensures DualShape(u, n)
    ensures var m := matcher(EqualityGraph(ReducedCosts(c, n, u, v), n));
      && IsAssignment(m, n) && (forall e :: e in m ==> ReducedCosts(c, n, u, v)[e.0][e.1 - n] == 0)
      && Iteration(c, n, u, v, matcher, search).outcome ==
        Optimal(MatchingCost(c, n, m), DualSum(DualU(c, n, u), IterationV(c, n, u, v)))
  {
    var reduced := ReducedCosts(c, n, u, v);
    var g := EqualityGraph(reduced, n);
    EqualityGraphEdges(reduced, n);
    if !IsPerfect(matcher(g), g) {
      IterationImproves(c, n, u, v, matcher, search);
      assert false;
    }
    IterationPerfect(c, n, u, v, matcher, search);
    PerfectIsAssignment(reduced, n, matcher(g));
  }

  /**
   * A pass that ends with a perfect matching reports a cost equal to the dual sum of the
   * u and v it used: the condition under which the matching is optimal.
   */
  lemma IterationTight(c: Matrix, n: nat, u: seq<int>, v: seq<int>, matcher: Graph -> set<Edge>, search: Search)
    requires IsSquare(c, n) && MaximumMatcher(matcher) && (|v| == 0 || |v| == n)
    requires Iteration(c, n, u, v, matcher, search).Finished? && Iteration(c, n, u, v, matcher, search).outcome.Optimal?
    ensures Iteration(c, n, u, v, matcher, search).outcome.cost == Iteration(c, n, u, v, matcher, search).outcome.dualSum
  {
    PerfectPass(c, n, u, v, matcher, search);
    TightPass(c, n, u, v, matcher(EqualityGraph(ReducedCosts(c, n, u, v), n)));
  }

  /** An assignment on zero reduced costs costs the dual sum of the vectors that reduced them. */
  lemma TightPass(c: Matrix, n: nat, u: seq<int>, v: seq<int>, m: set<Edge>)
    requires IsSquare(c, n) && DualShape(u, n) && (|v| == 0 || |v| == n) && IsAssignment(m, n)
    requires forall e :: e in m ==> ReducedCosts(c, n, u, v)[e.0][e.1 - n] == 0
    ensures MatchingCost(c, n, m) == DualSum(DualU(c, n, u), IterationV(c, n, u, v))
  {
    var uu, vv := DualU(c, n, u), IterationV(c, n, u, v);
    ReducedCostEntries(c, n, u, v);
    forall e | e in m ensures uu[e.0] + vv[e.1 - n] == c[e.0][e.1 - n] {
      assert ReducedCosts(c, n, u, v)[e.0][e.1 - n] == 0;
    }
    TightCost(c, n, uu, vv, m);
  }

  /**
   * When the reduced costs of a pass are non-negative, the perfect matching it ends with
   * costs no more than any other assignment of rows to columns.
   */
  lemma IterationOptimal(c: Matrix, n: nat, u: seq<int>, v: seq<int>, matcher: Graph -> set<Edge>, search: Search, other: set<Edge>)
    requires IsSquare(c, n) && MaximumMatcher(matcher) && DualShape(u, n) && (|v| == 0 || |v| == n)
    requires NonNegative(ReducedCosts(c, n, u, v), n)
    requires Iteration(c, n, u, v, matcher, search).Finished? && Iteration(c, n, u, v, matcher, search).outcome.Optimal?
    requires IsAssignment(other, n)
    ensures Iteration(c, n, u, v, matcher, search).outcome.cost <= MatchingCost(c, n, other)
  {
    IterationTight(c, n, u, v, matcher, search);
    PerfectPass(c, n, u, v, matcher, search);
    BelowEveryAssignment(c, n, u, v, other);
  }

  /** Non-negative reduced costs put the dual sum below the cost of every assignment. */
  lemma BelowEveryAssignment(c: Matrix, n: nat, u: seq<int>, v: seq<int>, other: set<Edge>)
    requires IsSquare(c, n) && DualShape(u, n) && (|v| == 0 || |v| == n)
    requires NonNegative(ReducedCosts(c, n, u, v), n) && IsAssignment(other, n)
    ensures DualSum(DualU(c, n, u), IterationV(c, n, u, v)) <= MatchingCost(c, n, other)
  {
    var uu, vv := DualU(c, n, u), IterationV(c, n, u, v);
    ReducedCostEntries(c, n, u, v);
    forall i, j | 0 <= i < n && 0 <= j < n ensures uu[i] + vv[j] <= c[i][j] {
      assert ReducedCosts(c, n, u, v)[i][j] >= 0;
    }
    WeakDuality(c, n, uu, vv, other);
  }

  // ---------------------------------------------------------------------------------
  // The invariant a pass keeps

  /** Reduced costs that are never negative, with a zero in every row and in every column. */
  ghost predicate Balanced(r: Matrix, n: nat)
    requires IsSquare(r, n)
  {
    && NonNegative(r, n)
    && (forall i :: 0 <= i < n ==> RowHasZero(r, n, i))
    && (forall j :: 0 <= j < n ==> ColumnHasZero(r, n, j))
  }

  /**
   * A cover of the zeros, given by its rows and its columns, that is tight: a covered row
   * has a zero in an uncovered column, and a covered column has a zero in an uncovered row.
   */
  ghost predicate TightCover(r: Matrix, n: nat, rows: set<nat>, cols: set<nat>)
    requires IsSquare(r, n)
  {
    && (forall i :: 0 <= i < n && i in rows ==> exists j :: 0 <= j < n && r[i][j] == 0 && j !in cols)
    && (forall j :: 0 <= j < n && j in cols ==> exists i :: 0 <= i < n && r[i][j] == 0 && i !in rows)
  }

  /**
   * A minimum vertex cover of the equality graph, given by its rows and its columns: every
   * zero has its row or its column in the cover, and the cover is tight.
   */
  ghost predicate KonigCover(r: Matrix, n: nat, rows: set<nat>, cols: set<nat>)
    requires IsSquare(r, n)
  {
    && (forall i, j :: 0 <= i < n && 0 <= j < n && r[i][j] == 0 ==> i in rows || j in cols)
    && TightCover(r, n, rows, cols)
  }

  /** The reduced costs once epsilon is taken from the uncovered rows and given to the covered columns. */
  function Moved(r: Matrix, n: nat, rows: set<nat>, cols: set<nat>, e: int): (r': Matrix)
    requires IsSquare(r, n)
    ensures IsSquare(r', n)
  {
    seq(n, i requires 0 <= i < n =>
      seq(n, j requires 0 <= j < n => r[i][j] - (if i in rows then 0 else e) + (if j in cols then e else 0)))
  }

  /**
   * Moving a tight cover by an epsilon that is at least 0 and at most every uncovered
   * reduced cost keeps the reduced costs non-negative, with a zero in every row and every
   * column.  (The cover need not meet every zero: a zero it misses makes epsilon 0.)
   */
  lemma MovedBalanced(r: Matrix, n: nat, rows: set<nat>, cols: set<nat>, e: int)
    requires IsSquare(r, n) && Balanced(r, n) && TightCover(r, n, rows, cols) && 0 <= e
    requires forall i, j :: 0 <= i < n && 0 <= j < n && i !in rows && j !in cols ==> e <= r[i][j]
    ensures Balanced(Moved(r, n, rows, cols, e), n)
  {
    var r' := Moved(r, n, rows, cols, e);
    forall i, j | 0 <= i < n && 0 <= j < n ensures r'[i][j] >= 0 {
      assert r[i][j] >= 0;
    }
    forall i | 0 <= i < n ensures RowHasZero(r', n, i) {
      MovedRowZero(r, n, rows, cols, e, i);
    }
    forall j | 0 <= j < n ensures ColumnHasZero(r', n, j) {
      MovedColumnZero(r, n, rows, cols, e, j);
    }
  }

  /** Row i keeps a zero: at an uncovered column if it is covered, at any of its zeros otherwise. */
  lemma MovedRowZero(r: Matrix, n: nat, rows: set<nat>, cols: set<nat>, e: int, i: nat)
    requires IsSquare(r, n) && Balanced(r, n) && TightCover(r, n, rows, cols) && i < n && 0 <= e
    requires forall i, j :: 0 <= i < n && 0 <= j < n && i !in rows && j !in cols ==> e <= r[i][j]
    ensures RowHasZero(Moved(r, n, rows, cols, e), n, i)
  {
    var r' := Moved(r, n, rows, cols, e);
    if i in rows {
      var j :| 0 <= j < n && r[i][j] == 0 && j !in cols;
      assert r'[i][j] == 0;
    } else {
      assert RowHasZero(r, n, i);
      var j :| 0 <= j < n && r[i][j] == 0;
      assert r'[i][j] == 0;
    }
  }

  /** Column j keeps a zero: at an uncovered row if it is covered, at any of its zeros otherwise. */
  lemma MovedColumnZero(r: Matrix, n: nat, rows: set<nat>, cols: set<nat>, e: int, j: nat)
    requires IsSquare(r, n) && Balanced(r, n) && TightCover(r, n, rows, cols) && j < n && 0 <= e
    requires forall i, j :: 0 <= i < n && 0 <= j < n && i !in rows && j !in cols ==> e <= r[i][j]
    ensures ColumnHasZero(Moved(r, n, rows, cols, e), n, j)
  {
    var r' := Moved(r, n, rows, cols, e);
    if j in cols {
      var i :| 0 <= i < n && r[i][j] == 0 && i !in rows;
      assert r'[i][j] == 0;
    } else {
      assert ColumnHasZero(r, n, j);
      var i :| 0 <= i < n && r[i][j] == 0;
      assert r'[i][j] == 0;
    }
  }

  // ---------------------------------------------------------------------------------
  // The cover the Hungarian search returns on the equality graph

  /**
   * On the equality graph the cover of either search is as large as the search's matching,
   * which is no larger than `m`; every matched edge joins a row to a column at a zero and
   * has exactly one end in the cover, and every cover node is matched.
   */
  lemma HungarianCoverFacts(r: Matrix, n: nat, m: set<Edge>, search: Search)
    requires IsSquare(r, n) && n > 0 && MaximumMatchingOf(m, EqualityGraph(r, n))
    ensures var cover, mm := HungarianCover(r, n, m, search), HungarianRun(r, n, m, search).1;
      && Distinct(cover) && |cover| == |mm| && |mm| <= |m|
      && (forall e :: e in mm ==> e.0 < n <= e.1 < 2 * n && r[e.0][e.1 - n] == 0 && (e.0 in cover) != (e.1 in cover))
      && (forall x :: x in cover ==> x < 2 * n && x in Covered(mm))
  {
    var g := EqualityGraph(r, n);
    EqualityGraphEdges(r, n);
    SearchCoverFacts(r, n, m, search);
    SplitGraphSides(g, n);
    var b := EqualitySides(r, n);
    var cover, mm := HungarianCover(r, n, m, search), HungarianRun(r, n, m, search).1;
    forall e | e in mm
      ensures e.0 < n <= e.1 < 2 * n && r[e.0][e.1 - n] == 0
    {
      assert IsEdge(g, e.0, n + (e.1 - n));
    }
    forall x | x in cover ensures x < 2 * n {
      assert x in b.nodesU || x in b.nodesV;
    }
  }

  /** The corrected search's cover holds the row or the column node of every zero reduced cost. */
  lemma HungarianCoverMeetsZeros(r: Matrix, n: nat, m: set<Edge>)
    requires IsSquare(r, n) && n > 0 && MaximumMatchingOf(m, EqualityGraph(r, n))
    ensures var cover := HungarianCover(r, n, m, Corrected);
      forall i, j :: 0 <= i < n && 0 <= j < n && r[i][j] == 0 ==> i in cover || n + j in cover
  {
    var g := EqualityGraph(r, n);
    EqualityGraphEdges(r, n);
    EqualityMatching(r, n, m);
    BipartiteSplitIsDisjoint(g);
    SplitGraphSides(g, n);
    var b := BipartiteUndirected(g).value;
    FixedHungarianIsMaximum(g, b.nodesU, b.nodesV, m);
    var cover := HungarianCover(r, n, m, Corrected);
    assert IsVertexCover(Elems(cover), g);
    forall i, j | 0 <= i < n && 0 <= j < n && r[i][j] == 0 ensures i in cover || n + j in cover {
      assert IsEdge(g, i, n + j);
      assert i in Elems(cover) || n + j in Elems(cover);
    }
  }

  /**
   * What the answer of either Hungarian search gives the driver: every node of the cover
   * matched, the cover as large as the matching, and every matched edge a zero with
   * exactly one end in the cover.
   */
  ghost predicate MatchedCover(r: Matrix, n: nat, cover: seq<nat>, mm: set<Edge>)
    requires IsSquare(r, n)
  {
    && (forall e :: e in mm ==> e.0 < n <= e.1 < 2 * n && r[e.0][e.1 - n] == 0 && (e.0 in cover) != (e.1 in cover))
    && (forall x :: x in cover ==> x < 2 * n && x in Covered(mm))
    && Distinct(cover) && |cover| == |mm|
  }

  /** A matched cover that also holds the row or the column node of every zero. */
  ghost predicate ZeroCover(r: Matrix, n: nat, cover: seq<nat>, mm: set<Edge>)
    requires IsSquare(r, n)
  {
    && (forall i, j :: 0 <= i < n && 0 <= j < n && r[i][j] == 0 ==> i in cover || n + j in cover)
    && MatchedCover(r, n, cover, mm)
  }

  /** The corrected search's cover and matching on the equality graph form a zero cover, and that matching is no larger than `m`. */
  lemma HungarianZeroCover(r: Matrix, n: nat, m: set<Edge>)
    requires IsSquare(r, n) && n > 0 && MaximumMatchingOf(m, EqualityGraph(r, n))
    ensures ZeroCover(r, n, HungarianCover(r, n, m, Corrected), HungarianRun(r, n, m, Corrected).1)
    ensures |HungarianRun(r, n, m, Corrected).1| <= |m|
  {
    HungarianCoverFacts(r, n, m, Corrected);
    HungarianCoverMeetsZeros(r, n, m);
  }

  /** Column node n + j. */
  function ColumnNode(n: nat, j: nat): (r: nat) {
    n + j
  }

  /** The rows i whose node i the cover holds. */
  function RowsOf(cover: seq<nat>, n: nat): (r: set<nat>) {
    set i: nat | i < n && i in cover
  }

  /** The columns j whose node n + j the cover holds. */
  function ColumnsOf(cover: seq<nat>, n: nat): (r: set<nat>) {
    set j: nat | j < n && ColumnNode(n, j) in cover
  }

  /** A matched cover, read as rows and columns, is tight. */
  lemma MatchedCoverIsTight(r: Matrix, n: nat, cover: seq<nat>, mm: set<Edge>)
    requires IsSquare(r, n) && MatchedCover(r, n, cover, mm)
    ensures TightCover(r, n, RowsOf(cover, n), ColumnsOf(cover, n))
  {
    var rows, cols := RowsOf(cover, n), ColumnsOf(cover, n);
    forall i | 0 <= i < n && i in rows ensures exists j :: 0 <= j < n && r[i][j] == 0 && j !in cols {
      CoveredRowFree(r, n, cover, mm, i);
    }
    forall j | 0 <= j < n && j in cols ensures exists i :: 0 <= i < n && r[i][j] == 0 && i !in rows {
      CoveredColumnFree(r, n, cover, mm, j);
    }
  }

  /** A zero cover, read as rows and columns, is a minimum cover of the zero reduced costs. */
  lemma ZeroCoverIsKonig(r: Matrix, n: nat, cover: seq<nat>, mm: set<Edge>)
    requires IsSquare(r, n) && ZeroCover(r, n, cover, mm)
    ensures KonigCover(r, n, RowsOf(cover, n), ColumnsOf(cover, n))
  {
    var rows, cols := RowsOf(cover, n), ColumnsOf(cover, n);
    forall i, j | 0 <= i < n && 0 <= j < n && r[i][j] == 0 ensures i in rows || j in cols {
      assert i in cover || ColumnNode(n, j) in cover;
    }
    MatchedCoverIsTight(r, n, cover, mm);
  }

  /** A covered row holds a zero whose column the cover leaves out: its matched edge's. */
  lemma CoveredRowFree(r: Matrix, n: nat, cover: seq<nat>, mm: set<Edge>, i: nat)
    requires IsSquare(r, n) && MatchedCover(r, n, cover, mm) && i < n && i in cover
    ensures exists j :: 0 <= j < n && r[i][j] == 0 && j !in ColumnsOf(cover, n)
  {
    var e := MatchedEdge(r, n, cover, mm, i);
    var j := e.1 - n;
    assert ColumnNode(n, j) == e.1;
    assert r[i][j] == 0 && j !in ColumnsOf(cover, n);
  }

  /** A covered column holds a zero whose row the cover leaves out: its matched edge's. */
  lemma CoveredColumnFree(r: Matrix, n: nat, cover: seq<nat>, mm: set<Edge>, j: nat)
    requires IsSquare(r, n) && MatchedCover(r, n, cover, mm) && j < n && ColumnNode(n, j) in cover
    ensures exists i :: 0 <= i < n && r[i][j] == 0 && i !in RowsOf(cover, n)
  {
    var e := MatchedEdge(r, n, cover, mm, n + j);
    assert r[e.0][j] == 0 && e.0 !in RowsOf(cover, n);
  }

  /** A node of the cover lies on an edge of the matching, a zero with exactly one end in the cover. */
  lemma MatchedEdge(r: Matrix, n: nat, cover: seq<nat>, mm: set<Edge>, x: nat) returns (e: Edge)
    requires IsSquare(r, n) && MatchedCover(r, n, cover, mm) && x in cover
    ensures e in mm && (e.0 == x || e.1 == x)
    ensures e.0 < n <= e.1 < 2 * n && r[e.0][e.1 - n] == 0 && (e.0 in cover) != (e.1 in cover)
  {
    assert x in Covered(mm);
    e :| e in mm && (e.0 == x || e.1 == x);
  }

  /** A cover smaller than n leaves out some row and some column. */
  lemma SmallCoverLeavesSome(cover: seq<nat>, n: nat)
    requires Distinct(cover) && |cover| < n
    ensures exists i :: 0 <= i < n && i !in RowsOf(cover, n)
    ensures exists j :: 0 <= j < n && j !in ColumnsOf(cover, n)
  {
    SmallCoverLeavesRow(cover, n);
    SmallCoverLeavesColumn(cover, n);
  }

  /** A cover smaller than n leaves out some row. */
  lemma SmallCoverLeavesRow(cover: seq<nat>, n: nat)
    requires Distinct(cover) && |cover| < n
    ensures exists i :: 0 <= i < n && i !in RowsOf(cover, n)
  {
    DistinctCard(cover);
    RangeCard(n);
    if forall i :: 0 <= i < n ==> i in RowsOf(cover, n) {
      forall x | x in Range(n) ensures x in Elems(cover) {
        assert x in RowsOf(cover, n);
      }
      SubsetCard(Range(n), Elems(cover));
    }
  }

  /** A cover smaller than n leaves out some column. */
  lemma SmallCoverLeavesColumn(cover: seq<nat>, n: nat)
    requires Distinct(cover) && |cover| < n
    ensures exists j :: 0 <= j < n && j !in ColumnsOf(cover, n)
  {
    if forall j :: 0 <= j < n ==> j in ColumnsOf(cover, n) {
      var f := ColumnNodeOf(n);
      forall x | x in Range(n) ensures f(x) in Elems(cover) {
        assert x in ColumnsOf(cover, n);
      }
      assert forall x, y :: x in Range(n) && y in Range(n) && f(x) == f(y) ==> x == y;
      InjectionCard(Range(n), Elems(cover), f);
      DistinctCard(cover);
      RangeCard(n);
      assert false;
    }
  }

  /** Column j to its node n + j. */
  function ColumnNodeOf(n: nat): (r: nat -> nat) {
    (j: nat) => ColumnNode(n, j)
  }

  /** A matching of the equality graph that is not perfect has fewer than n edges. */
  lemma ImperfectIsSmall(r: Matrix, n: nat, m: set<Edge>)
    requires IsSquare(r, n) && MaximumMatchingOf(m, EqualityGraph(r, n)) && !IsPerfect(m, EqualityGraph(r, n))
    ensures |m| < n
  {
    EqualityGraphEdges(r, n);
    EqualityMatching(r, n, m);
    InjectionCard(m, Range(n), RowOf());
    RangeCard(n);
  }

  /** With a zero in every row and every column, every row node and every column node has an edge. */
  lemma BalancedSides(r: Matrix, n: nat)
    requires IsSquare(r, n) && Balanced(r, n)
    ensures forall x: nat :: x in EqualitySides(r, n).nodesU <==> x < n
    ensures forall x: nat :: x in EqualitySides(r, n).nodesV <==> n <= x < 2 * n
  {
    var g := EqualityGraph(r, n);
    EqualityGraphEdges(r, n);
    SplitGraphSides(g, n);
    forall x: nat | x < 2 * n ensures |g.adj[x]| > 0 {
      NodeHasEdge(r, n, x);
    }
  }

  /** With a zero in every row and every column, node x of the equality graph has a neighbour. */
  lemma NodeHasEdge(r: Matrix, n: nat, x: nat)
    requires IsSquare(r, n) && Balanced(r, n) && x < 2 * n
    ensures |EqualityGraph(r, n).adj[x]| > 0
  {
    if x < n {
      assert RowHasZero(r, n, x);
      var j :| 0 <= j < n && r[x][j] == 0;
      EqualityNeighbours(r, n, x, n + j);
    } else {
      assert ColumnHasZero(r, n, x - n);
      var i :| 0 <= i < n && r[i][x - n] == 0;
      EqualityNeighbours(r, n, x, i);
    }
  }

  /**
   * With a zero in every row and every column, the driver's split of the cover names as
   * uncovered rows and columns exactly those the cover leaves out, and as red columns
   * exactly the covered ones.
   */
  lemma BalancedSplit(r: Matrix, n: nat, m: set<Edge>, search: Search)
    requires IsSquare(r, n) && n > 0 && MaximumMatchingOf(m, EqualityGraph(r, n)) && Balanced(r, n)
    ensures var split, cover := CoverSplitOf(r, n, m, search), HungarianCover(r, n, m, search);
      && (forall i: nat :: i in split.rows <==> i < n && i !in RowsOf(cover, n))
      && (forall j: nat :: j in split.cols <==> j < n && j !in ColumnsOf(cover, n))
      && (forall j: nat :: j in split.red <==> j < n && j in ColumnsOf(cover, n))
  {
    BalancedSides(r, n);
    SplitPreconditions(r, n, m, search);
    HungarianCoverFacts(r, n, m, search);
    var b, cover := EqualitySides(r, n), HungarianCover(r, n, m, search);
    assert CoverSplitOf(r, n, m, search) == SplitCover(b.nodesU, b.nodesV, cover, n);
    SplitMembers(b, cover, n);
  }

  /**
   * When the rows are exactly the nodes below n and the columns the nodes n .. 2n-1, and
   * the cover holds nodes below 2n, the split's rows, columns and red columns are the
   * rows and columns outside and inside the cover.
   */
  lemma SplitMembers(b: BipartiteGraph, cover: seq<nat>, n: nat)
    requires (forall x: nat :: x in b.nodesU <==> x < n) && (forall x: nat :: x in b.nodesV <==> n <= x < 2 * n)
    requires forall x :: x in cover ==> x < 2 * n
    requires AtLeast(b.nodesV, n) && forall k :: 0 <= k < |cover| ==> cover[k] in b.nodesU || cover[k] >= n
    ensures var split := SplitCover(b.nodesU, b.nodesV, cover, n);
      && (forall i: nat :: i in split.rows <==> i < n && i !in RowsOf(cover, n))
      && (forall j: nat :: j in split.cols <==> j < n && j !in ColumnsOf(cover, n))
      && (forall j: nat :: j in split.red <==> j < n && j in ColumnsOf(cover, n))
  {
    var split := SplitCover(b.nodesU, b.nodesV, cover, n);
    SplitCoverRows(b.nodesU, b.nodesV, cover, n);
    SplitCoverColumns(b.nodesU, b.nodesV, cover, n);
    SplitCoverRed(b.nodesU, b.nodesV, cover, n);
    forall j: nat ensures j in split.cols <==> j < n && j !in ColumnsOf(cover, n) {
      assert ColumnNode(n, j) == n + j;
      assert n + j !in b.nodesU;
    }
    forall j: nat ensures j in split.red <==> j < n && j in ColumnsOf(cover, n) {
      assert ColumnNode(n, j) == n + j;
      assert n + j !in b.nodesU;
    }
  }

  /**
   * Epsilon over the uncovered rows and columns of non-negative reduced costs, when the
   * cover leaves out a row and a column, exists: it is one of the uncovered reduced costs,
   * at least 0, and at most every uncovered reduced cost.
   */
  lemma UncoveredMinimum(r: Matrix, n: nat, rows: seq<nat>, cols: seq<nat>, coveredRows: set<nat>, coveredCols: set<nat>)
    requires IsSquare(r, n) && n > 0 && NonNegative(r, n)
    requires forall i: nat :: i in rows <==> i < n && i !in coveredRows
    requires forall j: nat :: j in cols <==> j < n && j !in coveredCols
    requires (exists i :: 0 <= i < n && i !in coveredRows) && (exists j :: 0 <= j < n && j !in coveredCols)
    ensures var e := Epsilon(r, n, rows, cols);
      && e.Some? && 0 <= e.value
      && (exists i, j :: 0 <= i < n && 0 <= j < n && i !in coveredRows && j !in coveredCols && e.value == r[i][j])
      && forall i, j :: 0 <= i < n && 0 <= j < n && i !in coveredRows && j !in coveredCols ==> e.value <= r[i][j]
  {
    forall a | 0 <= a < |rows| ensures rows[a] < n {
      assert rows[a] in rows;
    }
    forall k | 0 <= k < |cols| ensures cols[k] < n {
      assert cols[k] in cols;
    }
    var i0 :| 0 <= i0 < n && i0 !in coveredRows;
    var j0 :| 0 <= j0 < n && j0 !in coveredCols;
    assert i0 in rows && j0 in cols;
    EpsilonExists(r, n, rows, cols);
    EpsilonIsMinimum(r, n, rows, cols);
    var e := Epsilon(r, n, rows, cols).value;
    var a, k :| 0 <= a < |rows| && 0 <= k < |cols| && e == r[rows[a]][cols[k]];
    assert rows[a] in rows && cols[k] in cols;
    forall i, j | 0 <= i < n && 0 <= j < n && i !in coveredRows && j !in coveredCols ensures e <= r[i][j] {
      assert i in rows && j in cols;
      var a' :| 0 <= a' < |rows| && rows[a'] == i;
      var k' :| 0 <= k' < |cols| && cols[k'] == j;
    }
  }

  /**
   * On reduced costs with a zero in every row and every column and no perfect matching of
   * zeros, the driver's epsilon exists and is the least uncovered reduced cost, at least 0;
   * with the corrected search, whose cover meets every zero, it is positive.
   */
  lemma BalancedEpsilon(r: Matrix, n: nat, m: set<Edge>, search: Search)
    requires IsSquare(r, n) && n > 0 && MaximumMatchingOf(m, EqualityGraph(r, n)) && Balanced(r, n)
    requires !IsPerfect(m, EqualityGraph(r, n))
    ensures var split, cover := CoverSplitOf(r, n, m, search), HungarianCover(r, n, m, search);
      var e := Epsilon(r, n, split.rows, split.cols);
      && e.Some? && 0 <= e.value && (search == Corrected ==> 0 < e.value)
      && forall i, j :: 0 <= i < n && 0 <= j < n && i !in RowsOf(cover, n) && j !in ColumnsOf(cover, n) ==> e.value <= r[i][j]
  {
    var split, cover := CoverSplitOf(r, n, m, search), HungarianCover(r, n, m, search);
    var rows, cols := RowsOf(cover, n), ColumnsOf(cover, n);
    BalancedSplit(r, n, m, search);
    HungarianCoverFacts(r, n, m, search);
    ImperfectIsSmall(r, n, m);
    SmallCoverLeavesSome(cover, n);
    UncoveredMinimum(r, n, split.rows, split.cols, rows, cols);
    if search == Corrected {
      var e := Epsilon(r, n, split.rows, split.cols).value;
      var i, j :| 0 <= i < n && 0 <= j < n && i !in rows && j !in cols && e == r[i][j];
      HungarianZeroCover(r, n, m);
      ZeroCoverIsKonig(r, n, cover, HungarianRun(r, n, m, search).1);
    }
  }

  /** Matrices with the same entries are balanced together. */
  lemma BalancedSame(a: Matrix, b: Matrix, n: nat)
    requires IsSquare(a, n) && IsSquare(b, n) && Balanced(a, n)
    requires forall i, j :: 0 <= i < n && 0 <= j < n ==> a[i][j] == b[i][j]
    ensures Balanced(b, n)
  {
    forall i | 0 <= i < n ensures RowHasZero(b, n, i) {
      assert RowHasZero(a, n, i);
    }
    forall j | 0 <= j < n ensures ColumnHasZero(b, n, j) {
      assert ColumnHasZero(a, n, j);
    }
  }

  /**
   * The dual vectors moved by epsilon, u up at the uncovered rows and v down at the
   * covered columns, reduce the costs to the moved reduced costs.
   */
  lemma MovedDuals(c: Matrix, n: nat, u: seq<int>, v: seq<int>, rows: seq<nat>, red: seq<nat>,
                   coveredRows: set<nat>, coveredCols: set<nat>, e: int)
    requires IsSquare(c, n) && n > 0 && DualShape(u, n) && (|v| == 0 || |v| == n)
    requires forall i: nat :: i in rows <==> i < n && i !in coveredRows
    requires forall j: nat :: j in red <==> j < n && j in coveredCols
    ensures var u', v' := AddAt(DualU(c, n, u), rows, e), SubtractAt(IterationV(c, n, u, v), red, e);
      forall i, j :: 0 <= i < n && 0 <= j < n ==>
        ReducedCosts(c, n, u', v')[i][j] == Moved(ReducedCosts(c, n, u, v), n, coveredRows, coveredCols, e)[i][j]
  {
    var u', v' := AddAt(DualU(c, n, u), rows, e), SubtractAt(IterationV(c, n, u, v), red, e);
    forall i, j | 0 <= i < n && 0 <= j < n
      ensures ReducedCosts(c, n, u', v')[i][j] == Moved(ReducedCosts(c, n, u, v), n, coveredRows, coveredCols, e)[i][j]
    {
      MovedEntry(c, n, u, v, rows, red, coveredRows, coveredCols, e, i, j);
    }
  }

  /** `MovedDuals` at row i, column j. */
  lemma MovedEntry(c: Matrix, n: nat, u: seq<int>, v: seq<int>, rows: seq<nat>, red: seq<nat>,
                   coveredRows: set<nat>, coveredCols: set<nat>, e: int, i: nat, j: nat)
    requires IsSquare(c, n) && n > 0 && DualShape(u, n) && (|v| == 0 || |v| == n) && i < n && j < n
    requires forall x: nat :: x in rows <==> x < n && x !in coveredRows
    requires forall y: nat :: y in red <==> y < n && y in coveredCols
    ensures var u', v' := AddAt(DualU(c, n, u), rows, e), SubtractAt(IterationV(c, n, u, v), red, e);
      ReducedCosts(c, n, u', v')[i][j] == Moved(ReducedCosts(c, n, u, v), n, coveredRows, coveredCols, e)[i][j]
  {
    var u', v' := AddAt(DualU(c, n, u), rows, e), SubtractAt(IterationV(c, n, u, v), red, e);
    ReducedCostAt(c, n, u, v, i, j);
    SavedDualsKept(c, n, u', v');
    ReducedCostAt(c, n, u', v', i, j);
    MovedVectorsAt(DualU(c, n, u), IterationV(c, n, u, v), rows, red, coveredRows, coveredCols, e, i, j);
    MovedAt(ReducedCosts(c, n, u, v), n, coveredRows, coveredCols, e, i, j);
  }

  /** The moved vectors at row i and column j. */
  lemma MovedVectorsAt(u: seq<int>, v: seq<int>, rows: seq<nat>, red: seq<nat>,
                       coveredRows: set<nat>, coveredCols: set<nat>, e: int, i: nat, j: nat)
    requires i < |u| && j < |v|
    requires forall x: nat :: x in rows <==> x < |u| && x !in coveredRows
    requires forall y: nat :: y in red <==> y < |v| && y in coveredCols
    ensures AddAt(u, rows, e)[i] == u[i] + (if i in coveredRows then 0 else e)
    ensures SubtractAt(v, red, e)[j] == v[j] - (if j in coveredCols then e else 0)
  {
  }

  /** The moved reduced costs at row i, column j. */
  lemma MovedAt(r: Matrix, n: nat, rows: set<nat>, cols: set<nat>, e: int, i: nat, j: nat)
    requires IsSquare(r, n) && i < n && j < n
    ensures Moved(r, n, rows, cols, e)[i][j] == r[i][j] - (if i in rows then 0 else e) + (if j in cols then e else 0)
  {
  }

  /** The reduced cost in row i, column j: the cost less the row's u and the column's v. */
  lemma ReducedCostAt(c: Matrix, n: nat, u: seq<int>, v: seq<int>, i: nat, j: nat)
    requires IsSquare(c, n) && DualShape(u, n) && (|v| == 0 || |v| == n) && i < n && j < n
    ensures ReducedCosts(c, n, u, v)[i][j] == c[i][j] - DualU(c, n, u)[i] - IterationV(c, n, u, v)[j]
  {
    ReducedCostEntries(c, n, u, v);
  }

  /** Saved vectors of n entries are the vectors the next pass works with, unchanged. */
  lemma SavedDualsKept(c: Matrix, n: nat, u: seq<int>, v: seq<int>)
    requires IsSquare(c, n) && n > 0 && |u| == n && |v| == n
    ensures DualU(c, n, u) == u && IterationV(c, n, u, v) == v
  {
    assert u[..n] == u;
    IterationVIsDualV(c, n, u, v);
  }

  /**
   * The invariant of the loop: from reduced costs that are non-negative with a zero in
   * every row and every column, a pass either ends with a perfect matching or saves dual
   * vectors of n entries whose reduced costs are again non-negative with a zero in every
   * row and every column.  In particular it never fails for want of an epsilon.
   */
  lemma IterationKeepsBalance(c: Matrix, n: nat, u: seq<int>, v: seq<int>, matcher: Graph -> set<Edge>, search: Search)
    requires IsSquare(c, n) && MaximumMatcher(matcher) && DualShape(u, n) && (|v| == 0 || |v| == n)
    requires Balanced(ReducedCosts(c, n, u, v), n)
    ensures var r := Iteration(c, n, u, v, matcher, search);
      && (r.Finished? ==> r.outcome.Optimal?)
      && (r.Continued? ==> |r.state.u| == n && |r.state.v| == n && Balanced(ReducedCosts(c, n, r.state.u, r.state.v), n))
  {
    var reduced := ReducedCosts(c, n, u, v);
    var g := EqualityGraph(reduced, n);
    EqualityGraphEdges(reduced, n);
    var m := matcher(g);
    if IsPerfect(m, g) {
      IterationPerfect(c, n, u, v, matcher, search);
    } else {
      IterationImproves(c, n, u, v, matcher, search);
      ImproveKeepsBalance(c, n, u, v, m, search);
    }
  }

  /** The second half of a pass, once the matching `m` of the zeros is not perfect. */
  lemma ImproveKeepsBalance(c: Matrix, n: nat, u: seq<int>, v: seq<int>, m: set<Edge>, search: Search)
    requires IsSquare(c, n) && n > 0 && DualShape(u, n) && (|v| == 0 || |v| == n)
    requires var reduced := ReducedCosts(c, n, u, v);
      && Balanced(reduced, n) && MaximumMatchingOf(m, EqualityGraph(reduced, n)) && !IsPerfect(m, EqualityGraph(reduced, n))
    ensures var r := Improve(ReducedCosts(c, n, u, v), n, m, DualU(c, n, u), IterationV(c, n, u, v), search);
      && r.Continued? && |r.state.u| == n && |r.state.v| == n
      && Balanced(ReducedCosts(c, n, r.state.u, r.state.v), n)
  {
    var reduced := ReducedCosts(c, n, u, v);
    var split, cover := CoverSplitOf(reduced, n, m, search), HungarianCover(reduced, n, m, search);
    var coveredRows, coveredCols := RowsOf(cover, n), ColumnsOf(cover, n);
    BalancedSplit(reduced, n, m, search);
    BalancedEpsilon(reduced, n, m, search);
    var e := Epsilon(reduced, n, split.rows, split.cols).value;
    ImproveMoves(reduced, n, m, DualU(c, n, u), IterationV(c, n, u, v), e, search);
    HungarianCoverFacts(reduced, n, m, search);
    MatchedCoverIsTight(reduced, n, cover, HungarianRun(reduced, n, m, search).1);
    MovedBalanced(reduced, n, coveredRows, coveredCols, e);
    MovedDuals(c, n, u, v, split.rows, split.red, coveredRows, coveredCols, e);
    var u', v' := AddAt(DualU(c, n, u), split.rows, e), SubtractAt(IterationV(c, n, u, v), split.red, e);
    BalancedSame(Moved(reduced, n, coveredRows, coveredCols, e), ReducedCosts(c, n, u', v'), n);
  }

  // ---------------------------------------------------------------------------------
  // The whole loop

  /**
   * From dual vectors whose reduced costs are non-negative with a zero in every row and
   * every column, the loop never fails: it runs out of passes or ends with a perfect
   * matching whose cost equals the dual sum and is the least cost of any assignment.
   */
  lemma RunOptimal(c: Matrix, n: nat, u: seq<int>, v: seq<int>, matcher: Graph -> set<Edge>, search: Search, fuel: nat)
    requires IsSquare(c, n) && MaximumMatcher(matcher) && DualShape(u, n) && (|v| == 0 || |v| == n)
    requires Balanced(ReducedCosts(c, n, u, v), n)
    ensures var o := Run(c, n, u, v, matcher, search, fuel).0;
      && (o.Optimal? || o.OutOfFuel?)
      && (o.Optimal? ==> o.cost == o.dualSum && forall other :: IsAssignment(other, n) ==> o.cost <= MatchingCost(c, n, other))
  {
    BalancedKept(c, n, matcher, search);
    RepeatKeeps(PassOf(c, n, matcher, search), BalancedOf(c, n), LeastCost(c, n), u, v, fuel);
  }

  /** Dual vectors whose reduced costs are balanced, as a property of the vectors. */
  ghost function BalancedOf(c: Matrix, n: nat): (r: (seq<int>, seq<int>) -> bool) {
    (x: seq<int>, y: seq<int>) =>
      IsSquare(c, n) && DualShape(x, n) && (|y| == 0 || |y| == n) && Balanced(ReducedCosts(c, n, x, y), n)
  }

  /** The verdict of a loop that ends with a perfect matching of least cost, equal to the dual sum. */
  ghost function LeastCost(c: Matrix, n: nat): (r: Outcome -> bool) {
    (o: Outcome) =>
      IsSquare(c, n) && o.Optimal? && o.cost == o.dualSum
      && forall other :: IsAssignment(other, n) ==> o.cost <= MatchingCost(c, n, other)
  }

  /** Every pass from balanced reduced costs finds a least-cost assignment or keeps them balanced. */
  lemma BalancedKept(c: Matrix, n: nat, matcher: Graph -> set<Edge>, search: Search)
    requires IsSquare(c, n) && MaximumMatcher(matcher)
    ensures var pass, good := PassOf(c, n, matcher, search), BalancedOf(c, n);
      forall x, y :: good(x, y) ==>
        && (pass(x, y).Finished? ==> LeastCost(c, n)(pass(x, y).outcome))
        && (pass(x, y).Continued? ==> good(pass(x, y).state.u, pass(x, y).state.v))
  {
    var pass, good := PassOf(c, n, matcher, search), BalancedOf(c, n);
    forall x, y | good(x, y)
      ensures && (pass(x, y).Finished? ==> LeastCost(c, n)(pass(x, y).outcome))
              && (pass(x, y).Continued? ==> good(pass(x, y).state.u, pass(x, y).state.v))
    {
      BalancedStep(c, n, x, y, matcher, search);
    }
  }

  /** `PassVerdict`, of the pass as a function of the dual vectors. */
  lemma BalancedStep(c: Matrix, n: nat, u: seq<int>, v: seq<int>, matcher: Graph -> set<Edge>, search: Search)
    requires IsSquare(c, n) && MaximumMatcher(matcher) && BalancedOf(c, n)(u, v)
    ensures var pass, good := PassOf(c, n, matcher, search), BalancedOf(c, n);
      && (pass(u, v).Finished? ==> LeastCost(c, n)(pass(u, v).outcome))
      && (pass(u, v).Continued? ==> good(pass(u, v).state.u, pass(u, v).state.v))
  {
    PassVerdict(c, n, u, v, matcher, search);
    assert PassOf(c, n, matcher, search)(u, v) == Iteration(c, n, u, v, matcher, search);
  }

  /** One pass from balanced reduced costs: a least-cost assignment, or balanced reduced costs again. */
  lemma PassVerdict(c: Matrix, n: nat, u: seq<int>, v: seq<int>, matcher: Graph -> set<Edge>, search: Search)
    requires IsSquare(c, n) && MaximumMatcher(matcher) && DualShape(u, n) && (|v| == 0 || |v| == n)
    requires Balanced(ReducedCosts(c, n, u, v), n)
    ensures var r := Iteration(c, n, u, v, matcher, search);
      && (r.Finished? ==> r.outcome.Optimal? && r.outcome.cost == r.outcome.dualSum)
      && (r.Finished? ==> forall other :: IsAssignment(other, n) ==> r.outcome.cost <= MatchingCost(c, n, other))
      && (r.Continued? ==> DualShape(r.state.u, n) && |r.state.v| == n && Balanced(ReducedCosts(c, n, r.state.u, r.state.v), n))
  {
    IterationKeepsBalance(c, n, u, v, matcher, search);
    var r := Iteration(c, n, u, v, matcher, search);
    if r.Finished? {
      IterationTight(c, n, u, v, matcher, search);
      forall other | IsAssignment(other, n) ensures r.outcome.cost <= MatchingCost(c, n, other) {
        IterationOptimal(c, n, u, v, matcher, search, other);
      }
    }
  }

  /**
   * The driver started as `init(vec![], vec![], c)` sets it up: the loop never fails, and
   * when it ends with a perfect matching, that matching is an assignment of least cost,
   * its cost equal to the dual sum.
   */
  lemma RunFromMinima(c: Matrix, n: nat, matcher: Graph -> set<Edge>, search: Search, fuel: nat)
    requires IsSquare(c, n) && MaximumMatcher(matcher)
    ensures var o := Run(c, n, [], [], matcher, search, fuel).0;
      && (o.Optimal? || o.OutOfFuel?)
      && (o.Optimal? ==> o.cost == o.dualSum && forall other :: IsAssignment(other, n) ==> o.cost <= MatchingCost(c, n, other))
  {
    FirstReduction(c, n);
    RunOptimal(c, n, [], [], matcher, search, fuel);
  }
}
