/**
 * The loop of `find_optimum_cost` with the search as written, on a 5 x 5 cost matrix
 * where the search's cover leaves a zero uncovered: epsilon is that zero, the dual
 * vectors do not move, and every pass saves the same state, so the loop never returns.
 *
 * The costs have a zero in every row and every column, so the first pass reduces by zero
 * vectors and works on the costs themselves.  Rows are nodes 0..4 and columns nodes 5..9;
 * the zeros are the edges 0-5, 1-6, 2-5, 2-6, 3-5, 4-7, 4-8, 4-9, and the matcher hands
 * the search the maximum matching {(0,5), (1,6), (4,9)}.
 */
module StalledLoop {
  import opened Collections
  import opened Graphs
  import opened Bipartite
  import opened Hungarian
  import opened HungarianFixtures
  import opened DualMatrices
  import opened EqualityGraphs
  import opened CoverSplits
  import opened Epsilons
  import opened DualUpdates
  import opened AssignmentProblem
  import opened Duality

  const StallCosts: Matrix := [[0, 1, 1, 1, 1], [1, 0, 1, 1, 1], [0, 0, 1, 1, 1], [0, 1, 1, 1, 1], [1, 1, 0, 0, 0]]
  const Zeros: seq<int> := [0, 0, 0, 0, 0]

  function StallGraph(): (r: Graph) {
    Graph([[5], [6], [5, 6], [5], [7, 8, 9], [0, 2, 3], [1, 2], [4], [4], [4]])
  }

  const StallU: set<nat> := {0, 1, 2, 3, 4}
  const StallV: set<nat> := {5, 6, 7, 8, 9}
  const StallUList: seq<nat> := [0, 1, 2, 3, 4]
  const StallVList: seq<nat> := [5, 6, 7, 8, 9]
  const StallMatching: set<Edge> := {(0, 5), (1, 6), (4, 9)}
  const StallFinal: Colouring := Colouring({5}, {0, 2, 3}, {2})

  // ---------------------------------------------------------------------------------
  // The equality graph of the costs

  lemma StallSquare()
    ensures IsSquare(StallCosts, 5)
  {
  }

  /** The zero columns of each row, in column order. */
  lemma StallRowLists()
    ensures IsSquare(StallCosts, 5)
    ensures ZeroColumns(StallCosts, 5, 0, 5) == [5] && ZeroColumns(StallCosts, 5, 1, 5) == [6]
    ensures ZeroColumns(StallCosts, 5, 2, 5) == [5, 6] && ZeroColumns(StallCosts, 5, 3, 5) == [5]
    ensures ZeroColumns(StallCosts, 5, 4, 5) == [7, 8, 9]
  {
    StallSquare();
  }

  /** The zero rows of each column, in row order. */
  lemma StallColumnLists()
    ensures IsSquare(StallCosts, 5)
    ensures ZeroRows(StallCosts, 5, 0, 5) == [0, 2, 3] && ZeroRows(StallCosts, 5, 1, 5) == [1, 2]
    ensures ZeroRows(StallCosts, 5, 2, 5) == [4] && ZeroRows(StallCosts, 5, 3, 5) == [4]
    ensures ZeroRows(StallCosts, 5, 4, 5) == [4]
  {
    StallSquare();
  }

  /** The equality graph of the costs, neighbours listed as `generate_equality_graph` adds them. */
  lemma StallGraphIs()
    ensures IsSquare(StallCosts, 5) && EqualityGraph(StallCosts, 5) == StallGraph()
  {
    var c := StallCosts;
    StallRowLists();
    StallColumnLists();
    var adj := EqualityGraph(c, 5).adj;
    forall x | 0 <= x < 10 ensures adj[x] == StallGraph().adj[x] {
      assert adj[x] == Listed(c, 5, 5, 0, x);
    }
  }

  // ---------------------------------------------------------------------------------
  // The sides and the matching

  lemma StallSplitAt()
    ensures ValidGraph(StallGraph()) && SplitAt(StallGraph(), 5)
  {
    StallGraphIs();
    EqualityGraphEdges(StallCosts, 5);
  }

  lemma StallListsMatch()
    ensures forall x: nat :: x in StallUList <==> x < 5 && |StallGraph().adj[x]| > 0
    ensures forall x: nat :: x in StallVList <==> 5 <= x < 10 && |StallGraph().adj[x]| > 0
    ensures Ascending(StallUList) && Ascending(StallVList)
  {
  }

  /** `bipartite_undirected` puts the rows in `nodes_u` and the columns in `nodes_v`. */
  lemma StallSides()
    ensures BipartiteUndirected(StallGraph()).value == BipartiteGraph(StallUList, StallVList)
  {
    StallSplitAt();
    StallListsMatch();
    SplitGraphLists(StallGraph(), 5, StallUList, StallVList);
  }

  lemma StallElems()
    ensures Elems(StallUList) == StallU && Elems(StallVList) == StallV && StallU !! StallV
  {
  }

  lemma StallCovered()
    ensures Covered(StallMatching) == {0, 1, 4, 5, 6, 9}
  {
    assert (0, 5) in StallMatching && (1, 6) in StallMatching && (4, 9) in StallMatching;
  }

  lemma StallExposed()
    ensures StallU - Covered(StallMatching) == {2, 3} && StallV - Covered(StallMatching) == {7, 8}
  {
    StallCovered();
    StallLeft();
  }

  lemma StallLeft()
    ensures StallU - {0, 1, 4, 5, 6, 9} == {2, 3} && StallV - {0, 1, 4, 5, 6, 9} == {7, 8}
  {
  }

  lemma StallIsMatching()
    ensures IsMatching(StallMatching) && Oriented(StallMatching, StallU, StallV)
  {
  }

  lemma StallMatchingValid()
    ensures ValidMatching(StallMatching, StallGraph(), StallU, StallV)
    ensures IsMatching(StallMatching) && InGraph(StallMatching, StallGraph())
  {
    StallIsMatching();
    assert IsEdge(StallGraph(), 0, 5) && IsEdge(StallGraph(), 1, 6) && IsEdge(StallGraph(), 4, 9);
  }

  /** Every edge has an end among 4, 5, 6. */
  lemma StallVertexCover()
    ensures IsVertexCover({4, 5, 6}, StallGraph()) && |{4, 5, 6}| == 3 && |StallMatching| == 3
  {
    var g := StallGraph();
    forall a: nat, b: nat | IsEdge(g, a, b) ensures a in {4, 5, 6} || b in {4, 5, 6} {
      assert b in g.adj[a];
      if a !in {4, 5, 6} {
        assert a in {0, 1, 2, 3, 7, 8, 9};
      }
    }
  }

  /** No matching of the equality graph is larger than the three nodes 4, 5, 6 that cover it. */
  lemma StallNoLargerMatching(m': set<Edge>)
    requires IsMatching(m') && InGraph(m', StallGraph())
    ensures |m'| <= 3
  {
    StallVertexCover();
    MatchingAtMostCover(m', {4, 5, 6}, StallGraph());
  }

  lemma StallMatchingOrdered()
    ensures forall e :: e in StallMatching ==> e.0 < e.1
  {
  }

  lemma StallMatchingLargest()
    ensures forall m' :: IsMatching(m') && InGraph(m', StallGraph()) ==> |m'| <= |StallMatching|
  {
    StallVertexCover();
    forall m' | IsMatching(m') && InGraph(m', StallGraph()) ensures |m'| <= |StallMatching| {
      StallNoLargerMatching(m');
    }
  }

  /** The matching {(0,5), (1,6), (4,9)} is a maximum matching of the equality graph, and not perfect. */
  lemma StallMatchingMaximum()
    ensures MaximumMatchingOf(StallMatching, StallGraph())
    ensures !IsPerfect(StallMatching, StallGraph())
  {
    StallMatchingValid();
    StallMatchingOrdered();
    StallMatchingLargest();
    StallVertexCover();
  }

  // ---------------------------------------------------------------------------------
  // The search as written: roots 2 and 3 grow trees that both end at the red column 5

  const StallRootTwo: Colouring := Colouring({}, {2}, {})
  const StallAfterTwo: Colouring := Colouring({5}, {0, 2}, {2})
  const StallRootThree: Colouring := Colouring({5}, {0, 2, 3}, {2})

  lemma StallRootTwoScan()
    ensures IsMatching(StallMatching)
    ensures ScanResult(StallGraph(), StallMatching, {7, 8}, 2, 0, {}) == Extended(5, 0, {5})
  {
    StallMatchingValid();
    ScanSkips(StallGraph(), StallMatching, {7, 8}, 2, 0, 5, {});
    MateOf(StallMatching, 0, 5);
  }

  lemma StallRowZeroScan()
    ensures IsMatching(StallMatching)
    ensures ScanResult(StallGraph(), StallMatching, {7, 8}, 0, 0, {5}) == Exhausted({5})
  {
    StallMatchingValid();
    ScanSkips(StallGraph(), StallMatching, {7, 8}, 0, 0, 10, {5});
  }

  lemma StallRowThreeScan()
    ensures IsMatching(StallMatching)
    ensures ScanResult(StallGraph(), StallMatching, {7, 8}, 3, 0, {5}) == Exhausted({5})
  {
    StallMatchingValid();
    ScanSkips(StallGraph(), StallMatching, {7, 8}, 3, 0, 10, {5});
  }

  lemma StallColours()
    ensures Colouring({5}, StallRootTwo.blue + {0}, StallRootTwo.scanned + {2}) == StallAfterTwo
    ensures [2] + [5, 0] == [2, 5, 0] && StallAfterTwo.(red := {5}) == StallAfterTwo
    ensures StallAfterTwo.(blue := StallAfterTwo.blue + {3}) == StallRootThree
    ensures StallRootThree.(red := {5}) == StallRootThree
  {
  }

  lemma StallAfterTwoInvariant()
    ensures ColouringInvariant(StallMatching, StallU, StallV, StallAfterTwo)
  {
    StallCovered();
  }

  /** The tree of root 2 reaches column 5, whose mate 0 has no other neighbour: no path. */
  lemma StallTreeTwo()
    ensures && StallU !! StallV && ValidMatching(StallMatching, StallGraph(), StallU, StallV)
            && StallV - Covered(StallMatching) == {7, 8}
            && ColouringInvariant(StallMatching, StallU, StallV, StallRootTwo)
            && IsTreeChain([2], StallMatching, StallGraph(), StallU, StallRootTwo)
            && TreeResult(StallGraph(), StallMatching, StallU, StallV, {7, 8}, 2, [2], [2], StallRootTwo)
               == NoPath(StallAfterTwo)
  {
    var g, m, u, v := StallGraph(), StallMatching, StallU, StallV;
    StallElems();
    StallMatchingValid();
    StallExposed();
    RootOnly(2);
    RootStarts(g, m, u, v, Uncoloured, 2);
    StallRootTwoScan();
    StallRowZeroScan();
    StallColours();
    TreeStepExtended(g, m, u, v, {7, 8}, 2, [2], 2, StallRootTwo, {}, 5, 0, {5});
    TreeStepExhausted(g, m, u, v, {7, 8}, 2, [2, 5, 0], 0, StallAfterTwo, {5}, {5});
  }

  /** The tree of root 3 meets only the red column 5: no path, no new colour. */
  lemma StallTreeThree()
    ensures && StallU !! StallV && ValidMatching(StallMatching, StallGraph(), StallU, StallV)
            && ColouringInvariant(StallMatching, StallU, StallV, StallRootThree)
            && IsTreeChain([3], StallMatching, StallGraph(), StallU, StallRootThree)
            && TreeResult(StallGraph(), StallMatching, StallU, StallV, {7, 8}, 3, [3], [3], StallRootThree)
               == NoPath(StallRootThree)
  {
    var g, m, u, v := StallGraph(), StallMatching, StallU, StallV;
    StallElems();
    StallMatchingValid();
    StallExposed();
    StallAfterTwoInvariant();
    StallColours();
    RootStarts(g, m, u, v, StallAfterTwo, 3);
    StallRowThreeScan();
    TreeStepExhausted(g, m, u, v, {7, 8}, 3, [3], 3, StallRootThree, {5}, {5});
  }

  /** The only pass: rows 0 and 1 are matched, roots 2 and 3 find no path, rows 4.. are no roots. */
  lemma StallPass()
    ensures && StallU !! StallV && ValidMatching(StallMatching, StallGraph(), StallU, StallV)
            && ColouringInvariant(StallMatching, StallU, StallV, Uncoloured)
            && PassResult(StallGraph(), StallMatching, StallU, StallV, StallU - Covered(StallMatching),
                          StallV - Covered(StallMatching), 0, Uncoloured) == Stopped(StallFinal)
  {
    var g, m, u, v := StallGraph(), StallMatching, StallU, StallV;
    StallElems();
    StallMatchingValid();
    StallExposed();
    StallTreeTwo();
    StallTreeThree();
    StallColours();
    RootOnly(2);
    PassSkipsToEnd(g, m, u, v, {2, 3}, {7, 8}, 4, StallFinal);
    PassRootNoPath(g, m, u, v, {2, 3}, {7, 8}, 3, StallAfterTwo, StallFinal);
    PassRootNoPath(g, m, u, v, {2, 3}, {7, 8}, 2, Uncoloured, StallAfterTwo);
    PassSkips(g, m, u, v, {2, 3}, {7, 8}, 1, Uncoloured);
    PassSkips(g, m, u, v, {2, 3}, {7, 8}, 0, Uncoloured);
  }

  lemma StallSearch()
    ensures && |StallGraph().adj| > 0 && StallU !! StallV
            && ValidMatching(StallMatching, StallGraph(), StallU, StallV)
            && SearchResult(StallGraph(), StallU, StallV, StallMatching, Uncoloured)
               == SearchOutcome(StallFinal, StallMatching, [])
  {
    StallPass();
    SearchStops(StallGraph(), StallU, StallV, StallMatching, StallFinal);
  }

  lemma StallCoverRows()
    ensures Outside(StallUList, StallFinal.blue) == [1, 4]
  {
    OutsideFive(0, 1, 2, 3, 4, StallFinal.blue);
  }

  lemma StallCoverColumns()
    ensures Inside(StallVList, StallFinal.red) == [5]
  {
    InsideFive(5, 6, 7, 8, 9, StallFinal.red);
  }

  lemma StallCover()
    ensures Outside(StallUList, StallFinal.blue) + Inside(StallVList, StallFinal.red) == [1, 4, 5]
  {
    StallCoverRows();
    StallCoverColumns();
  }

  /**
   * The search as written returns the cover [1, 4, 5] (rows 1 and 4, column 0) and the
   * matching unchanged; the zero at row 2, column 1 (the edge 2-6) has no end in it.
   */
  lemma StallResult()
    ensures && |StallGraph().adj| > 0 && Elems(StallUList) == StallU && Elems(StallVList) == StallV
            && StallU !! StallV && ValidMatching(StallMatching, StallGraph(), StallU, StallV)
            && HungarianResult(StallGraph(), StallUList, StallVList, StallMatching) == ([1, 4, 5], StallMatching)
  {
    StallElems();
    StallSearch();
    StallCover();
    ResultOfSearch(StallGraph(), StallUList, StallVList, StallU, StallV, StallMatching,
                   StallFinal, StallMatching, [], [1, 4, 5]);
  }

  // ---------------------------------------------------------------------------------
  // The driver's pass: the dual vectors, the cover split and epsilon

  /** A non-empty list of non-negative entries that holds a zero has the minimum zero. */
  lemma MinIsZero(s: seq<int>)
    requires |s| > 0 && 0 in s && forall k :: 0 <= k < |s| ==> s[k] >= 0
    ensures Min(s) == 0
  {
  }

  /** The costs are non-negative, and each row and each column holds a zero. */
  lemma StallZeros()
    ensures IsSquare(StallCosts, 5) && NonNegative(StallCosts, 5)
    ensures forall i :: 0 <= i < 5 ==> 0 in StallCosts[i]
    ensures forall j :: 0 <= j < 5 ==> 0 in Column(StallCosts, j)
  {
    var c := StallCosts;
    StallSquare();
    forall j | 0 <= j < 5 ensures 0 in Column(c, j) {
      var col := Column(c, j);
      if j == 0 { assert col[0] == 0; }
      else if j == 1 { assert col[1] == 0; }
      else { assert col[4] == 0; }
    }
  }

  /** The vector of n zeros. */
  function ZeroVector(n: nat): (z: seq<int>)
    ensures |z| == n && forall k :: 0 <= k < n ==> z[k] == 0
  {
    seq(n, k => 0)
  }

  /** Two n x n matrices with the same entries are the same matrix. */
  lemma SameEntries(a: Matrix, b: Matrix, n: nat)
    requires IsSquare(a, n) && IsSquare(b, n)
    requires forall i, j :: 0 <= i < n && 0 <= j < n ==> a[i][j] == b[i][j]
    ensures a == b
  {
    forall i | 0 <= i < n ensures a[i] == b[i] {
    }
  }

  /** Vectors that are zero in every entry leave every reduced cost at its cost. */
  lemma ZeroReduction(c: Matrix, n: nat, u: seq<int>, v: seq<int>)
    requires IsSquare(c, n) && DualShape(u, n) && (|v| == 0 || |v| == n)
    requires DualU(c, n, u) == ZeroVector(n) && IterationV(c, n, u, v) == ZeroVector(n)
    ensures ReducedCosts(c, n, u, v) == c
  {
    var r := ReducedCosts(c, n, u, v);
    forall i, j | 0 <= i < n && 0 <= j < n ensures r[i][j] == c[i][j] {
      ZeroReductionAt(c, n, u, v, i, j);
    }
    SameEntries(r, c, n);
  }

  lemma ZeroReductionAt(c: Matrix, n: nat, u: seq<int>, v: seq<int>, i: nat, j: nat)
    requires IsSquare(c, n) && DualShape(u, n) && (|v| == 0 || |v| == n) && i < n && j < n
    requires DualU(c, n, u) == ZeroVector(n) && IterationV(c, n, u, v) == ZeroVector(n)
    ensures ReducedCosts(c, n, u, v)[i][j] == c[i][j]
  {
    ReducedCostAt(c, n, u, v, i, j);
  }

  /** Non-negative costs with a zero in every row have zero row minima and lose nothing to them. */
  lemma ZeroRowMinima(c: Matrix, n: nat)
    requires IsSquare(c, n) && NonNegative(c, n)
    requires forall i :: 0 <= i < n ==> 0 in c[i]
    ensures DualU(c, n, []) == ZeroVector(n) && RowReduced(c, n, []) == c
  {
    forall i | 0 <= i < n ensures RowMinima(c, n)[i] == 0 {
      MinIsZero(c[i]);
    }
    assert DualU(c, n, []) == ZeroVector(n);
    var cu := RowReduced(c, n, []);
    forall i, j | 0 <= i < n && 0 <= j < n ensures cu[i][j] == c[i][j] {
    }
    SameEntries(cu, c, n);
  }

  /** Non-negative costs with a zero in every column have zero column minima. */
  lemma ZeroColumnMinima(c: Matrix, n: nat)
    requires IsSquare(c, n) && NonNegative(c, n)
    requires forall j :: 0 <= j < n ==> 0 in Column(c, j)
    ensures ColumnMinima(c, n) == ZeroVector(n)
  {
    forall j | 0 <= j < n ensures ColumnMinima(c, n)[j] == 0 {
      MinIsZero(Column(c, j));
    }
  }

  /**
   * Costs that are non-negative with a zero in every row and every column have zero row
   * and column minima: the first pass, from the empty vectors, reduces by zero vectors and
   * leaves the costs as they are.
   */
  lemma ZeroMinima(c: Matrix, n: nat)
    requires IsSquare(c, n) && n > 0 && NonNegative(c, n)
    requires forall i :: 0 <= i < n ==> 0 in c[i]
    requires forall j :: 0 <= j < n ==> 0 in Column(c, j)
    ensures DualU(c, n, []) == ZeroVector(n) && IterationV(c, n, [], []) == ZeroVector(n)
    ensures ReducedCosts(c, n, [], []) == c
  {
    ZeroRowMinima(c, n);
    ZeroColumnMinima(c, n);
    IterationVIsDualV(c, n, [], []);
    ZeroReduction(c, n, [], []);
  }

  /** Saved zero vectors are used as they are and reduce nothing. */
  lemma ZeroDualsKept(c: Matrix, n: nat)
    requires IsSquare(c, n) && n > 0
    ensures DualU(c, n, ZeroVector(n)) == ZeroVector(n)
    ensures IterationV(c, n, ZeroVector(n), ZeroVector(n)) == ZeroVector(n)
    ensures ReducedCosts(c, n, ZeroVector(n), ZeroVector(n)) == c
  {
    var z := ZeroVector(n);
    SavedDualsKept(c, n, z, z);
    ZeroReduction(c, n, z, z);
  }

  lemma StallDuals()
    ensures IsSquare(StallCosts, 5) && ZeroVector(5) == Zeros
    ensures DualU(StallCosts, 5, []) == Zeros && IterationV(StallCosts, 5, [], []) == Zeros
    ensures ReducedCosts(StallCosts, 5, [], []) == StallCosts
    ensures DualU(StallCosts, 5, Zeros) == Zeros && IterationV(StallCosts, 5, Zeros, Zeros) == Zeros
    ensures ReducedCosts(StallCosts, 5, Zeros, Zeros) == StallCosts
  {
    StallZeros();
    assert ZeroVector(5) == Zeros;
    ZeroMinima(StallCosts, 5);
    ZeroDualsKept(StallCosts, 5);
  }

  /** The search the driver calls, as written, on the equality graph of the costs. */
  lemma StallHungarianRun()
    ensures IsSquare(StallCosts, 5) && MaximumMatchingOf(StallMatching, EqualityGraph(StallCosts, 5))
    ensures EqualitySides(StallCosts, 5) == BipartiteGraph(StallUList, StallVList)
    ensures HungarianRun(StallCosts, 5, StallMatching, AsWritten) == ([1, 4, 5], StallMatching)
  {
    StallGraphIs();
    StallMatchingMaximum();
    StallSides();
    StallResult();
  }

  lemma StallDown()
    ensures AtLeast(StallVList, 5) && Down(StallVList, 5) == [0, 1, 2, 3, 4]
  {
    DownEntries(StallVList, 5);
  }

  /** Taking row 1 out of all the rows, unrolled one prefix at a time (the generic `RetainMembers` gives membership only, not the order). */
  lemma StallRetainRow()
    ensures Retain([0, 1, 2, 3, 4], 1) == [0, 2, 3, 4]
  {
    assert [0, 1, 2, 3, 4][..4] == [0, 1, 2, 3] && [0, 1, 2, 3][..3] == [0, 1, 2];
    assert [0, 1, 2][..2] == [0, 1] && [0, 1][..1] == [0] && [0][..0] == [];
  }

  /** Taking row 4 out as well, unrolled the same way. */
  lemma StallRetainSecondRow()
    ensures Retain([0, 2, 3, 4], 4) == [0, 2, 3]
  {
    assert [0, 2, 3, 4][..3] == [0, 2, 3] && [0, 2, 3][..2] == [0, 2] && [0, 2][..1] == [0] && [0][..0] == [];
  }

  /** Taking column 0 out of all the columns, unrolled the same way. */
  lemma StallRetainColumn()
    ensures Retain([0, 1, 2, 3, 4], 0) == [1, 2, 3, 4]
  {
    assert [0, 1, 2, 3, 4][..4] == [0, 1, 2, 3] && [0, 1, 2, 3][..3] == [0, 1, 2];
    assert [0, 1, 2][..2] == [0, 1] && [0, 1][..1] == [0] && [0][..0] == [];
  }

  lemma StallSplitFirst()
    ensures AtLeast(StallVList, 5)
    ensures SplitCover(StallUList, StallVList, [1], 5) == CoverSplit([0, 2, 3, 4], [0, 1, 2, 3, 4], [])
  {
    StallDown();
    StallRetainRow();
    assert [1][..0] == [];
  }

  lemma StallSplitSecond()
    ensures AtLeast(StallVList, 5)
    ensures SplitCover(StallUList, StallVList, [1, 4], 5) == CoverSplit([0, 2, 3], [0, 1, 2, 3, 4], [])
  {
    StallSplitFirst();
    StallRetainSecondRow();
    assert [1, 4][..1] == [1];
  }

  /**
   * `[1, 4, 5]` split node by node: rows 1 and 4 leave the rows, node 5 (column 0) leaves
   * the columns and is the one red column.
   */
  lemma StallSplitCover()
    ensures AtLeast(StallVList, 5)
    ensures SplitCover(StallUList, StallVList, [1, 4, 5], 5) == CoverSplit([0, 2, 3], [1, 2, 3, 4], [0])
  {
    StallSplitSecond();
    StallRetainColumn();
    StallColumnNode();
    SplitColumnNode(StallUList, StallVList, [1, 4], 5, 5);
    assert [1, 4] + [5] == [1, 4, 5];
  }

  /** Node 5 is a column node, and the rows 1 and 4 before it are row nodes. */
  lemma StallColumnNode()
    ensures AtLeast(StallVList, 5) && 5 !in StallUList
    ensures forall k :: 0 <= k < |[1, 4]| ==> [1, 4][k] in StallUList || [1, 4][k] >= 5
  {
  }

  /**
   * The driver splits the cover [1, 4, 5]: rows 0, 2, 3 stay uncovered, columns 1..4 stay
   * uncovered, and column 0 is the one red column.
   */
  lemma StallSplit(c: Matrix)
    requires c == StallCosts
    ensures IsSquare(c, 5) && MaximumMatchingOf(StallMatching, EqualityGraph(c, 5))
    ensures CoverSplitOf(c, 5, StallMatching, AsWritten) == CoverSplit([0, 2, 3], [1, 2, 3, 4], [0])
  {
    StallHungarianRun();
    StallSplitCover();
  }

  /** Epsilon, the least cost over rows 0, 2, 3 and columns 1..4, is the zero at row 2, column 1. */
  lemma StallEpsilonValue(c: Matrix)
    requires c == StallCosts
    ensures IsSquare(c, 5) && Epsilon(c, 5, [0, 2, 3], [1, 2, 3, 4]) == Some(0)
  {
    StallZeros();
    EpsilonAtZero(c, 5, [0, 2, 3], [1, 2, 3, 4], 1, 0);
  }

  /** Over non-negative costs, a zero at a listed row and column is the least candidate. */
  lemma EpsilonAtZero(c: Matrix, n: nat, rows: seq<nat>, cols: seq<nat>, a: nat, k: nat)
    requires IsSquare(c, n) && n > 0 && NonNegative(c, n)
    requires forall a :: 0 <= a < |rows| ==> rows[a] < n
    requires forall k :: 0 <= k < |cols| ==> cols[k] < n
    requires a < |rows| && k < |cols| && c[rows[a]][cols[k]] == 0
    ensures Epsilon(c, n, rows, cols) == Some(0)
  {
    EpsilonExists(c, n, rows, cols);
    EpsilonIsMinimum(c, n, rows, cols);
  }

  /** Epsilon, the least cost over the rows and columns the cover leaves, is zero. */
  lemma StallEpsilon(c: Matrix)
    requires c == StallCosts
    ensures IsSquare(c, 5) && MaximumMatchingOf(StallMatching, EqualityGraph(c, 5))
    ensures var split := CoverSplitOf(c, 5, StallMatching, AsWritten);
      Epsilon(c, 5, split.rows, split.cols) == Some(0)
  {
    StallSplit(c);
    StallEpsilonValue(c);
  }

  /** The state every pass saves: zero vectors, the costs as reduced costs, and their equality graph. */
  function StallState(): (r: ProblemState) {
    ProblemState(Zeros, Zeros, StallCosts, Some(StallGraph()), None)
  }

  /** Moving the zero vectors by an epsilon of zero leaves them zero. */
  lemma StallImprove(c: Matrix)
    requires c == StallCosts
    ensures IsSquare(c, 5) && MaximumMatchingOf(StallMatching, EqualityGraph(c, 5))
    ensures Improve(c, 5, StallMatching, Zeros, Zeros, AsWritten) == Continued(StallState())
  {
    StallEpsilon(c);
    ImproveByZero(c, 5, StallMatching, Zeros, Zeros, AsWritten);
    StallGraphIs();
  }

  /**
   * With a matcher that hands the search {(0,5), (1,6), (4,9)}, the pass from the empty
   * vectors and the pass from the zero vectors both save the same state.
   */
  lemma StallPassRepeats(c: Matrix, matcher: Graph -> set<Edge>, u: seq<int>, v: seq<int>)
    requires c == StallCosts && MaximumMatcher(matcher) && matcher(StallGraph()) == StallMatching
    requires (u == [] && v == []) || (u == Zeros && v == Zeros)
    ensures IsSquare(c, 5)
    ensures Iteration(c, 5, u, v, matcher, AsWritten) == Continued(StallState())
  {
    StallDuals();
    StallGraphIs();
    StallMatchingMaximum();
    IterationImproves(c, 5, u, v, matcher, AsWritten);
    StallImprove(c);
  }

  // ---------------------------------------------------------------------------------
  // The loop never returns

  /**
   * From the empty vectors, as the driver starts: the first pass saves the zero vectors
   * and every pass after it saves them again; no number of passes ends the loop.
   */
  lemma StallRunFromMinima(c: Matrix, matcher: Graph -> set<Edge>, fuel: nat)
    requires c == StallCosts && MaximumMatcher(matcher) && matcher(StallGraph()) == StallMatching
    ensures IsSquare(c, 5)
    ensures var run := Run(c, 5, [], [], matcher, AsWritten, fuel);
      run.0 == OutOfFuel && |run.1| == fuel && forall k :: 0 <= k < fuel ==> run.1[k] == StallState()
  {
    StallPassRepeats(c, matcher, [], []);
    StallPassRepeats(c, matcher, Zeros, Zeros);
    RunStuck(c, 5, [], [], matcher, AsWritten, StallState(), fuel);
  }

  /**
   * `OptimalSolution::new`, `init(vec![], vec![], c)` and `find_optimum_cost` on these
   * costs: whatever the number of passes allowed, the loop runs out of them, and after the
   * first state every saved state holds the same zero vectors.
   */
  method StalledFindOptimumCost(matcher: Graph -> set<Edge>, fuel: nat) returns (o: Outcome, saved: seq<ProblemState>)
    requires MaximumMatcher(matcher) && matcher(StallGraph()) == StallMatching
    ensures o == OutOfFuel
    ensures |saved| == fuel + 1 && saved[0] == ProblemState([], [], StallCosts, None, None)
    ensures forall k :: 1 <= k <= fuel ==> saved[k] == StallState()
  {
    var solution := new OptimalSolution();
    solution.Init([], [], StallCosts);
    StallRunFromMinima(StallCosts, matcher, fuel);
    o := solution.FindOptimumCost(matcher, fuel);
    saved := solution.states;
  }
}
