/**
 * The graphs of the repository's tests of `hungarian_maximum_matching`
 * (tests/hungarian.rs), each with `nodes_u` and `nodes_v` as `bipartite_undirected`
 * returns them, evaluated through the search as written.  The adjacency lists are
 * written in ascending order; the colouring of `bipartite_undirected` on such graphs
 * does not depend on that order.
 */
module HungarianTests {
  import opened Collections
  import opened Graphs
  import opened Bipartite
  import opened Hungarian
  import opened HungarianFixtures

  // ---------------------------------------------------------------------------------
  // First test: s1..s5 are nodes 0..4, t1..t5 are nodes 5..9; edges 0-6, 0-7, 1-5, 1-6,
  // 1-8, 1-9, 2-6, 2-7, 3-6, 3-7, 4-8, 4-9; starting matching {(1,6), (2,7), (4,9)};
  // expected cover [1, 4, 6, 7].

  function FirstGraph(): (r: Graph) {
    Graph([[6, 7], [5, 6, 8, 9], [6, 7], [6, 7], [8, 9], [1], [0, 1, 2, 3], [0, 2, 3], [1, 4], [1, 4]])
  }

  const FiveU: set<nat> := {0, 1, 2, 3, 4}
  const FiveV: set<nat> := {5, 6, 7, 8, 9}
  const FiveUList: seq<nat> := [0, 1, 2, 3, 4]
  const FiveVList: seq<nat> := [5, 6, 7, 8, 9]
  const FirstStart: set<Edge> := {(1, 6), (2, 7), (4, 9)}
  const FirstAugmented: set<Edge> := {(0, 6), (1, 5), (2, 7), (4, 9)}
  const FirstFinal: Colouring := Colouring({6, 7}, {0, 2, 3}, {3})

  lemma FirstSplitAt()
    ensures ValidGraph(FirstGraph()) && SplitAt(FirstGraph(), 5)
  {
    FirstNodes();
    FirstSymmetric();
    FirstSplit();
  }

  lemma FirstNodes()
    ensures forall a, k :: 0 <= a < 10 && 0 <= k < |FirstGraph().adj[a]| ==> FirstGraph().adj[a][k] < 10
  {
  }

  lemma FirstSymmetric()
    ensures forall a, b :: 0 <= a < 10 && 0 <= b < 10 ==> (b in FirstGraph().adj[a] <==> a in FirstGraph().adj[b])
  {
  }

  lemma FirstSplit()
    ensures forall a, j :: 0 <= a < 10 && 0 <= j < |FirstGraph().adj[a]| ==> (a < 5 <==> FirstGraph().adj[a][j] >= 5)
  {
  }

  lemma FirstListsMatch()
    ensures forall x: nat :: x in FiveUList <==> x < 5 && |FirstGraph().adj[x]| > 0
    ensures forall x: nat :: x in FiveVList <==> 5 <= x < 10 && |FirstGraph().adj[x]| > 0
    ensures Ascending(FiveUList) && Ascending(FiveVList)
  {
  }

  /** `bipartite_undirected` puts s1..s5 in `nodes_u` and t1..t5 in `nodes_v`. */
  lemma FirstSides()
    ensures BipartiteUndirected(FirstGraph()).value == BipartiteGraph(FiveUList, FiveVList)
  {
    FirstSplitAt();
    FirstListsMatch();
    SplitGraphLists(FirstGraph(), 5, FiveUList, FiveVList);
  }

  lemma FiveElems()
    ensures Elems(FiveUList) == FiveU && Elems(FiveVList) == FiveV && FiveU !! FiveV
  {
  }

  lemma FirstStartIsMatching()
    ensures IsMatching(FirstStart) && Oriented(FirstStart, FiveU, FiveV)
  {
  }

  lemma FirstStartCovered()
    ensures Covered(FirstStart) == {1, 2, 4, 6, 7, 9}
  {
    assert (1, 6) in FirstStart && (2, 7) in FirstStart && (4, 9) in FirstStart;
  }

  lemma FirstStartExposed()
    ensures FiveU - Covered(FirstStart) == {0, 3} && FiveV - Covered(FirstStart) == {5, 8}
  {
    FirstStartCovered();
    FirstStartLeft();
  }

  lemma FirstStartLeft()
    ensures FiveU - {1, 2, 4, 6, 7, 9} == {0, 3} && FiveV - {1, 2, 4, 6, 7, 9} == {5, 8}
  {
  }

  lemma FirstStartValid()
    ensures ValidMatching(FirstStart, FirstGraph(), FiveU, FiveV)
  {
    FirstStartIsMatching();
    assert IsEdge(FirstGraph(), 1, 6) && IsEdge(FirstGraph(), 2, 7) && IsEdge(FirstGraph(), 4, 9);
  }

  lemma FirstAugmentedIsMatching()
    ensures IsMatching(FirstAugmented) && Oriented(FirstAugmented, FiveU, FiveV)
  {
  }

  lemma FirstAugmentedCovered()
    ensures Covered(FirstAugmented) == {0, 1, 2, 4, 5, 6, 7, 9}
  {
    assert (0, 6) in FirstAugmented && (1, 5) in FirstAugmented && (2, 7) in FirstAugmented && (4, 9) in FirstAugmented;
  }

  lemma FirstAugmentedExposed()
    ensures FiveU - Covered(FirstAugmented) == {3} && FiveV - Covered(FirstAugmented) == {8}
  {
    FirstAugmentedCovered();
    FirstAugmentedLeft();
  }

  lemma FirstAugmentedLeft()
    ensures FiveU - {0, 1, 2, 4, 5, 6, 7, 9} == {3} && FiveV - {0, 1, 2, 4, 5, 6, 7, 9} == {8}
  {
  }

  lemma FirstAugmentedValid()
    ensures ValidMatching(FirstAugmented, FirstGraph(), FiveU, FiveV)
  {
    FirstAugmentedIsMatching();
    assert IsEdge(FirstGraph(), 0, 6) && IsEdge(FirstGraph(), 1, 5) && IsEdge(FirstGraph(), 2, 7) && IsEdge(FirstGraph(), 4, 9);
  }

  // First pass, root s1 (node 0): t2 (node 6) is matched to s2 (node 1), whose neighbour
  // t1 (node 5) is exposed.

  const FirstRootZero: Colouring := Colouring({}, {0}, {})
  const FirstAfterZero: Colouring := Colouring({6}, {0, 1}, {0})

  lemma FirstRootZeroScan()
    ensures IsMatching(FirstStart)
    ensures ScanResult(FirstGraph(), FirstStart, {5, 8}, 0, 0, {}) == Extended(6, 1, {6})
  {
    FirstStartIsMatching();
    ScanSkips(FirstGraph(), FirstStart, {5, 8}, 0, 0, 6, {});
    MateOf(FirstStart, 1, 6);
  }

  lemma FirstRowOneScan()
    ensures IsMatching(FirstStart)
    ensures ScanResult(FirstGraph(), FirstStart, {5, 8}, 1, 0, {6}) == ExposedNeighbour(5)
  {
    FirstStartIsMatching();
    ScanSkips(FirstGraph(), FirstStart, {5, 8}, 1, 0, 5, {6});
  }

  lemma FirstFirstColours()
    ensures Colouring({6}, FirstRootZero.blue + {1}, FirstRootZero.scanned + {0}) == FirstAfterZero
    ensures [0] + [6, 1] == [0, 6, 1] && [0, 6, 1] + [5] == [0, 6, 1, 5]
  {
  }

  /** The tree of s1 reaches t2, then s2, whose neighbour t1 is exposed: the path s1-t2-s2-t1. */
  lemma FirstTreeZero()
    ensures && FiveU !! FiveV && ValidMatching(FirstStart, FirstGraph(), FiveU, FiveV)
            && FiveV - Covered(FirstStart) == {5, 8}
            && ColouringInvariant(FirstStart, FiveU, FiveV, FirstRootZero)
            && IsTreeChain([0], FirstStart, FirstGraph(), FiveU, FirstRootZero)
            && TreeResult(FirstGraph(), FirstStart, FiveU, FiveV, {5, 8}, 0, [0], [0], FirstRootZero)
               == AugmentingPath([0, 6, 1, 5])
  {
    var g, m, u, v := FirstGraph(), FirstStart, FiveU, FiveV;
    FiveElems();
    FirstStartValid();
    FirstStartExposed();
    RootOnly(0);
    RootStarts(g, m, u, v, Uncoloured, 0);
    FirstRootZeroScan();
    FirstRowOneScan();
    FirstFirstColours();
    TreeStepExtended(g, m, u, v, {5, 8}, 0, [0], 0, FirstRootZero, {}, 6, 1, {6});
    TreeStepExposed(g, m, u, v, {5, 8}, 0, [0, 6, 1], 1, FirstAfterZero, {6}, 5);
  }

  lemma FirstFirstPass()
    ensures && FiveU !! FiveV && ValidMatching(FirstStart, FirstGraph(), FiveU, FiveV)
            && ColouringInvariant(FirstStart, FiveU, FiveV, Uncoloured)
            && PassResult(FirstGraph(), FirstStart, FiveU, FiveV, FiveU - Covered(FirstStart),
                          FiveV - Covered(FirstStart), 0, Uncoloured) == Augmented([0, 6, 1, 5])
  {
    FirstTreeZero();
    FirstStartExposed();
    RootOnly(0);
    PassRootPath(FirstGraph(), FirstStart, FiveU, FiveV, {0, 3}, {5, 8}, 0, Uncoloured, [0, 6, 1, 5]);
  }

  /** Augmenting along s1-t2-s2-t1 swaps s2-t2 for s1-t2 and s2-t1. */
  lemma FirstAugment()
    ensures SymmetricDifference(FirstStart, PathEdges([0, 6, 1, 5], FiveV)) == FirstAugmented
  {
    var p: seq<nat> := [0, 6, 1, 5];
    assert PathStep(p, 0, FiveV) == (0, 6) && PathStep(p, 1, FiveV) == (1, 6) && PathStep(p, 2, FiveV) == (1, 5);
    assert PathEdges(p, FiveV) == {(0, 6), (1, 6), (1, 5)};
  }

  // Second pass, root s4 (node 3): t2 (node 6) is matched to s1 (node 0), t3 (node 7) to
  // s3 (node 2), and s3 has no neighbour left.

  const FirstRootThree: Colouring := Colouring({}, {3}, {})
  const FirstAfterSix: Colouring := Colouring({6}, {0, 3}, {3})

  lemma FirstRootThreeScan()
    ensures IsMatching(FirstAugmented)
    ensures ScanResult(FirstGraph(), FirstAugmented, {8}, 3, 0, {}) == Extended(6, 0, {6})
  {
    FirstAugmentedIsMatching();
    ScanSkips(FirstGraph(), FirstAugmented, {8}, 3, 0, 6, {});
    MateOf(FirstAugmented, 0, 6);
  }

  lemma FirstRowZeroScan()
    ensures IsMatching(FirstAugmented)
    ensures ScanResult(FirstGraph(), FirstAugmented, {8}, 0, 0, {6}) == Extended(7, 2, {6, 7})
  {
    FirstAugmentedIsMatching();
    ScanSkips(FirstGraph(), FirstAugmented, {8}, 0, 0, 7, {6});
    MateOf(FirstAugmented, 2, 7);
  }

  lemma FirstRowTwoScan()
    ensures IsMatching(FirstAugmented)
    ensures ScanResult(FirstGraph(), FirstAugmented, {8}, 2, 0, {6, 7}) == Exhausted({6, 7})
  {
    FirstAugmentedIsMatching();
    ScanSkips(FirstGraph(), FirstAugmented, {8}, 2, 0, 10, {6, 7});
  }

  lemma FirstSecondColours()
    ensures Colouring({6}, FirstRootThree.blue + {0}, FirstRootThree.scanned + {3}) == FirstAfterSix
    ensures Colouring({6, 7}, FirstAfterSix.blue + {2}, FirstAfterSix.scanned + {3}) == FirstFinal
    ensures [3] + [6, 0] == [3, 6, 0] && [3, 6, 0] + [7, 2] == [3, 6, 0, 7, 2]
    ensures FirstFinal.(red := {6, 7}) == FirstFinal
  {
  }

  /** The tree of s4 grows to s4, t2, s1, t3, s3 and ends without a path. */
  lemma FirstTreeThree()
    ensures && FiveU !! FiveV && ValidMatching(FirstAugmented, FirstGraph(), FiveU, FiveV)
            && FiveV - Covered(FirstAugmented) == {8}
            && ColouringInvariant(FirstAugmented, FiveU, FiveV, FirstRootThree)
            && IsTreeChain([3], FirstAugmented, FirstGraph(), FiveU, FirstRootThree)
            && TreeResult(FirstGraph(), FirstAugmented, FiveU, FiveV, {8}, 3, [3], [3], FirstRootThree)
               == NoPath(FirstFinal)
  {
    var g, m, u, v := FirstGraph(), FirstAugmented, FiveU, FiveV;
    FiveElems();
    FirstAugmentedValid();
    FirstAugmentedExposed();
    RootOnly(3);
    RootStarts(g, m, u, v, Uncoloured, 3);
    FirstRootThreeScan();
    FirstRowZeroScan();
    FirstRowTwoScan();
    FirstSecondColours();
    TreeStepExtended(g, m, u, v, {8}, 3, [3], 3, FirstRootThree, {}, 6, 0, {6});
    TreeStepExtended(g, m, u, v, {8}, 3, [3, 6, 0], 0, FirstAfterSix, {6}, 7, 2, {6, 7});
    TreeStepExhausted(g, m, u, v, {8}, 3, [3, 6, 0, 7, 2], 2, FirstFinal, {6, 7}, {6, 7});
  }

  /** Second pass: s1..s3 are matched, s4 finds no path, s5.. are no roots. */
  lemma FirstSecondPass()
    ensures && FiveU !! FiveV && ValidMatching(FirstAugmented, FirstGraph(), FiveU, FiveV)
            && ColouringInvariant(FirstAugmented, FiveU, FiveV, Uncoloured)
            && PassResult(FirstGraph(), FirstAugmented, FiveU, FiveV, FiveU - Covered(FirstAugmented),
                          FiveV - Covered(FirstAugmented), 0, Uncoloured) == Stopped(FirstFinal)
  {
    var g, m, u, v := FirstGraph(), FirstAugmented, FiveU, FiveV;
    FirstTreeThree();
    FirstAugmentedExposed();
    RootOnly(3);
    PassSkipsToEnd(g, m, u, v, {3}, {8}, 4, FirstFinal);
    PassRootNoPath(g, m, u, v, {3}, {8}, 3, Uncoloured, FirstFinal);
    PassSkips(g, m, u, v, {3}, {8}, 2, Uncoloured);
    PassSkips(g, m, u, v, {3}, {8}, 1, Uncoloured);
    PassSkips(g, m, u, v, {3}, {8}, 0, Uncoloured);
  }

  lemma FirstSearch()
    ensures && |FirstGraph().adj| > 0 && FiveU !! FiveV
            && ValidMatching(FirstStart, FirstGraph(), FiveU, FiveV)
            && SearchResult(FirstGraph(), FiveU, FiveV, FirstStart, Uncoloured)
               == SearchOutcome(FirstFinal, FirstAugmented, [[0, 6, 1, 5]])
  {
    FirstFirstPass();
    FirstAugment();
    SearchAugments(FirstGraph(), FiveU, FiveV, FirstStart, [0, 6, 1, 5], FirstAugmented);
    FirstSecondPass();
    SearchStops(FirstGraph(), FiveU, FiveV, FirstAugmented, FirstFinal);
    assert [[0, 6, 1, 5]] + [] == [[0, 6, 1, 5]];
  }

  lemma FirstCoverU()
    ensures Outside(FiveUList, FirstFinal.blue) == [1, 4]
  {
    OutsideFive(0, 1, 2, 3, 4, FirstFinal.blue);
  }

  lemma FirstCoverV()
    ensures Inside(FiveVList, FirstFinal.red) == [6, 7]
  {
    InsideFive(5, 6, 7, 8, 9, FirstFinal.red);
  }

  lemma FirstCover()
    ensures Outside(FiveUList, FirstFinal.blue) + Inside(FiveVList, FirstFinal.red) == [1, 4, 6, 7]
  {
    FirstCoverU();
    FirstCoverV();
  }

  /**
   * The first test: with the lists `bipartite_undirected` returns, the search returns the
   * expected cover [1, 4, 6, 7] (s2, s5, t2, t3) after one augmentation, along s1-t2-s2-t1.
   */
  lemma FirstTest()
    ensures && BipartiteUndirected(FirstGraph()).value == BipartiteGraph(FiveUList, FiveVList)
            && |FirstGraph().adj| > 0 && Elems(FiveUList) == FiveU && Elems(FiveVList) == FiveV
            && FiveU !! FiveV && ValidMatching(FirstStart, FirstGraph(), FiveU, FiveV)
            && HungarianResult(FirstGraph(), FiveUList, FiveVList, FirstStart) == ([1, 4, 6, 7], FirstAugmented)
  {
    FirstSides();
    FiveElems();
    FirstSearch();
    FirstCover();
    ResultOfSearch(FirstGraph(), FiveUList, FiveVList, FiveU, FiveV, FirstStart,
                   FirstFinal, FirstAugmented, [[0, 6, 1, 5]], [1, 4, 6, 7]);
  }

  // ---------------------------------------------------------------------------------
  // Second test: s1..s5 are nodes 0..4, t1..t5 are nodes 5..9; edges 0-7, 0-8, 1-5, 1-6,
  // 1-7, 1-9, 2-7, 3-5, 3-6, 3-9, 4-7, 4-8; starting matching {(1,7), (4,8)}; expected
  // cover [1, 3, 7, 8].

  function SecondGraph(): (r: Graph) {
    Graph([[7, 8], [5, 6, 7, 9], [7], [5, 6, 9], [7, 8], [1, 3], [1, 3], [0, 1, 2, 4], [0, 4], [1, 3]])
  }

  const SecondStart: set<Edge> := {(1, 7), (4, 8)}
  const SecondAugmented: set<Edge> := {(0, 7), (1, 5), (4, 8)}
  const SecondMaximum: set<Edge> := {(0, 7), (1, 6), (3, 5), (4, 8)}
  const SecondFinal: Colouring := Colouring({7, 8}, {0, 2, 4}, {2})

  lemma SecondNodes()
    ensures forall a, k :: 0 <= a < 10 && 0 <= k < |SecondGraph().adj[a]| ==> SecondGraph().adj[a][k] < 10
  {
  }

  lemma SecondSymmetric()
    ensures forall a, b :: 0 <= a < 10 && 0 <= b < 10 ==> (b in SecondGraph().adj[a] <==> a in SecondGraph().adj[b])
  {
  }

  lemma SecondSplit()
    ensures forall a, j :: 0 <= a < 10 && 0 <= j < |SecondGraph().adj[a]| ==> (a < 5 <==> SecondGraph().adj[a][j] >= 5)
  {
  }

  lemma SecondSplitAt()
    ensures ValidGraph(SecondGraph()) && SplitAt(SecondGraph(), 5)
  {
    SecondNodes();
    SecondSymmetric();
    SecondSplit();
  }

  lemma SecondListsMatch()
    ensures forall x: nat :: x in FiveUList <==> x < 5 && |SecondGraph().adj[x]| > 0
    ensures forall x: nat :: x in FiveVList <==> 5 <= x < 10 && |SecondGraph().adj[x]| > 0
  {
  }

  /** `bipartite_undirected` puts s1..s5 in `nodes_u` and t1..t5 in `nodes_v`. */
  lemma SecondSides()
    ensures BipartiteUndirected(SecondGraph()).value == BipartiteGraph(FiveUList, FiveVList)
  {
    SecondSplitAt();
    SecondListsMatch();
    FirstListsMatch();
    SplitGraphLists(SecondGraph(), 5, FiveUList, FiveVList);
  }

  lemma SecondStartIsMatching()
    ensures IsMatching(SecondStart) && Oriented(SecondStart, FiveU, FiveV)
  {
  }

  lemma SecondStartCovered()
    ensures Covered(SecondStart) == {1, 4, 7, 8}
  {
    assert (1, 7) in SecondStart && (4, 8) in SecondStart;
  }

  lemma SecondStartExposed()
    ensures FiveU - Covered(SecondStart) == {0, 2, 3} && FiveV - Covered(SecondStart) == {5, 6, 9}
  {
    SecondStartCovered();
    SecondStartLeft();
  }

  lemma SecondStartLeft()
    ensures FiveU - {1, 4, 7, 8} == {0, 2, 3} && FiveV - {1, 4, 7, 8} == {5, 6, 9}
  {
  }

  lemma SecondStartValid()
    ensures ValidMatching(SecondStart, SecondGraph(), FiveU, FiveV)
  {
    SecondStartIsMatching();
    assert IsEdge(SecondGraph(), 1, 7) && IsEdge(SecondGraph(), 4, 8);
  }

  lemma SecondAugmentedIsMatching()
    ensures IsMatching(SecondAugmented) && Oriented(SecondAugmented, FiveU, FiveV)
  {
  }

  lemma SecondAugmentedCovered()
    ensures Covered(SecondAugmented) == {0, 1, 4, 5, 7, 8}
  {
    assert (0, 7) in SecondAugmented && (1, 5) in SecondAugmented && (4, 8) in SecondAugmented;
  }

  lemma SecondAugmentedExposed()
    ensures FiveU - Covered(SecondAugmented) == {2, 3} && FiveV - Covered(SecondAugmented) == {6, 9}
  {
    SecondAugmentedCovered();
    SecondAugmentedLeft();
  }

  lemma SecondAugmentedLeft()
    ensures FiveU - {0, 1, 4, 5, 7, 8} == {2, 3} && FiveV - {0, 1, 4, 5, 7, 8} == {6, 9}
  {
  }

  lemma SecondAugmentedValid()
    ensures ValidMatching(SecondAugmented, SecondGraph(), FiveU, FiveV)
  {
    SecondAugmentedIsMatching();
    assert IsEdge(SecondGraph(), 0, 7) && IsEdge(SecondGraph(), 1, 5) && IsEdge(SecondGraph(), 4, 8);
  }

  lemma SecondMaximumIsMatching()
    ensures IsMatching(SecondMaximum) && Oriented(SecondMaximum, FiveU, FiveV)
  {
  }

  lemma SecondMaximumCovered()
    ensures Covered(SecondMaximum) == {0, 1, 3, 4, 5, 6, 7, 8}
  {
    assert (0, 7) in SecondMaximum && (1, 6) in SecondMaximum && (3, 5) in SecondMaximum && (4, 8) in SecondMaximum;
  }

  lemma SecondMaximumExposed()
    ensures FiveU - Covered(SecondMaximum) == {2} && FiveV - Covered(SecondMaximum) == {9}
  {
    SecondMaximumCovered();
    SecondMaximumLeft();
  }

  lemma SecondMaximumLeft()
    ensures FiveU - {0, 1, 3, 4, 5, 6, 7, 8} == {2} && FiveV - {0, 1, 3, 4, 5, 6, 7, 8} == {9}
  {
  }

  lemma SecondMaximumValid()
    ensures ValidMatching(SecondMaximum, SecondGraph(), FiveU, FiveV)
  {
    SecondMaximumIsMatching();
    assert IsEdge(SecondGraph(), 0, 7) && IsEdge(SecondGraph(), 1, 6) && IsEdge(SecondGraph(), 3, 5) && IsEdge(SecondGraph(), 4, 8);
  }

  // First pass, root s1 (node 0): t3 (node 7) is matched to s2 (node 1), whose neighbour
  // t1 (node 5) is exposed.

  const SecondRootZero: Colouring := Colouring({}, {0}, {})
  const SecondAfterZero: Colouring := Colouring({7}, {0, 1}, {0})

  lemma SecondRootZeroScan()
    ensures IsMatching(SecondStart)
    ensures ScanResult(SecondGraph(), SecondStart, {5, 6, 9}, 0, 0, {}) == Extended(7, 1, {7})
  {
    SecondStartIsMatching();
    ScanSkips(SecondGraph(), SecondStart, {5, 6, 9}, 0, 0, 7, {});
    MateOf(SecondStart, 1, 7);
  }

  lemma SecondRowOneScan()
    ensures IsMatching(SecondStart)
    ensures ScanResult(SecondGraph(), SecondStart, {5, 6, 9}, 1, 0, {7}) == ExposedNeighbour(5)
  {
    SecondStartIsMatching();
    ScanSkips(SecondGraph(), SecondStart, {5, 6, 9}, 1, 0, 5, {7});
  }

  lemma SecondFirstColours()
    ensures Colouring({7}, SecondRootZero.blue + {1}, SecondRootZero.scanned + {0}) == SecondAfterZero
    ensures [0] + [7, 1] == [0, 7, 1] && [0, 7, 1] + [5] == [0, 7, 1, 5]
  {
  }

  /** The tree of s1 reaches t3, then s2, whose neighbour t1 is exposed: the path s1-t3-s2-t1. */
  lemma SecondTreeZero()
    ensures && FiveU !! FiveV && ValidMatching(SecondStart, SecondGraph(), FiveU, FiveV)
            && FiveV - Covered(SecondStart) == {5, 6, 9}
            && ColouringInvariant(SecondStart, FiveU, FiveV, SecondRootZero)
            && IsTreeChain([0], SecondStart, SecondGraph(), FiveU, SecondRootZero)
            && TreeResult(SecondGraph(), SecondStart, FiveU, FiveV, {5, 6, 9}, 0, [0], [0], SecondRootZero)
               == AugmentingPath([0, 7, 1, 5])
  {
    var g, m, u, v := SecondGraph(), SecondStart, FiveU, FiveV;
    FiveElems();
    SecondStartValid();
    SecondStartExposed();
    RootOnly(0);
    RootStarts(g, m, u, v, Uncoloured, 0);
    SecondRootZeroScan();
    SecondRowOneScan();
    SecondFirstColours();
    TreeStepExtended(g, m, u, v, {5, 6, 9}, 0, [0], 0, SecondRootZero, {}, 7, 1, {7});
    TreeStepExposed(g, m, u, v, {5, 6, 9}, 0, [0, 7, 1], 1, SecondAfterZero, {7}, 5);
  }

  lemma SecondFirstPass()
    ensures && FiveU !! FiveV && ValidMatching(SecondStart, SecondGraph(), FiveU, FiveV)
            && ColouringInvariant(SecondStart, FiveU, FiveV, Uncoloured)
            && PassResult(SecondGraph(), SecondStart, FiveU, FiveV, FiveU - Covered(SecondStart),
                          FiveV - Covered(SecondStart), 0, Uncoloured) == Augmented([0, 7, 1, 5])
  {
    SecondTreeZero();
    SecondStartExposed();
    RootOnly(0);
    PassRootPath(SecondGraph(), SecondStart, FiveU, FiveV, {0, 2, 3}, {5, 6, 9}, 0, Uncoloured, [0, 7, 1, 5]);
  }

  /** Augmenting along s1-t3-s2-t1 swaps s2-t3 for s1-t3 and s2-t1. */
  lemma SecondFirstAugment()
    ensures SymmetricDifference(SecondStart, PathEdges([0, 7, 1, 5], FiveV)) == SecondAugmented
  {
    var p: seq<nat> := [0, 7, 1, 5];
    assert PathStep(p, 0, FiveV) == (0, 7) && PathStep(p, 1, FiveV) == (1, 7) && PathStep(p, 2, FiveV) == (1, 5);
    assert PathEdges(p, FiveV) == {(0, 7), (1, 7), (1, 5)};
  }

  // The tree of s3 (node 2), on the second and on the third pass: t3 (node 7) is matched to
  // s1 (node 0), t4 (node 8) to s5 (node 4), and s5 has no neighbour left.

  const SecondRootTwo: Colouring := Colouring({}, {2}, {})
  const SecondAfterSeven: Colouring := Colouring({7}, {0, 2}, {2})

  lemma SecondTreeColours()
    ensures Colouring({7}, SecondRootTwo.blue + {0}, SecondRootTwo.scanned + {2}) == SecondAfterSeven
    ensures Colouring({7, 8}, SecondAfterSeven.blue + {4}, SecondAfterSeven.scanned + {2}) == SecondFinal
    ensures [2] + [7, 0] == [2, 7, 0] && [2, 7, 0] + [8, 4] == [2, 7, 0, 8, 4]
    ensures SecondFinal.(red := {7, 8}) == SecondFinal
  {
  }

  // The scans of the tree of s3 under a matching `m` that pairs s1-t3 and s5-t4.

  lemma SecondRootTwoScan(m: set<Edge>, exposedV: set<nat>)
    requires IsMatching(m) && (0, 7) in m && 7 !in exposedV
    ensures ScanResult(SecondGraph(), m, exposedV, 2, 0, {}) == Extended(7, 0, {7})
  {
    ScanSkips(SecondGraph(), m, exposedV, 2, 0, 7, {});
    MateOf(m, 0, 7);
  }

  lemma SecondRowZeroScan(m: set<Edge>, exposedV: set<nat>)
    requires IsMatching(m) && (4, 8) in m && 7 !in exposedV && 8 !in exposedV
    ensures ScanResult(SecondGraph(), m, exposedV, 0, 0, {7}) == Extended(8, 4, {7, 8})
  {
    ScanSkips(SecondGraph(), m, exposedV, 0, 0, 8, {7});
    MateOf(m, 4, 8);
  }

  lemma SecondRowFourScan(m: set<Edge>, exposedV: set<nat>)
    requires IsMatching(m) && 7 !in exposedV && 8 !in exposedV
    ensures ScanResult(SecondGraph(), m, exposedV, 4, 0, {7, 8}) == Exhausted({7, 8})
  {
    ScanSkips(SecondGraph(), m, exposedV, 4, 0, 10, {7, 8});
  }

  /**
   * Under a matching `m` that pairs s1-t3 and s5-t4, the tree of s3 grows to s3, t3, s1,
   * t4, s5 and ends without a path.
   */
  lemma SecondTreeTwo(m: set<Edge>, exposedV: set<nat>)
    requires ValidMatching(m, SecondGraph(), FiveU, FiveV) && exposedV == FiveV - Covered(m)
    requires (0, 7) in m && (4, 8) in m && 2 !in Covered(m)
    ensures && FiveU !! FiveV
            && ColouringInvariant(m, FiveU, FiveV, SecondRootTwo)
            && IsTreeChain([2], m, SecondGraph(), FiveU, SecondRootTwo)
            && TreeResult(SecondGraph(), m, FiveU, FiveV, exposedV, 2, [2], [2], SecondRootTwo)
               == NoPath(SecondFinal)
  {
    var g, u, v := SecondGraph(), FiveU, FiveV;
    FiveElems();
    RootOnly(2);
    RootStarts(g, m, u, v, Uncoloured, 2);
    SecondRootTwoScan(m, exposedV);
    SecondTreeColours();
    TreeStepExtended(g, m, u, v, exposedV, 2, [2], 2, SecondRootTwo, {}, 7, 0, {7});
    SecondTreeTwoRest(m, exposedV);
  }

  /** From s1 on, the tree of s3 reaches t4 and s5 and ends there. */
  lemma SecondTreeTwoRest(m: set<Edge>, exposedV: set<nat>)
    requires ValidMatching(m, SecondGraph(), FiveU, FiveV) && exposedV == FiveV - Covered(m)
    requires (0, 7) in m && (4, 8) in m
    requires FiveU !! FiveV && ColouringInvariant(m, FiveU, FiveV, SecondAfterSeven)
    requires IsTreeChain([2, 7, 0], m, SecondGraph(), FiveU, SecondAfterSeven)
    ensures TreeResult(SecondGraph(), m, FiveU, FiveV, exposedV, 2, [0], [2, 7, 0], SecondAfterSeven)
            == NoPath(SecondFinal)
  {
    var g, u, v := SecondGraph(), FiveU, FiveV;
    SecondRowZeroScan(m, exposedV);
    SecondRowFourScan(m, exposedV);
    SecondTreeColours();
    TreeStepExtended(g, m, u, v, exposedV, 2, [2, 7, 0], 0, SecondAfterSeven, {7}, 8, 4, {7, 8});
    TreeStepExhausted(g, m, u, v, exposedV, 2, [2, 7, 0, 8, 4], 4, SecondFinal, {7, 8}, {7, 8});
  }

  // Second pass, root s4 (node 3), after the tree of s3: t1 (node 5) is matched to s2
  // (node 1), whose neighbour t2 (node 6) is exposed.

  const SecondRootThree: Colouring := Colouring({7, 8}, {0, 2, 3, 4}, {2})
  const SecondAfterFive: Colouring := Colouring({5, 7, 8}, {0, 1, 2, 3, 4}, {2, 3})

  lemma SecondRootThreeScan()
    ensures IsMatching(SecondAugmented)
    ensures ScanResult(SecondGraph(), SecondAugmented, {6, 9}, 3, 0, {7, 8}) == Extended(5, 1, {5, 7, 8})
  {
    SecondAugmentedIsMatching();
    ScanSkips(SecondGraph(), SecondAugmented, {6, 9}, 3, 0, 5, {7, 8});
    MateOf(SecondAugmented, 1, 5);
  }

  lemma SecondRowOneRescan()
    ensures IsMatching(SecondAugmented)
    ensures ScanResult(SecondGraph(), SecondAugmented, {6, 9}, 1, 0, {5, 7, 8}) == ExposedNeighbour(6)
  {
    SecondAugmentedIsMatching();
    ScanSkips(SecondGraph(), SecondAugmented, {6, 9}, 1, 0, 6, {5, 7, 8});
  }

  lemma SecondThreeColours()
    ensures SecondFinal.(blue := SecondFinal.blue + {3}) == SecondRootThree
    ensures Colouring({5, 7, 8}, SecondRootThree.blue + {1}, SecondRootThree.scanned + {3}) == SecondAfterFive
    ensures [3] + [5, 1] == [3, 5, 1] && [3, 5, 1] + [6] == [3, 5, 1, 6]
  {
  }

  /** The tree of s4 reaches t1, then s2, whose neighbour t2 is exposed: the path s4-t1-s2-t2. */
  lemma SecondTreeThree()
    ensures && FiveU !! FiveV && ValidMatching(SecondAugmented, SecondGraph(), FiveU, FiveV)
            && FiveV - Covered(SecondAugmented) == {6, 9}
            && ColouringInvariant(SecondAugmented, FiveU, FiveV, SecondFinal)
            && ColouringInvariant(SecondAugmented, FiveU, FiveV, SecondRootThree)
            && IsTreeChain([3], SecondAugmented, SecondGraph(), FiveU, SecondRootThree)
            && TreeResult(SecondGraph(), SecondAugmented, FiveU, FiveV, {6, 9}, 3, [3], [3], SecondRootThree)
               == AugmentingPath([3, 5, 1, 6])
  {
    var g, m, u, v := SecondGraph(), SecondAugmented, FiveU, FiveV;
    FiveElems();
    SecondAugmentedValid();
    SecondAugmentedExposed();
    SecondAugmentedCovered();
    SecondTreeTwo(m, {6, 9});
    SecondThreeColours();
    RootStarts(g, m, u, v, SecondFinal, 3);
    SecondRootThreeScan();
    SecondRowOneRescan();
    TreeStepExtended(g, m, u, v, {6, 9}, 3, [3], 3, SecondRootThree, {7, 8}, 5, 1, {5, 7, 8});
    TreeStepExposed(g, m, u, v, {6, 9}, 3, [3, 5, 1], 1, SecondAfterFive, {5, 7, 8}, 6);
  }

  /** Second pass: s1 and s2 are matched, s3 finds no path, s4 finds s4-t1-s2-t2. */
  lemma SecondSecondPass()
    ensures && FiveU !! FiveV && ValidMatching(SecondAugmented, SecondGraph(), FiveU, FiveV)
            && ColouringInvariant(SecondAugmented, FiveU, FiveV, Uncoloured)
            && PassResult(SecondGraph(), SecondAugmented, FiveU, FiveV, FiveU - Covered(SecondAugmented),
                          FiveV - Covered(SecondAugmented), 0, Uncoloured) == Augmented([3, 5, 1, 6])
  {
    var g, m, u, v := SecondGraph(), SecondAugmented, FiveU, FiveV;
    SecondAugmentedValid();
    SecondAugmentedExposed();
    SecondAugmentedCovered();
    SecondTreeTwo(m, {6, 9});
    SecondTreeThree();
    SecondThreeColours();
    RootOnly(2);
    PassRootPath(g, m, u, v, {2, 3}, {6, 9}, 3, SecondFinal, [3, 5, 1, 6]);
    PassRootNoPath(g, m, u, v, {2, 3}, {6, 9}, 2, Uncoloured, SecondFinal);
    PassSkips(g, m, u, v, {2, 3}, {6, 9}, 1, Uncoloured);
    PassSkips(g, m, u, v, {2, 3}, {6, 9}, 0, Uncoloured);
  }

  /** Augmenting along s4-t1-s2-t2 swaps s2-t1 for s4-t1 and s2-t2. */
  lemma SecondSecondAugment()
    ensures SymmetricDifference(SecondAugmented, PathEdges([3, 5, 1, 6], FiveV)) == SecondMaximum
  {
    var p: seq<nat> := [3, 5, 1, 6];
    assert PathStep(p, 0, FiveV) == (3, 5) && PathStep(p, 1, FiveV) == (1, 5) && PathStep(p, 2, FiveV) == (1, 6);
    assert PathEdges(p, FiveV) == {(3, 5), (1, 5), (1, 6)};
  }

  /** Third pass: s3 finds no path again, and no other s-node is exposed. */
  lemma SecondThirdPass()
    ensures && FiveU !! FiveV && ValidMatching(SecondMaximum, SecondGraph(), FiveU, FiveV)
            && ColouringInvariant(SecondMaximum, FiveU, FiveV, Uncoloured)
            && PassResult(SecondGraph(), SecondMaximum, FiveU, FiveV, FiveU - Covered(SecondMaximum),
                          FiveV - Covered(SecondMaximum), 0, Uncoloured) == Stopped(SecondFinal)
  {
    var g, m, u, v := SecondGraph(), SecondMaximum, FiveU, FiveV;
    SecondMaximumValid();
    SecondMaximumExposed();
    SecondMaximumCovered();
    SecondTreeTwo(m, {9});
    RootOnly(2);
    PassSkipsToEnd(g, m, u, v, {2}, {9}, 3, SecondFinal);
    PassRootNoPath(g, m, u, v, {2}, {9}, 2, Uncoloured, SecondFinal);
    PassSkips(g, m, u, v, {2}, {9}, 1, Uncoloured);
    PassSkips(g, m, u, v, {2}, {9}, 0, Uncoloured);
  }

  /** From the matching after the first augmentation: one more augmentation, then the stop. */
  lemma SecondSearchRest()
    ensures && |SecondGraph().adj| > 0 && FiveU !! FiveV
            && ValidMatching(SecondAugmented, SecondGraph(), FiveU, FiveV)
            && SearchResult(SecondGraph(), FiveU, FiveV, SecondAugmented, Uncoloured)
               == SearchOutcome(SecondFinal, SecondMaximum, [[3, 5, 1, 6]])
  {
    SecondSecondPass();
    SecondSecondAugment();
    SearchAugments(SecondGraph(), FiveU, FiveV, SecondAugmented, [3, 5, 1, 6], SecondMaximum);
    SecondThirdPass();
    SearchStops(SecondGraph(), FiveU, FiveV, SecondMaximum, SecondFinal);
    assert [[3, 5, 1, 6]] + [] == [[3, 5, 1, 6]];
  }

  /** The first pass augments along s1-t3-s2-t1, and the search goes on from the new matching. */
  lemma SecondSearchFirst()
    ensures && |SecondGraph().adj| > 0 && FiveU !! FiveV
            && ValidMatching(SecondStart, SecondGraph(), FiveU, FiveV)
            && ValidMatching(SecondAugmented, SecondGraph(), FiveU, FiveV)
    ensures var rest := SearchResult(SecondGraph(), FiveU, FiveV, SecondAugmented, Uncoloured);
      SearchResult(SecondGraph(), FiveU, FiveV, SecondStart, Uncoloured)
        == SearchOutcome(rest.col, rest.matching, [[0, 7, 1, 5]] + rest.paths)
  {
    SecondFirstPass();
    SecondFirstAugment();
    SearchAugments(SecondGraph(), FiveU, FiveV, SecondStart, [0, 7, 1, 5], SecondAugmented);
  }

  lemma SecondSearch()
    ensures && |SecondGraph().adj| > 0 && FiveU !! FiveV
            && ValidMatching(SecondStart, SecondGraph(), FiveU, FiveV)
            && SearchResult(SecondGraph(), FiveU, FiveV, SecondStart, Uncoloured)
               == SearchOutcome(SecondFinal, SecondMaximum, [[0, 7, 1, 5], [3, 5, 1, 6]])
  {
    SecondSearchFirst();
    SecondSearchRest();
    SecondPaths();
  }

  lemma SecondPaths()
    ensures [[0, 7, 1, 5]] + [[3, 5, 1, 6]] == [[0, 7, 1, 5], [3, 5, 1, 6]]
  {
  }

  lemma SecondCoverU()
    ensures Outside(FiveUList, SecondFinal.blue) == [1, 3]
  {
    OutsideFive(0, 1, 2, 3, 4, SecondFinal.blue);
  }

  lemma SecondCoverV()
    ensures Inside(FiveVList, SecondFinal.red) == [7, 8]
  {
    InsideFive(5, 6, 7, 8, 9, SecondFinal.red);
  }

  lemma SecondCover()
    ensures Outside(FiveUList, SecondFinal.blue) + Inside(FiveVList, SecondFinal.red) == [1, 3, 7, 8]
  {
    SecondCoverU();
    SecondCoverV();
  }

  /**
   * The second test: with the lists `bipartite_undirected` returns, the search returns the
   * expected cover [1, 3, 7, 8] (s2, s4, t3, t4) after two augmentations, along s1-t3-s2-t1
   * and then s4-t1-s2-t2.
   */
  lemma SecondTest()
    ensures && BipartiteUndirected(SecondGraph()).value == BipartiteGraph(FiveUList, FiveVList)
            && |SecondGraph().adj| > 0 && Elems(FiveUList) == FiveU && Elems(FiveVList) == FiveV
            && FiveU !! FiveV && ValidMatching(SecondStart, SecondGraph(), FiveU, FiveV)
            && HungarianResult(SecondGraph(), FiveUList, FiveVList, SecondStart) == ([1, 3, 7, 8], SecondMaximum)
  {
    SecondSides();
    FiveElems();
    SecondSearch();
    SecondCover();
    ResultOfSearch(SecondGraph(), FiveUList, FiveVList, FiveU, FiveV, SecondStart,
                   SecondFinal, SecondMaximum, [[0, 7, 1, 5], [3, 5, 1, 6]], [1, 3, 7, 8]);
  }

  // ---------------------------------------------------------------------------------
  // Third test: s1..s4 are nodes 0..3, t1..t4 are nodes 4..7; edges 0-5, 1-6, 1-7, 2-5,
  // 3-4, 3-5; starting matching {(0,5), (3,4)}; expected cover [1, 3, 5].

  function ThirdGraph(): (r: Graph) {
    Graph([[5], [6, 7], [5], [4, 5], [3], [0, 2, 3], [1], [1]])
  }

  const ThirdU: set<nat> := {0, 1, 2, 3}
  const ThirdV: set<nat> := {4, 5, 6, 7}
  const ThirdUList: seq<nat> := [0, 1, 2, 3]
  const ThirdVList: seq<nat> := [4, 5, 6, 7]
  const ThirdStart: set<Edge> := {(0, 5), (3, 4)}
  const ThirdAugmented: set<Edge> := {(0, 5), (3, 4), (1, 6)}
  const ThirdFinal: Colouring := Colouring({5}, {0, 2}, {2})

  lemma ThirdSplitAt()
    ensures ValidGraph(ThirdGraph()) && SplitAt(ThirdGraph(), 4)
  {
    ThirdNodes();
    ThirdSymmetric();
    ThirdSplit();
  }

  lemma ThirdNodes()
    ensures forall a, k :: 0 <= a < 8 && 0 <= k < |ThirdGraph().adj[a]| ==> ThirdGraph().adj[a][k] < 8
  {
  }

  lemma ThirdSymmetric()
    ensures forall a, b :: 0 <= a < 8 && 0 <= b < 8 ==> (b in ThirdGraph().adj[a] <==> a in ThirdGraph().adj[b])
  {
  }

  lemma ThirdSplit()
    ensures forall a, j :: 0 <= a < 8 && 0 <= j < |ThirdGraph().adj[a]| ==> (a < 4 <==> ThirdGraph().adj[a][j] >= 4)
  {
  }

  lemma ThirdListsMatch()
    ensures forall x: nat :: x in ThirdUList <==> x < 4 && |ThirdGraph().adj[x]| > 0
    ensures forall x: nat :: x in ThirdVList <==> 4 <= x < 8 && |ThirdGraph().adj[x]| > 0
    ensures Ascending(ThirdUList) && Ascending(ThirdVList)
  {
  }

  /** `bipartite_undirected` puts s1..s4 in `nodes_u` and t1..t4 in `nodes_v`. */
  lemma ThirdSides()
    ensures BipartiteUndirected(ThirdGraph()).value == BipartiteGraph(ThirdUList, ThirdVList)
  {
    ThirdSplitAt();
    ThirdListsMatch();
    SplitGraphLists(ThirdGraph(), 4, ThirdUList, ThirdVList);
  }

  lemma ThirdElems()
    ensures Elems(ThirdUList) == ThirdU && Elems(ThirdVList) == ThirdV && ThirdU !! ThirdV
  {
  }

  lemma ThirdStartIsMatching()
    ensures IsMatching(ThirdStart) && Oriented(ThirdStart, ThirdU, ThirdV)
  {
  }

  lemma ThirdStartCovered()
    ensures Covered(ThirdStart) == {0, 3, 4, 5}
  {
    assert (0, 5) in ThirdStart && (3, 4) in ThirdStart;
  }

  lemma ThirdStartValid()
    ensures ValidMatching(ThirdStart, ThirdGraph(), ThirdU, ThirdV)
    ensures Covered(ThirdStart) == {0, 3, 4, 5}
  {
    ThirdStartIsMatching();
    assert IsEdge(ThirdGraph(), 0, 5) && IsEdge(ThirdGraph(), 3, 4);
    ThirdStartCovered();
  }

  lemma ThirdAugmentedIsMatching()
    ensures IsMatching(ThirdAugmented) && Oriented(ThirdAugmented, ThirdU, ThirdV)
  {
  }

  lemma ThirdAugmentedInGraph()
    ensures InGraph(ThirdAugmented, ThirdGraph())
  {
    assert IsEdge(ThirdGraph(), 0, 5) && IsEdge(ThirdGraph(), 3, 4) && IsEdge(ThirdGraph(), 1, 6);
  }

  lemma ThirdAugmentedCovered()
    ensures Covered(ThirdAugmented) == {0, 1, 3, 4, 5, 6}
  {
    assert (0, 5) in ThirdAugmented && (3, 4) in ThirdAugmented && (1, 6) in ThirdAugmented;
  }

  lemma ThirdAugmentedExposed()
    ensures ThirdU - Covered(ThirdAugmented) == {2} && ThirdV - Covered(ThirdAugmented) == {7}
  {
    ThirdAugmentedCovered();
  }

  lemma ThirdAugmentedValid()
    ensures ValidMatching(ThirdAugmented, ThirdGraph(), ThirdU, ThirdV)
    ensures Covered(ThirdAugmented) == {0, 1, 3, 4, 5, 6}
  {
    ThirdAugmentedIsMatching();
    ThirdAugmentedInGraph();
    ThirdAugmentedCovered();
  }

  const ThirdFirstRoot: Colouring := Colouring({}, {1}, {})
  const ThirdSecondRoot: Colouring := Colouring({}, {2}, {})

  lemma ThirdFirstScan()
    ensures IsMatching(ThirdStart)
    ensures ScanResult(ThirdGraph(), ThirdStart, {6, 7}, 1, 0, {}) == ExposedNeighbour(6)
  {
    ThirdStartValid();
    ScanSkips(ThirdGraph(), ThirdStart, {6, 7}, 1, 0, 6, {});
  }

  lemma ThirdFirstRooted()
    ensures ColouringInvariant(ThirdStart, ThirdU, ThirdV, Uncoloured)
    ensures ColouringInvariant(ThirdStart, ThirdU, ThirdV, ThirdFirstRoot)
  {
  }

  lemma ThirdFirstChain()
    ensures IsTreeChain([1], ThirdStart, ThirdGraph(), ThirdU, ThirdFirstRoot)
  {
    ThirdStartCovered();
    assert Distinct([1]);
  }

  lemma ThirdPaths()
    ensures [1] + [6] == [1, 6] && [[1, 6]] + [] == [[1, 6]]
  {
  }

  lemma ThirdStartExposed()
    ensures ThirdU - Covered(ThirdStart) == {1, 2} && ThirdV - Covered(ThirdStart) == {6, 7}
  {
    ThirdStartCovered();
  }

  /** At node 1, the root s2, the tree finds the exposed neighbour t3 (node 6). */
  lemma ThirdFirstRootPass()
    ensures && ThirdU !! ThirdV && ValidMatching(ThirdStart, ThirdGraph(), ThirdU, ThirdV)
            && ThirdU - Covered(ThirdStart) == {1, 2} && ThirdV - Covered(ThirdStart) == {6, 7}
            && ColouringInvariant(ThirdStart, ThirdU, ThirdV, Uncoloured)
            && PassResult(ThirdGraph(), ThirdStart, ThirdU, ThirdV, {1, 2}, {6, 7}, 1, Uncoloured) == Augmented([1, 6])
  {
    ThirdPaths();
    ThirdElems();
    ThirdStartValid();
    ThirdStartExposed();
    ThirdFirstScan();
    ThirdFirstRooted();
    ThirdFirstChain();
    TreeStepExposed(ThirdGraph(), ThirdStart, ThirdU, ThirdV, {6, 7}, 1, [1], 1, ThirdFirstRoot, {}, 6);
    RootOnly(1);
    PassRootPath(ThirdGraph(), ThirdStart, ThirdU, ThirdV, {1, 2}, {6, 7}, 1, Uncoloured, [1, 6]);
  }

  /** First pass: node 0 is matched, so the pass goes on to the root s2 (node 1). */
  lemma ThirdFirstPass()
    ensures && ThirdU !! ThirdV && ValidMatching(ThirdStart, ThirdGraph(), ThirdU, ThirdV)
            && ColouringInvariant(ThirdStart, ThirdU, ThirdV, Uncoloured)
            && PassResult(ThirdGraph(), ThirdStart, ThirdU, ThirdV, ThirdU - Covered(ThirdStart),
                          ThirdV - Covered(ThirdStart), 0, Uncoloured) == Augmented([1, 6])
  {
    ThirdFirstRootPass();
    PassSkips(ThirdGraph(), ThirdStart, ThirdU, ThirdV, {1, 2}, {6, 7}, 0, Uncoloured);
  }

  /** Augmenting along s2-t3 adds that edge to the matching. */
  lemma ThirdAugment()
    ensures SymmetricDifference(ThirdStart, PathEdges([1, 6], ThirdV)) == ThirdAugmented
  {
    assert PathStep([1, 6], 0, ThirdV) == (1, 6);
    assert PathEdges([1, 6], ThirdV) == {(1, 6)};
  }

  /** Second pass, root s3 (node 2): its neighbour t2 (node 5) is matched to s1 (node 0). */
  lemma ThirdSecondScan()
    ensures IsMatching(ThirdAugmented)
    ensures ScanResult(ThirdGraph(), ThirdAugmented, {7}, 2, 0, {}) == Extended(5, 0, {5})
  {
    ThirdMateOfT2();
    ScanSkips(ThirdGraph(), ThirdAugmented, {7}, 2, 0, 5, {});
  }

  lemma ThirdMateOfT2()
    ensures IsMatching(ThirdAugmented) && Mate(ThirdAugmented, 5) == Some(0)
  {
    ThirdAugmentedIsMatching();
    assert (0, 5) in ThirdAugmented;
  }

  /** s1 has no neighbour but the red t2. */
  lemma ThirdSecondRescan()
    ensures IsMatching(ThirdAugmented)
    ensures ScanResult(ThirdGraph(), ThirdAugmented, {7}, 0, 0, {5}) == Exhausted({5})
  {
    ThirdAugmentedIsMatching();
    ScanSkips(ThirdGraph(), ThirdAugmented, {7}, 0, 0, 8, {5});
  }

  lemma ThirdSecondRooted()
    ensures ColouringInvariant(ThirdAugmented, ThirdU, ThirdV, Uncoloured)
    ensures ColouringInvariant(ThirdAugmented, ThirdU, ThirdV, ThirdSecondRoot)
  {
  }

  lemma ThirdSecondChainRoot()
    ensures IsTreeChain([2], ThirdAugmented, ThirdGraph(), ThirdU, ThirdSecondRoot)
  {
    ThirdAugmentedCovered();
    assert Distinct([2]);
  }

  lemma ThirdSecondColours()
    ensures Colouring({5}, ThirdSecondRoot.blue + {0}, ThirdSecondRoot.scanned + {2}) == ThirdFinal
    ensures [2] + [5, 0] == [2, 5, 0] && ThirdFinal.(red := {5}) == ThirdFinal
  {
  }

  lemma ThirdSecondColouring()
    ensures ColouringInvariant(ThirdAugmented, ThirdU, ThirdV, ThirdFinal)
  {
    ThirdAugmentedCovered();
  }

  lemma ThirdSecondChain()
    ensures IsTreeChain([2, 5, 0], ThirdAugmented, ThirdGraph(), ThirdU, ThirdFinal)
  {
    ThirdAugmentedCovered();
    var chain: seq<nat> := [2, 5, 0];
    assert chain[0] !in Covered(ThirdAugmented);
    assert IsEdge(ThirdGraph(), 2, 5);
    assert MatchedEdge(chain, 0) == (0, 5) && (0, 5) in ThirdAugmented;
    assert chain[0] in ThirdFinal.blue && chain[2] in ThirdFinal.blue && chain[1] in ThirdFinal.red;
    assert Distinct(chain);
  }

  /** After s1 the tree has no node left to scan and ends without a path. */
  lemma ThirdSecondTreeEnd()
    ensures && ThirdU !! ThirdV && ValidMatching(ThirdAugmented, ThirdGraph(), ThirdU, ThirdV)
            && ThirdV - Covered(ThirdAugmented) == {7}
            && ColouringInvariant(ThirdAugmented, ThirdU, ThirdV, ThirdFinal)
            && IsTreeChain([2, 5, 0], ThirdAugmented, ThirdGraph(), ThirdU, ThirdFinal)
            && TreeResult(ThirdGraph(), ThirdAugmented, ThirdU, ThirdV, {7}, 2, [0], [2, 5, 0], ThirdFinal)
               == NoPath(ThirdFinal)
  {
    ThirdElems();
    ThirdAugmentedValid();
    ThirdSecondColouring();
    ThirdSecondChain();
    ThirdSecondRescan();
    ThirdSecondColours();
    ThirdAugmentedExposed();
    TreeStepExhausted(ThirdGraph(), ThirdAugmented, ThirdU, ThirdV, {7}, 2, [2, 5, 0], 0, ThirdFinal, {5}, {5});
  }

  /** The tree of s3 grows to s3, t2, s1 and ends without a path. */
  lemma ThirdSecondTree()
    ensures && ThirdU !! ThirdV && ValidMatching(ThirdAugmented, ThirdGraph(), ThirdU, ThirdV)
            && ThirdV - Covered(ThirdAugmented) == {7}
            && ColouringInvariant(ThirdAugmented, ThirdU, ThirdV, ThirdSecondRoot)
            && IsTreeChain([2], ThirdAugmented, ThirdGraph(), ThirdU, ThirdSecondRoot)
            && TreeResult(ThirdGraph(), ThirdAugmented, ThirdU, ThirdV, {7}, 2, [2], [2], ThirdSecondRoot)
               == NoPath(ThirdFinal)
  {
    ThirdSecondRooted();
    ThirdSecondChainRoot();
    ThirdSecondScan();
    ThirdSecondColours();
    ThirdSecondTreeEnd();
    TreeStepExtended(ThirdGraph(), ThirdAugmented, ThirdU, ThirdV, {7}, 2, [2], 2, ThirdSecondRoot, {}, 5, 0, {5});
  }

  /** Second pass: no root after s3, so the pass stops with the colours of the tree of s3. */
  lemma ThirdSecondPass()
    ensures && ThirdU !! ThirdV && ValidMatching(ThirdAugmented, ThirdGraph(), ThirdU, ThirdV)
            && ColouringInvariant(ThirdAugmented, ThirdU, ThirdV, Uncoloured)
            && PassResult(ThirdGraph(), ThirdAugmented, ThirdU, ThirdV, ThirdU - Covered(ThirdAugmented),
                          ThirdV - Covered(ThirdAugmented), 0, Uncoloured) == Stopped(ThirdFinal)
  {
    ThirdAugmentedValid();
    ThirdSecondRooted();
    ThirdSecondChainRoot();
    ThirdSecondTree();
    var g, m, u, v := ThirdGraph(), ThirdAugmented, ThirdU, ThirdV;
    ThirdAugmentedExposed();
    RootOnly(2);
    PassRootNoPath(g, m, u, v, {2}, {7}, 2, Uncoloured, ThirdFinal);
    PassSkipsToEnd(g, m, u, v, {2}, {7}, 3, ThirdFinal);
    PassSkips(g, m, u, v, {2}, {7}, 1, Uncoloured);
    PassSkips(g, m, u, v, {2}, {7}, 0, Uncoloured);
  }

  lemma ThirdSearch()
    ensures && |ThirdGraph().adj| > 0 && ThirdU !! ThirdV
            && ValidMatching(ThirdStart, ThirdGraph(), ThirdU, ThirdV)
            && SearchResult(ThirdGraph(), ThirdU, ThirdV, ThirdStart, Uncoloured)
               == SearchOutcome(ThirdFinal, ThirdAugmented, [[1, 6]])
  {
    ThirdFirstPass();
    ThirdAugment();
    SearchAugments(ThirdGraph(), ThirdU, ThirdV, ThirdStart, [1, 6], ThirdAugmented);
    ThirdSecondPass();
    SearchStops(ThirdGraph(), ThirdU, ThirdV, ThirdAugmented, ThirdFinal);
    ThirdPaths();
  }

  lemma ThirdCoverU()
    ensures Outside(ThirdUList, ThirdFinal.blue) == [1, 3]
  {
    OutsideFour(0, 1, 2, 3, ThirdFinal.blue);
    assert 0 in ThirdFinal.blue && 1 !in ThirdFinal.blue && 2 in ThirdFinal.blue && 3 !in ThirdFinal.blue;
    assert [] + [1] + [] + [3] == [1, 3];
  }

  lemma ThirdCoverV()
    ensures Inside(ThirdVList, ThirdFinal.red) == [5]
  {
    InsideFour(4, 5, 6, 7, ThirdFinal.red);
  }

  lemma ThirdCover()
    ensures Outside(ThirdUList, ThirdFinal.blue) + Inside(ThirdVList, ThirdFinal.red) == [1, 3, 5]
  {
    ThirdCoverU();
    ThirdCoverV();
  }

  /**
   * The third test: with the lists `bipartite_undirected` returns, the search returns the
   * expected cover [1, 3, 5] (s2, s4, t2) and the matching {s1-t2, s4-t1, s2-t3}.
   */
  lemma ThirdTest()
    ensures && BipartiteUndirected(ThirdGraph()).value == BipartiteGraph(ThirdUList, ThirdVList)
            && |ThirdGraph().adj| > 0 && Elems(ThirdUList) == ThirdU && Elems(ThirdVList) == ThirdV
            && ThirdU !! ThirdV && ValidMatching(ThirdStart, ThirdGraph(), ThirdU, ThirdV)
            && HungarianResult(ThirdGraph(), ThirdUList, ThirdVList, ThirdStart) == ([1, 3, 5], ThirdAugmented)
  {
    ThirdSides();
    ThirdElems();
    ThirdSearch();
    ThirdCover();
    ResultOfSearch(ThirdGraph(), ThirdUList, ThirdVList, ThirdU, ThirdV, ThirdStart,
                   ThirdFinal, ThirdAugmented, [[1, 6]], [1, 3, 5]);
  }
}
