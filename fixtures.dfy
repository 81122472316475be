/**
 * The search of `hungarian_maximum_matching` evaluated on concrete graphs: a six-node graph
 * on which the search as written returns a cover that misses an edge together with a
 * matching that is not maximum, and the three graphs of the repository's tests.
 *
 * Each evaluation is staged: one lemma per scan, tree and pass, so that each step unfolds
 * only a few levels of the functions.
 */
module HungarianFixtures {
  import opened Collections
  import opened Graphs
  import opened Hungarian
  import opened HungarianFixed

  /** The search's returned cover and matching, read off a known search outcome. */
  lemma ResultOfSearch(g: Graph, nodesU: seq<nat>, nodesV: seq<nat>, u: set<nat>, v: set<nat>, m: set<Edge>,
                       col: Colouring, m': set<Edge>, paths: seq<seq<nat>>, cover: seq<nat>)
    requires Elems(nodesU) == u && Elems(nodesV) == v
    requires |g.adj| > 0 && u !! v && ValidMatching(m, g, u, v)
    requires SearchResult(g, u, v, m, Uncoloured) == SearchOutcome(col, m', paths)
    requires Outside(nodesU, col.blue) + Inside(nodesV, col.red) == cover
    ensures HungarianResult(g, nodesU, nodesV, m) == (cover, m')
  {
  }

  /** The V-end of an edge of a matching has the U-end as its mate. */
  lemma MateOf(m: set<Edge>, x: nat, w: nat)
    requires IsMatching(m) && (x, w) in m
    ensures Mate(m, w) == Some(x)
  {
  }

  /** Colouring an exposed U-node blue keeps the invariant and starts a one-node chain. */
  lemma RootStarts(g: Graph, m: set<Edge>, u: set<nat>, v: set<nat>, col: Colouring, k: nat)
    requires ColouringInvariant(m, u, v, col)
    requires k < |g.adj| && k in u && k !in Covered(m)
    ensures ColouringInvariant(m, u, v, col.(blue := col.blue + {k}))
    ensures IsTreeChain([k], m, g, u, col.(blue := col.blue + {k}))
  {
    var col' := col.(blue := col.blue + {k});
    forall e | e in m && e.0 in col'.blue ensures e.1 in col'.red {
      assert e.0 in Covered(m);
    }
    var chain := [k];
    assert |chain| / 2 == 0 && |chain| % 2 == 1;
    assert forall j :: 0 <= j <= |chain| / 2 ==> chain[2 * j] == k;
    assert Distinct(chain);
  }

  /** Colouring the root k blue from no colours leaves k the only coloured node. */
  lemma RootOnly(k: nat)
    ensures Uncoloured.(blue := Uncoloured.blue + {k}) == Colouring({}, {k}, {})
  {
  }

  /** A search whose first pass stops ends with that pass's colouring and the matching unchanged. */
  lemma SearchStops(g: Graph, u: set<nat>, v: set<nat>, m: set<Edge>, col: Colouring)
    requires |g.adj| > 0 && u !! v && ValidMatching(m, g, u, v)
    requires ColouringInvariant(m, u, v, Uncoloured)
    requires PassResult(g, m, u, v, u - Covered(m), v - Covered(m), 0, Uncoloured) == Stopped(col)
    ensures SearchResult(g, u, v, m, Uncoloured) == SearchOutcome(col, m, [])
  {
  }

  /** A search whose first pass finds `path` goes on from the augmented matching. */
  lemma SearchAugments(g: Graph, u: set<nat>, v: set<nat>, m: set<Edge>, path: seq<nat>, m': set<Edge>)
    requires |g.adj| > 0 && u !! v && ValidMatching(m, g, u, v)
    requires ColouringInvariant(m, u, v, Uncoloured)
    requires PassResult(g, m, u, v, u - Covered(m), v - Covered(m), 0, Uncoloured) == Augmented(path)
    requires m' == SymmetricDifference(m, PathEdges(path, v))
    ensures ValidMatching(m', g, u, v) && ColouringInvariant(m', u, v, Uncoloured)
    ensures var rest := SearchResult(g, u, v, m', Uncoloured);
      SearchResult(g, u, v, m, Uncoloured) == SearchOutcome(rest.col, rest.matching, [path] + rest.paths)
  {
    AugmentCoversRoot(path, m, g, u, v);
  }

  /** Identifiers that are not neighbours of `s`, or red neighbours that are not exposed, are passed over. */
  lemma {:induction false} ScanSkips(g: Graph, m: set<Edge>, exposedV: set<nat>, s: nat, from: nat, to: nat, red: set<nat>)
    requires IsMatching(m) && s < |g.adj| && from <= to <= |g.adj|
    requires forall x :: from <= x < to ==> !IsEdge(g, s, x) || (x !in exposedV && x in red)
    ensures ScanResult(g, m, exposedV, s, from, red) == ScanResult(g, m, exposedV, s, to, red)
    decreases (to as int) - from
  {
    if from < to {
      ScanSkips(g, m, exposedV, s, from + 1, to, red);
    }
  }

  /** The last node `s` of the chain, scanned and finding an exposed neighbour, completes a path. */
  lemma TreeStepExposed(g: Graph, m: set<Edge>, u: set<nat>, v: set<nat>, exposedV: set<nat>, root: nat,
                        chain: seq<nat>, s: nat, col: Colouring, red: set<nat>, w: nat)
    requires u !! v && ValidMatching(m, g, u, v) && exposedV == v - Covered(m)
    requires ColouringInvariant(m, u, v, col) && IsTreeChain(chain, m, g, u, col)
    requires chain[|chain| - 1] == s && s < |g.adj| && s !in col.scanned && col.red == red
    requires ScanResult(g, m, exposedV, s, 0, red) == ExposedNeighbour(w)
    ensures TreeResult(g, m, u, v, exposedV, root, [s], chain, col) == AugmentingPath(chain + [w])
  {
    assert chain[|chain| - 1] == chain[2 * (|chain| / 2)];
  }

  /** The last node `s` of the chain, scanned and reaching a matched neighbour, extends the chain. */
  lemma TreeStepExtended(g: Graph, m: set<Edge>, u: set<nat>, v: set<nat>, exposedV: set<nat>, root: nat,
                         chain: seq<nat>, s: nat, col: Colouring, red: set<nat>, w: nat, mate: nat, red': set<nat>)
    requires u !! v && ValidMatching(m, g, u, v) && exposedV == v - Covered(m)
    requires ColouringInvariant(m, u, v, col) && IsTreeChain(chain, m, g, u, col)
    requires chain[|chain| - 1] == s && s < |g.adj| && s !in col.scanned && col.red == red
    requires ScanResult(g, m, exposedV, s, 0, red) == Extended(w, mate, red')
    ensures ColouringInvariant(m, u, v, Colouring(red', col.blue + {mate}, col.scanned + {root}))
    ensures IsTreeChain(chain + [w, mate], m, g, u, Colouring(red', col.blue + {mate}, col.scanned + {root}))
    ensures TreeResult(g, m, u, v, exposedV, root, [s], chain, col)
         == TreeResult(g, m, u, v, exposedV, root, [mate], chain + [w, mate],
                       Colouring(red', col.blue + {mate}, col.scanned + {root}))
  {
    var col' := Colouring(red', col.blue + {mate}, col.scanned + {root});
    assert chain[|chain| - 1] == chain[2 * (|chain| / 2)];
    ColouringExtends(m, u, v, col, red', w, mate);
    ChainExtends(chain, w, mate, m, g, u, v, col, col');
    assert [s][1..] + [mate] == [mate];
  }

  /** The last node `s` of the chain, scanned without reaching a matched neighbour, ends the tree. */
  lemma TreeStepExhausted(g: Graph, m: set<Edge>, u: set<nat>, v: set<nat>, exposedV: set<nat>, root: nat,
                          chain: seq<nat>, s: nat, col: Colouring, red: set<nat>, red': set<nat>)
    requires u !! v && ValidMatching(m, g, u, v) && exposedV == v - Covered(m)
    requires ColouringInvariant(m, u, v, col) && IsTreeChain(chain, m, g, u, col)
    requires chain[|chain| - 1] == s && s < |g.adj| && s !in col.scanned && col.red == red
    requires ScanResult(g, m, exposedV, s, 0, red) == Exhausted(red')
    ensures TreeResult(g, m, u, v, exposedV, root, [s], chain, col) == NoPath(col.(red := red'))
  {
    assert chain[|chain| - 1] == chain[2 * (|chain| / 2)];
    ColouringExhausted(m, u, v, col, red');
    ChainRecoloured(chain, m, g, u, col, col.(red := red'));
  }

  // ---------------------------------------------------------------------------------
  // Six nodes: U = {0, 1, 2}, V = {3, 4, 5}, edges 0-3, 0-4, 1-3, 2-4, 2-5,
  // starting matching {(1,3), (2,4)}.

  function SixNodes(): (r: Graph) {
    Graph([[3, 4], [3], [4, 5], [0, 1], [0, 2], [2]])
  }

  const SixU: set<nat> := {0, 1, 2}
  const SixV: set<nat> := {3, 4, 5}
  const SixMatching: set<Edge> := {(1, 3), (2, 4)}
  const SixUList: seq<nat> := [0, 1, 2]
  const SixVList: seq<nat> := [3, 4, 5]
  const SixRooted: Colouring := Colouring({}, {0}, {})
  const SixFinal: Colouring := Colouring({3}, {0, 1}, {0})

  lemma SixValid()
    ensures ValidGraph(SixNodes()) && Bipartition(SixNodes(), SixU, SixV)
  {
    SixBelow();
    SixSymmetric();
    SixSides();
  }

  lemma SixBelow()
    ensures forall a, k :: 0 <= a < 6 && 0 <= k < |SixNodes().adj[a]| ==> SixNodes().adj[a][k] < 6
  {
  }

  lemma SixSymmetric()
    ensures forall a, b :: 0 <= a < 6 && 0 <= b < 6 ==> (b in SixNodes().adj[a] <==> a in SixNodes().adj[b])
  {
  }

  lemma SixSides()
    ensures forall a, j :: 0 <= a < 6 && 0 <= j < |SixNodes().adj[a]| ==> (a < 3 <==> SixNodes().adj[a][j] >= 3)
  {
  }

  lemma SixCovered()
    ensures Covered(SixMatching) == {1, 2, 3, 4}
  {
    assert (1, 3) in SixMatching && (2, 4) in SixMatching;
  }

  lemma SixExposed()
    ensures SixU - Covered(SixMatching) == {0} && SixV - Covered(SixMatching) == {5}
  {
    SixCovered();
  }

  lemma SixMatchingValid()
    ensures ValidMatching(SixMatching, SixNodes(), SixU, SixV) && SixU !! SixV
  {
    assert IsEdge(SixNodes(), 1, 3) && IsEdge(SixNodes(), 2, 4);
  }

  /** Scanning the root 0 stops at its first neighbour 3, whose mate is 1. */
  lemma SixScanRoot()
    ensures ScanResult(SixNodes(), SixMatching, {5}, 0, 0, {}) == Extended(3, 1, {3})
  {
    ScanSkips(SixNodes(), SixMatching, {5}, 0, 0, 3, {});
    assert Mate(SixMatching, 3) == Some(1);
  }

  /** Node 1 has no neighbour but the red node 3. */
  lemma SixScanEnd()
    ensures ScanResult(SixNodes(), SixMatching, {5}, 1, 0, {3}) == Exhausted({3})
  {
    ScanSkips(SixNodes(), SixMatching, {5}, 1, 0, 6, {3});
  }

  lemma SixChain()
    ensures ColouringInvariant(SixMatching, SixU, SixV, SixFinal)
    ensures IsTreeChain([0, 3, 1], SixMatching, SixNodes(), SixU, SixFinal)
  {
    SixMatchingValid();
    assert MatchedEdge([0, 3, 1], 0) == (1, 3);
  }

  lemma SixTreeColours()
    ensures [0] + [3, 1] == [0, 3, 1]
    ensures Colouring({3}, SixRooted.blue + {1}, SixRooted.scanned + {0}) == SixFinal
    ensures SixFinal.(red := {3}) == SixFinal
  {
  }

  /** Node 1 has no neighbour left to colour: the tree ends without a path. */
  lemma SixTreeEnd()
    ensures && SixU !! SixV && ValidMatching(SixMatching, SixNodes(), SixU, SixV)
            && SixV - Covered(SixMatching) == {5}
            && ColouringInvariant(SixMatching, SixU, SixV, SixFinal)
            && IsTreeChain([0, 3, 1], SixMatching, SixNodes(), SixU, SixFinal)
            && TreeResult(SixNodes(), SixMatching, SixU, SixV, {5}, 0, [1], [0, 3, 1], SixFinal) == NoPath(SixFinal)
  {
    SixMatchingValid();
    SixExposed();
    SixChain();
    SixScanEnd();
    TreeStepExhausted(SixNodes(), SixMatching, SixU, SixV, {5}, 0, [0, 3, 1], 1, SixFinal, {3}, {3});
    SixTreeColours();
  }

  lemma SixTree()
    ensures && SixU !! SixV && ValidMatching(SixMatching, SixNodes(), SixU, SixV)
            && SixV - Covered(SixMatching) == {5}
            && ColouringInvariant(SixMatching, SixU, SixV, SixRooted)
            && IsTreeChain([0], SixMatching, SixNodes(), SixU, SixRooted)
            && TreeResult(SixNodes(), SixMatching, SixU, SixV, {5}, 0, [0], [0], SixRooted) == NoPath(SixFinal)
  {
    SixMatchingValid();
    SixExposed();
    SixScanRoot();
    SixTreeEnd();
    RootOnly(0);
    RootStarts(SixNodes(), SixMatching, SixU, SixV, Uncoloured, 0);
    SixTreeColours();
    TreeStepExtended(SixNodes(), SixMatching, SixU, SixV, {5}, 0, [0], 0, SixRooted, {}, 3, 1, {3});
  }

  lemma SixPass()
    ensures && SixU !! SixV && ValidMatching(SixMatching, SixNodes(), SixU, SixV)
            && SixU - Covered(SixMatching) == {0} && SixV - Covered(SixMatching) == {5}
            && PassResult(SixNodes(), SixMatching, SixU, SixV, {0}, {5}, 0, Uncoloured) == Stopped(SixFinal)
  {
    SixMatchingValid();
    SixExposed();
    SixTree();
    SixChain();
    RootOnly(0);
    assert PassResult(SixNodes(), SixMatching, SixU, SixV, {0}, {5}, 1, SixFinal) == Stopped(SixFinal);
  }

  lemma SixCover()
    ensures Outside(SixUList, SixFinal.blue) + Inside(SixVList, SixFinal.red) == [2, 3]
  {
    SixCoverParts();
  }

  lemma SixCoverParts()
    ensures Outside(SixUList, SixFinal.blue) == [2] && Inside(SixVList, SixFinal.red) == [3]
  {
    assert SixUList[..2] == [0, 1] && [0, 1][..1] == [0] && [0][..0] == [];
    assert SixVList[..2] == [3, 4] && [3, 4][..1] == [3] && [3][..0] == [];
  }

  lemma SixElems()
    ensures Elems(SixUList) == SixU && Elems(SixVList) == SixV
  {
  }

  lemma SixSearch()
    ensures && |SixNodes().adj| > 0 && SixU !! SixV && ValidMatching(SixMatching, SixNodes(), SixU, SixV)
            && SearchResult(SixNodes(), SixU, SixV, SixMatching, Uncoloured) == SearchOutcome(SixFinal, SixMatching, [])
  {
    SixPass();
  }

  lemma SixResult()
    ensures && |SixNodes().adj| > 0 && Elems(SixUList) == SixU && Elems(SixVList) == SixV
            && SixU !! SixV && ValidMatching(SixMatching, SixNodes(), SixU, SixV)
            && HungarianResult(SixNodes(), SixUList, SixVList, SixMatching) == ([2, 3], SixMatching)
  {
    SixElems();
    SixSearch();
    SixCover();
    ResultOfSearch(SixNodes(), SixUList, SixVList, SixU, SixV, SixMatching, SixFinal, SixMatching, [], [2, 3]);
  }

  lemma SixLargerMatching()
    ensures IsMatching({(0, 4), (1, 3), (2, 5)}) && InGraph({(0, 4), (1, 3), (2, 5)}, SixNodes())
    ensures |{(0, 4), (1, 3), (2, 5)}| == 3 && |SixMatching| == 2
  {
    assert IsEdge(SixNodes(), 0, 4) && IsEdge(SixNodes(), 1, 3) && IsEdge(SixNodes(), 2, 5);
  }

  /**
   * The search as written returns the cover [2, 3] and the input matching: the edge 0-4
   * has no end in that cover, and {(0,4), (1,3), (2,5)} is a larger matching.
   */
  lemma SixNodeCounterexample()
    ensures && |SixNodes().adj| > 0 && Elems(SixUList) == SixU && Elems(SixVList) == SixV
            && SixU !! SixV && ValidMatching(SixMatching, SixNodes(), SixU, SixV)
            && HungarianResult(SixNodes(), SixUList, SixVList, SixMatching) == ([2, 3], SixMatching)
            && !IsVertexCover({2, 3}, SixNodes())
            && IsMatching({(0, 4), (1, 3), (2, 5)}) && InGraph({(0, 4), (1, 3), (2, 5)}, SixNodes())
            && |{(0, 4), (1, 3), (2, 5)}| == 3 && |SixMatching| == 2
  {
    SixResult();
    assert !IsVertexCover({2, 3}, SixNodes()) by { assert IsEdge(SixNodes(), 0, 4); }
    SixLargerMatching();
  }
}
