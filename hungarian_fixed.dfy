/**
 * The alternating-tree search with the tree-building step it evidently intends: a blue
 * node `s` taken from the queue has ALL its neighbours scanned before the next one is
 * taken, every new blue node joins the queue with its own tree path, and `s` (not the
 * root) is marked scanned.  Everything else (the passes over the node identifiers, the
 * restart, augmentation and the cover) is as in `Hungarian`.
 *
 * With this step a pass that stops leaves every blue node scanned and every neighbour of
 * a scanned node red, so the cover is a vertex cover of the graph; together with
 * `CoverMatchesMatching` it has as many nodes as the matching has edges, which makes the
 * matching maximum (Koenig's theorem).
 */
module HungarianFixed {
  import opened Collections
  import opened Graphs
  import opened Hungarian

  /** How the full scan of the neighbours of a blue node ends. */
  datatype FullScanOutcome = Found(path: seq<nat>) | Scanned(col: Colouring, queue: seq<seq<nat>>)

  /** The last node of a tree path: the blue node it leads to. */
  function Tip(chain: seq<nat>): (r: nat)
    requires |chain| > 0
  {
    chain[|chain| - 1]
  }

  /** The blue nodes the queued tree paths lead to. */
  function Tips(queue: seq<seq<nat>>): (r: set<nat>) {
    set i | 0 <= i < |queue| && |queue[i]| > 0 :: Tip(queue[i])
  }

  /** Every queued entry is a tree path of the current colouring. */
  ghost predicate ChainsValid(queue: seq<seq<nat>>, m: set<Edge>, g: Graph, u: set<nat>, col: Colouring) {
    forall i :: 0 <= i < |queue| ==> IsTreeChain(queue[i], m, g, u, col)
  }

  /** Every neighbour of a scanned node is red. */
  ghost predicate ScannedDone(g: Graph, col: Colouring) {
    forall x: nat, y: nat :: x in col.scanned && IsEdge(g, x, y) && y < |g.adj| ==> y in col.red
  }

  /** Growing the colours keeps every queued tree path valid. */
  lemma ChainsRecoloured(queue: seq<seq<nat>>, m: set<Edge>, g: Graph, u: set<nat>, col: Colouring, col': Colouring)
    requires ChainsValid(queue, m, g, u, col)
    requires col.red <= col'.red && col.blue <= col'.blue
    ensures ChainsValid(queue, m, g, u, col')
  {
    forall i | 0 <= i < |queue| ensures IsTreeChain(queue[i], m, g, u, col') {
      ChainRecoloured(queue[i], m, g, u, col, col');
    }
  }

  /** Appending a chain keeps the tips of the earlier entries and adds the new tip. */
  lemma TipsAppend(queue: seq<seq<nat>>, chain: seq<nat>)
    requires |chain| > 0
    ensures Tips(queue + [chain]) == Tips(queue) + {Tip(chain)}
  {
    var q := queue + [chain];
    forall x | x in Tips(q) ensures x in Tips(queue) + {Tip(chain)} {
      var i :| 0 <= i < |q| && |q[i]| > 0 && x == Tip(q[i]);
      if i < |queue| {
        assert q[i] == queue[i];
      }
    }
    forall x | x in Tips(queue) ensures x in Tips(q) {
      var i :| 0 <= i < |queue| && |queue[i]| > 0 && x == Tip(queue[i]);
      assert q[i] == queue[i];
    }
    assert q[|queue|] == chain;
  }

  /** Taking the first entry off the queue loses at most its tip. */
  lemma TipsPop(queue: seq<seq<nat>>)
    requires |queue| > 0 && |queue[0]| > 0
    ensures Tips(queue) <= Tips(queue[1..]) + {Tip(queue[0])}
  {
    forall x | x in Tips(queue) ensures x in Tips(queue[1..]) + {Tip(queue[0])} {
      var i :| 0 <= i < |queue| && |queue[i]| > 0 && x == Tip(queue[i]);
      if i > 0 {
        assert queue[1..][i - 1] == queue[i];
      }
    }
  }

  /** The tips of a queue are among those of any queue that extends it. */
  lemma TipsPrefix(queue: seq<seq<nat>>, queue': seq<seq<nat>>)
    requires queue <= queue'
    ensures Tips(queue) <= Tips(queue')
  {
    forall x | x in Tips(queue) ensures x in Tips(queue') {
      var i :| 0 <= i < |queue| && |queue[i]| > 0 && x == Tip(queue[i]);
      assert queue'[i] == queue[i];
    }
  }

  /**
   * The loop over ALL neighbours `w >= from` of the blue node at the tip of `chain`, in
   * ascending order: an exposed V-node ends the scan with an augmenting path; an uncoloured
   * node is coloured red, and when it has a mate the mate is coloured blue and queued with
   * its tree path; red nodes are passed over.
   */
  function FullScan(g: Graph, m: set<Edge>, u: set<nat>, v: set<nat>, exposedV: set<nat>,
                    chain: seq<nat>, from: nat, col: Colouring, queue: seq<seq<nat>>): (r: FullScanOutcome)
    requires u !! v && ValidMatching(m, g, u, v) && exposedV == v - Covered(m)
    requires ColouringInvariant(m, u, v, col)
    requires IsTreeChain(chain, m, g, u, col) && Tip(chain) < |g.adj|
    requires ChainsValid(queue, m, g, u, col)
    requires from <= |g.adj|
    ensures r.Found? ==> IsAugmentingPath(r.path, m, g, u, v)
    ensures r.Scanned? ==> ScanKeeps(g, m, u, v, chain, from, col, queue, r.col, r.queue)
    decreases |g.adj| - from
  {
    if from == |g.adj| then
      Scanned(col, queue)
    else if !IsEdge(g, Tip(chain), from) || from in col.red then
      var r := FullScan(g, m, u, v, exposedV, chain, from + 1, col, queue);
      if r.Scanned? then ScanKeepsPassing(g, m, u, v, chain, from, col, queue, r.col, r.queue); r
      else r
    else if from in exposedV then
      ChainAugments(chain, from, m, g, u, v, col);
      Found(chain + [from])
    else
      match Mate(m, from)
      case Some(mate) =>
        var col' := Colouring(col.red + {from}, col.blue + {mate}, col.scanned);
        var queue' := queue + [chain + [from, mate]];
        ExtendStep(g, m, u, v, chain, from, mate, col, queue);
        var r := FullScan(g, m, u, v, exposedV, chain, from + 1, col', queue');
        if r.Scanned? then ScanKeepsExtended(g, m, u, v, chain, from, mate, col, queue, r.col, r.queue); r
        else r
      case None =>
        var col' := col.(red := col.red + {from});
        ColouringExhausted(m, u, v, col, col.red + {from});
        ChainRecoloured(chain, m, g, u, col, col');
        ChainsRecoloured(queue, m, g, u, col, col');
        var r := FullScan(g, m, u, v, exposedV, chain, from + 1, col', queue);
        if r.Scanned? then ScanKeepsExhausted(g, m, u, v, chain, from, col, queue, r.col, r.queue); r
        else r
  }

  /**
   * What a full scan of the neighbours from `from` on promises when it ends without a
   * path, with `col'` and `queue'` the colouring and queue it ends with: the colours only
   * grow, by node identifiers; every new blue node is the tip of a queued tree path; and
   * every neighbour from `from` on is red.
   */
  ghost predicate ScanKeeps(g: Graph, m: set<Edge>, u: set<nat>, v: set<nat>, chain: seq<nat>, from: nat,
                            col: Colouring, queue: seq<seq<nat>>, col': Colouring, queue': seq<seq<nat>>)
    requires |chain| > 0
  {
    && ColouringInvariant(m, u, v, col')
    && col.red <= col'.red && col.blue <= col'.blue && col'.scanned == col.scanned
    && (forall x :: x in col'.red - col.red ==> x < |g.adj|)
    && (col'.red == col.red ==> queue' == queue)
    && ChainsValid(queue', m, g, u, col')
    && queue <= queue'
    && col'.blue - col.blue <= Tips(queue')
    && (forall x :: from <= x < |g.adj| && IsEdge(g, Tip(chain), x) ==> x in col'.red)
  }

  /** Passing over a neighbour that is not one, or is red already. */
  lemma ScanKeepsPassing(g: Graph, m: set<Edge>, u: set<nat>, v: set<nat>, chain: seq<nat>, from: nat,
                         col: Colouring, queue: seq<seq<nat>>, col': Colouring, queue': seq<seq<nat>>)
    requires |chain| > 0 && (!IsEdge(g, Tip(chain), from) || from in col.red)
    requires ScanKeeps(g, m, u, v, chain, from + 1, col, queue, col', queue')
    ensures ScanKeeps(g, m, u, v, chain, from, col, queue, col', queue')
  {
  }

  /** Colouring a matched neighbour red and its mate blue before scanning on. */
  lemma ScanKeepsExtended(g: Graph, m: set<Edge>, u: set<nat>, v: set<nat>, chain: seq<nat>, from: nat, mate: nat,
                          col: Colouring, queue: seq<seq<nat>>, col': Colouring, queue': seq<seq<nat>>)
    requires |chain| > 0 && from < |g.adj| && from !in col.red
    requires Tips(queue + [chain + [from, mate]]) == Tips(queue) + {mate}
    requires ScanKeeps(g, m, u, v, chain, from + 1, Colouring(col.red + {from}, col.blue + {mate}, col.scanned),
                       queue + [chain + [from, mate]], col', queue')
    ensures ScanKeeps(g, m, u, v, chain, from, col, queue, col', queue')
  {
    var queue1 := queue + [chain + [from, mate]];
    TipsPrefix(queue1, queue');
    MarkedRed(col.red, col'.red, from, |g.adj|);
    MarkedNeighbour(g, Tip(chain), from, col'.red);
  }

  /** Colouring an unmatched, non-exposed neighbour red before scanning on. */
  lemma ScanKeepsExhausted(g: Graph, m: set<Edge>, u: set<nat>, v: set<nat>, chain: seq<nat>, from: nat,
                           col: Colouring, queue: seq<seq<nat>>, col': Colouring, queue': seq<seq<nat>>)
    requires |chain| > 0 && from < |g.adj| && from !in col.red
    requires ScanKeeps(g, m, u, v, chain, from + 1, col.(red := col.red + {from}), queue, col', queue')
    ensures ScanKeeps(g, m, u, v, chain, from, col, queue, col', queue')
  {
    MarkedRed(col.red, col'.red, from, |g.adj|);
    MarkedNeighbour(g, Tip(chain), from, col'.red);
  }

  /** Marking `from` red on the way to `red'` grows `red` strictly, by nodes below n. */
  lemma MarkedRed(red: set<nat>, red': set<nat>, from: nat, n: nat)
    requires from < n && from !in red && red + {from} <= red'
    requires forall x :: x in red' - (red + {from}) ==> x < n
    ensures red <= red' && red' != red
    ensures forall x :: x in red' - red ==> x < n
  {
    assert from in red' - red;
    forall x | x in red' - red ensures x < n {
      if x != from {
        assert x in red' - (red + {from});
      }
    }
  }

  /** A red `from` extends "every neighbour of t from `from` + 1 on is red" to `from`. */
  lemma MarkedNeighbour(g: Graph, t: nat, from: nat, red': set<nat>)
    requires from in red'
    requires forall x :: from + 1 <= x < |g.adj| && IsEdge(g, t, x) ==> x in red'
    ensures forall x :: from <= x < |g.adj| && IsEdge(g, t, x) ==> x in red'
  {
  }

  /** Colouring a neighbour `w` red and its mate blue, and queueing the mate's tree path. */
  lemma ExtendStep(g: Graph, m: set<Edge>, u: set<nat>, v: set<nat>, chain: seq<nat>, w: nat, mate: nat,
                   col: Colouring, queue: seq<seq<nat>>)
    requires u !! v && ValidMatching(m, g, u, v)
    requires ColouringInvariant(m, u, v, col)
    requires IsTreeChain(chain, m, g, u, col) && ChainsValid(queue, m, g, u, col)
    requires IsEdge(g, Tip(chain), w) && w !in col.red && Mate(m, w) == Some(mate)
    ensures var col' := Colouring(col.red + {w}, col.blue + {mate}, col.scanned);
      && ColouringInvariant(m, u, v, col')
      && IsTreeChain(chain, m, g, u, col')
      && ChainsValid(queue + [chain + [w, mate]], m, g, u, col')
      && Tips(queue + [chain + [w, mate]]) == Tips(queue) + {mate}
  {
    var col' := Colouring(col.red + {w}, col.blue + {mate}, col.scanned);
    ColouringExtends(m, u, v, col, col.red + {w}, w, mate);
    ChainExtends(chain, w, mate, m, g, u, v, col, col');
    ChainRecoloured(chain, m, g, u, col, col');
    ChainsRecoloured(queue, m, g, u, col, col');
    TipsAppend(queue, chain + [w, mate]);
    assert Tip(chain + [w, mate]) == mate;
  }

  /**
   * The tree-building loop with the full scan: takes tree paths from the queue in order;
   * a path whose tip is blue and not yet scanned has the tip's neighbours scanned, after
   * which the tip is marked scanned.  When the queue runs dry every blue node is scanned.
   */
  function FixedTree(g: Graph, m: set<Edge>, u: set<nat>, v: set<nat>, exposedV: set<nat>,
                     queue: seq<seq<nat>>, col: Colouring): (r: TreeOutcome)
    requires u !! v && ValidMatching(m, g, u, v) && exposedV == v - Covered(m)
    requires ColouringInvariant(m, u, v, col)
    requires ChainsValid(queue, m, g, u, col)
    requires ScannedDone(g, col) && col.scanned <= col.blue
    requires col.blue <= col.scanned + Tips(queue)
    ensures r.AugmentingPath? ==> IsAugmentingPath(r.path, m, g, u, v)
    ensures r.NoPath? ==>
      && ColouringInvariant(m, u, v, r.col) && col.blue <= r.col.blue
      && ScannedDone(g, r.col) && r.col.scanned == r.col.blue
    decreases Range(|g.adj|) - col.red, |queue|
  {
    if queue == [] then
      NoPath(col)
    else
      var chain := queue[0];
      assert IsTreeChain(chain, m, g, u, col);
      TipsPop(queue);
      var s := Tip(chain);
      if s in col.scanned || s !in col.blue then
        FixedTree(g, m, u, v, exposedV, queue[1..], col)
      else
        assert s < |g.adj| by { ChainLastIsNode(chain, m, g, u, col); }
        match FullScan(g, m, u, v, exposedV, chain, 0, col, queue[1..])
        case Found(path) => AugmentingPath(path)
        case Scanned(col', queue') =>
          TipsPrefix(queue[1..], queue');
          MoreRedShrinks(|g.adj|, col.red, col'.red);
          FixedTree(g, m, u, v, exposedV, queue', col'.(scanned := col'.scanned + {s}))
  }

  /** Colouring more nodes below `n` red leaves fewer uncoloured ones. */
  lemma MoreRedShrinks(n: nat, red: set<nat>, red': set<nat>)
    requires red <= red' && forall x :: x in red' - red ==> x < n
    ensures red' != red ==> Range(n) - red' < Range(n) - red
  {
    if red' != red {
      assert !(red' <= red);
      var x :| x in red' && x !in red;
      assert x in red' - red && x < n;
      DifferenceShrinks(Range(n), red, red', x);
    }
  }

  /** The exposed U-node k coloured blue, and the fixed tree grown from it. */
  function FixedRoot(g: Graph, m: set<Edge>, u: set<nat>, v: set<nat>, exposedV: set<nat>, k: nat, col: Colouring)
    : (r: TreeOutcome)
    requires u !! v && ValidMatching(m, g, u, v) && exposedV == v - Covered(m)
    requires k < |g.adj| && k in u && k !in Covered(m) && k !in col.blue
    requires ColouringInvariant(m, u, v, col)
    requires ScannedDone(g, col) && col.scanned == col.blue
    ensures r.AugmentingPath? ==> IsAugmentingPath(r.path, m, g, u, v)
    ensures r.NoPath? ==>
      && ColouringInvariant(m, u, v, r.col) && col.blue + {k} <= r.col.blue
      && ScannedDone(g, r.col) && r.col.scanned == r.col.blue
  {
    var rooted := col.(blue := col.blue + {k});
    assert IsTreeChain([k], m, g, u, rooted);
    assert Tip([k]) == k && [] + [[k]] == [[k]];
    TipsAppend([], [k]);
    FixedTree(g, m, u, v, exposedV, [[k]], rooted)
  }

  /** One pass over the node identifiers with the fixed tree building. */
  function FixedPass(g: Graph, m: set<Edge>, u: set<nat>, v: set<nat>, exposedU: set<nat>, exposedV: set<nat>,
                     k: nat, col: Colouring): (r: PassOutcome)
    requires u !! v && ValidMatching(m, g, u, v)
    requires exposedU == u - Covered(m) && exposedV == v - Covered(m)
    requires k < |g.adj|
    requires ColouringInvariant(m, u, v, col)
    requires ScannedDone(g, col) && col.scanned == col.blue
    ensures r.Augmented? ==> IsAugmentingPath(r.path, m, g, u, v)
    ensures !r.Augmented? ==>
      && ColouringInvariant(m, u, v, r.col) && col.blue <= r.col.blue
      && ScannedDone(g, r.col) && r.col.scanned == r.col.blue
      && (forall x :: k <= x < |g.adj| && x in exposedU ==> x in r.col.blue)
    ensures r.Restarted? ==> |g.adj| - 1 in exposedU && |g.adj| - 1 !in col.blue
    decreases |g.adj| - k
  {
    if k in exposedU && k !in col.blue then
      match FixedRoot(g, m, u, v, exposedV, k, col)
      case AugmentingPath(path) => Augmented(path)
      case NoPath(col') =>
        if k + 1 == |g.adj| then Restarted(col')
        else FixedPass(g, m, u, v, exposedU, exposedV, k + 1, col')
    else if k + 1 == |g.adj| then
      Stopped(col)
    else
      FixedPass(g, m, u, v, exposedU, exposedV, k + 1, col)
  }

  /** The outer loop with the fixed passes: augment and clear, restart, or stop. */
  function FixedSearch(g: Graph, u: set<nat>, v: set<nat>, m: set<Edge>, col: Colouring): (r: SearchOutcome)
    requires |g.adj| > 0 && u !! v && ValidMatching(m, g, u, v)
    requires ColouringInvariant(m, u, v, col)
    requires ScannedDone(g, col) && col.scanned == col.blue
    ensures ValidMatching(r.matching, g, u, v) && ColouringInvariant(r.matching, u, v, r.col)
    ensures AugmentationChain(m, r.paths, g, u, v) && r.matching == AugmentAll(m, r.paths, v)
    ensures forall x :: x in u && x < |g.adj| && x !in Covered(r.matching) ==> x in r.col.blue
    ensures ScannedDone(g, r.col) && r.col.scanned == r.col.blue
    decreases u - Covered(m), Unrooted(g, u, m, col)
  {
    match FixedPass(g, m, u, v, u - Covered(m), v - Covered(m), 0, col)
    case Augmented(path) =>
      var m' := SymmetricDifference(m, PathEdges(path, v));
      AugmentCoversRoot(path, m, g, u, v);
      var rest := FixedSearch(g, u, v, m', Uncoloured);
      assert ([path] + rest.paths)[0] == path && ([path] + rest.paths)[1..] == rest.paths;
      SearchOutcome(rest.col, rest.matching, [path] + rest.paths)
    case Stopped(col') =>
      SearchOutcome(col', m, [])
    case Restarted(col') =>
      RestartRootsAll(g, u, m, col, col');
      FixedSearch(g, u, v, m, col')
  }

  /** `hungarian_maximum_matching` with the fixed tree building: the cover and the matching. */
  function FixedHungarianResult(g: Graph, nodesU: seq<nat>, nodesV: seq<nat>, matched: set<Edge>): (r: (seq<nat>, set<Edge>))
    requires |g.adj| > 0 && Elems(nodesU) !! Elems(nodesV)
    requires ValidMatching(matched, g, Elems(nodesU), Elems(nodesV))
  {
    var search := FixedSearch(g, Elems(nodesU), Elems(nodesV), matched, Uncoloured);
    (Outside(nodesU, search.col.blue) + Inside(nodesV, search.col.red), search.matching)
  }

  /** Every edge of `g` joins a node of `u` and a node of `v`. */
  ghost predicate Bipartition(g: Graph, u: set<nat>, v: set<nat>) {
    forall a, b :: IsEdge(g, a, b) ==> (a in u && b in v) || (a in v && b in u)
  }

  /**
   * On a graph whose every edge joins `nodesU` to `nodesV`, a colouring in which every
   * blue node is scanned makes the U-nodes not blue plus the red V-nodes a vertex cover.
   */
  lemma ScannedCoverIsVertexCover(g: Graph, nodesU: seq<nat>, nodesV: seq<nat>, col: Colouring)
    requires ValidGraph(g) && Bipartition(g, Elems(nodesU), Elems(nodesV))
    requires ScannedDone(g, col) && col.scanned == col.blue
    ensures IsVertexCover(Elems(Outside(nodesU, col.blue) + Inside(nodesV, col.red)), g)
  {
    var cover := Outside(nodesU, col.blue) + Inside(nodesV, col.red);
    forall a, b | IsEdge(g, a, b) ensures a in Elems(cover) || b in Elems(cover) {
      if a in nodesU && b in nodesV {
        CoverMeetsEdge(g, nodesU, nodesV, col, a, b);
      } else {
        assert b in nodesU && a in nodesV;
        assert IsEdge(g, b, a);
        CoverMeetsEdge(g, nodesU, nodesV, col, b, a);
      }
    }
  }

  /**
   * On a graph whose every edge joins `nodesU` to `nodesV`, the fixed search returns a
   * vertex cover exactly as large as its matching, which is therefore a maximum matching
   * of the graph; the matching grows from the input one by augmenting paths.  Every
   * cover node is matched, and every matched edge has exactly one end in the cover.
   */
  lemma FixedHungarianIsMaximum(g: Graph, nodesU: seq<nat>, nodesV: seq<nat>, matched: set<Edge>)
    requires |g.adj| > 0 && ValidGraph(g) && Elems(nodesU) !! Elems(nodesV)
    requires Bipartition(g, Elems(nodesU), Elems(nodesV))
    requires ValidMatching(matched, g, Elems(nodesU), Elems(nodesV))
    requires Distinct(nodesU) && Distinct(nodesV)
    requires forall x :: x in nodesU ==> x < |g.adj|
    ensures var r := FixedHungarianResult(g, nodesU, nodesV, matched);
      && ValidMatching(r.1, g, Elems(nodesU), Elems(nodesV))
      && Covered(matched) <= Covered(r.1)
      && IsVertexCover(Elems(r.0), g)
      && |r.0| == |r.1|
      && (forall m' :: IsMatching(m') && InGraph(m', g) ==> |m'| <= |r.1|)
      && Distinct(r.0)
      && (forall x :: x in r.0 ==> x in nodesU || x in nodesV)
      && (forall x :: x in r.0 ==> x in Covered(r.1))
      && (forall e :: e in r.1 ==> (e.0 in r.0) != (e.1 in r.0))
  {
    var u, v := Elems(nodesU), Elems(nodesV);
    var search := FixedSearch(g, u, v, matched, Uncoloured);
    var col, m := search.col, search.matching;
    var cover := Outside(nodesU, col.blue) + Inside(nodesV, col.red);
    AugmentAllGrows(matched, search.paths, g, u, v);
    CoverMatchesMatching(g, nodesU, nodesV, m, col);
    ScannedCoverIsVertexCover(g, nodesU, nodesV, col);
    DistinctCard(cover);
    forall m' | IsMatching(m') && InGraph(m', g) ensures |m'| <= |m| {
      CoverCertifiesMaximum(m, Elems(cover), g, m');
    }
  }

  /** An edge from a U-node to a V-node has an end in the cover once every blue node is scanned. */
  lemma CoverMeetsEdge(g: Graph, nodesU: seq<nat>, nodesV: seq<nat>, col: Colouring, a: nat, b: nat)
    requires ValidGraph(g) && ScannedDone(g, col) && col.scanned == col.blue
    requires IsEdge(g, a, b) && a in nodesU && b in nodesV
    ensures a in Outside(nodesU, col.blue) + Inside(nodesV, col.red) || b in Outside(nodesU, col.blue) + Inside(nodesV, col.red)
  {
    if a in col.blue {
      assert b < |g.adj|;
      assert b in col.red;
    }
  }
}
