/**
 * The alternating-tree search of `hungarian_maximum_matching`, as written.
 *
 * Starting from a matching oriented (U-node, V-node), each pass walks the node identifiers
 * in order; an exposed U-node that is not yet blue becomes the root of a tree.  Tree
 * building pops a blue node `s`, scans its neighbours in ascending order, augments along
 * the tree path when a neighbour is an exposed V-node, and otherwise colours the first
 * uncoloured neighbour `w` red and its mate blue, queues the mate and moves on.  After an
 * augmentation every colour is cleared and a new pass starts; a pass that meets no root
 * at the last node identifier ends the search.  The cover returned lists the U-nodes
 * never coloured blue, then the V-nodes coloured red.
 *
 * The functions below follow the loops of the source one by one (`ScanResult` the loop
 * over the neighbours of `s`, `TreeResult` the tree-building loop, `PassResult` the loop
 * over node identifiers, `SearchResult` the outer loop); their contracts carry the
 * invariants that make the search terminate and keep the matching valid.  The methods
 * further down are the imperative search, proved to compute these functions.
 */
module Hungarian {
  import opened Collections
  import opened Graphs

  /** The `red`, `blue` and `scanned` visit maps of the search. */
  datatype Colouring = Colouring(red: set<nat>, blue: set<nat>, scanned: set<nat>)

  const Uncoloured: Colouring := Colouring({}, {}, {})

  /** How the scan of the neighbours of a blue node ends. */
  datatype ScanOutcome =
    | ExposedNeighbour(w: nat)
    | Extended(w: nat, mate: nat, red: set<nat>)
    | Exhausted(red: set<nat>)

  /** How the tree grown from one root ends. */
  datatype TreeOutcome = AugmentingPath(path: seq<nat>) | NoPath(col: Colouring)

  /** How one pass over the node identifiers ends. */
  datatype PassOutcome = Augmented(path: seq<nat>) | Stopped(col: Colouring) | Restarted(col: Colouring)

  /** The final colouring and matching, and the augmenting paths used on the way. */
  datatype SearchOutcome = SearchOutcome(col: Colouring, matching: set<Edge>, paths: seq<seq<nat>>)

  /** The U-node that `m` matches to `w`: the first component of the edge whose second is `w`. */
  function Mate(m: set<Edge>, w: nat): (r: Option<nat>)
    requires IsMatching(m)
    ensures r.Some? <==> exists e :: e in m && e.1 == w
    ensures r.Some? ==> (r.value, w) in m
  {
    if exists e :: e in m && e.1 == w then
      var e :| e in m && e.1 == w;
      Some(e.0)
    else
      None
  }

  /**
   * The invariant of the colours with respect to the matching: blue nodes are U-nodes,
   * a matching edge has a blue U-end exactly when it has a red V-end, and a red V-node is
   * never exposed.
   */
  ghost predicate ColouringInvariant(m: set<Edge>, u: set<nat>, v: set<nat>, col: Colouring) {
    && col.blue <= u
    && (forall e :: e in m && e.0 in col.blue ==> e.1 in col.red)
    && (forall e :: e in m && e.1 in col.red ==> e.0 in col.blue)
    && (forall x :: x in col.red && x in v ==> x in Covered(m))
  }

  /**
   * The tree grown so far, as the path root, w1, u1, ..., wk, uk: the root is an exposed
   * U-node, each wi is a red neighbour of the previous node and ui its blue mate.
   */
  ghost predicate IsTreeChain(chain: seq<nat>, m: set<Edge>, g: Graph, u: set<nat>, col: Colouring) {
    && |chain| % 2 == 1
    && chain[0] < |g.adj| && chain[0] in u && chain[0] !in Covered(m)
    && (forall j :: 0 <= j < |chain| / 2 ==> IsEdge(g, chain[2 * j], chain[2 * j + 1]))
    && (forall j :: 0 <= j < |chain| / 2 ==> MatchedEdge(chain, j) in m && chain[2 * j + 1] in col.red)
    && (forall j :: 0 <= j <= |chain| / 2 ==> chain[2 * j] in col.blue)
    && Distinct(chain)
  }

  /** The nodes of the chain are U-nodes at even and V-nodes at odd positions. */
  lemma ChainSides(chain: seq<nat>, m: set<Edge>, g: Graph, u: set<nat>, v: set<nat>, col: Colouring)
    requires Oriented(m, u, v)
    requires IsTreeChain(chain, m, g, u, col)
    ensures forall j :: 0 <= j <= |chain| / 2 ==> chain[2 * j] in u
    ensures forall j :: 0 <= j < |chain| / 2 ==> chain[2 * j + 1] in v
    ensures forall i :: 0 < i < |chain| ==> chain[i] in Covered(m)
  {
    forall j | 0 < j <= |chain| / 2 ensures chain[2 * j] in u && chain[2 * j] in Covered(m) {
      assert MatchedEdge(chain, j - 1) in m;
    }
    forall j | 0 <= j < |chain| / 2 ensures chain[2 * j + 1] in v && chain[2 * j + 1] in Covered(m) {
      assert MatchedEdge(chain, j) in m;
    }
    forall i | 0 < i < |chain| ensures chain[i] in Covered(m) {
      if i % 2 == 0 {
        assert chain[2 * (i / 2)] in Covered(m);
      } else {
        assert chain[2 * (i / 2) + 1] in Covered(m);
      }
    }
  }

  /** An exposed V-neighbour of the last node of the chain completes an augmenting path. */
  lemma ChainAugments(chain: seq<nat>, w: nat, m: set<Edge>, g: Graph, u: set<nat>, v: set<nat>, col: Colouring)
    requires u !! v && ValidMatching(m, g, u, v)
    requires IsTreeChain(chain, m, g, u, col)
    requires IsEdge(g, chain[|chain| - 1], w) && w in v && w !in Covered(m)
    ensures IsAugmentingPath(chain + [w], m, g, u, v)
  {
    var path := chain + [w];
    ChainSides(chain, m, g, u, v, col);
    assert chain[0] != w;
    forall j | 0 <= j < |path| / 2 ensures path[2 * j] in u && path[2 * j + 1] in v && IsEdge(g, path[2 * j], path[2 * j + 1]) {
      if j < |chain| / 2 {
        assert path[2 * j] == chain[2 * j] && path[2 * j + 1] == chain[2 * j + 1];
      } else {
        assert 2 * j == |chain| - 1;
      }
    }
    forall j | 0 <= j < |path| / 2 - 1 ensures MatchedEdge(path, j) in m {
      assert MatchedEdge(path, j) == MatchedEdge(chain, j);
    }
    forall i, k | 0 <= i < k < |path| ensures path[i] != path[k] {
      if k == |chain| && i > 0 {
        assert chain[i] in Covered(m);
      }
    }
  }

  /** Adding a red neighbour `w` of the last node and its blue mate keeps the chain a tree chain. */
  lemma ChainExtends(chain: seq<nat>, w: nat, mate: nat, m: set<Edge>, g: Graph, u: set<nat>, v: set<nat>,
                     col: Colouring, col': Colouring)
    requires u !! v && ValidMatching(m, g, u, v)
    requires IsTreeChain(chain, m, g, u, col)
    requires IsEdge(g, chain[|chain| - 1], w) && w !in col.red && (mate, w) in m
    requires col.red <= col'.red && w in col'.red && col.blue + {mate} <= col'.blue
    ensures IsTreeChain(chain + [w, mate], m, g, u, col')
  {
    var c := chain + [w, mate];
    var k := |chain| / 2;
    ChainSides(chain, m, g, u, v, col);
    assert mate in u && w in v;
    forall j | 0 <= j < |c| / 2 ensures IsEdge(g, c[2 * j], c[2 * j + 1]) {
      if j < k {
        assert c[2 * j] == chain[2 * j] && c[2 * j + 1] == chain[2 * j + 1];
      }
    }
    forall j | 0 <= j < |c| / 2 ensures MatchedEdge(c, j) in m && c[2 * j + 1] in col'.red {
      if j < k {
        assert MatchedEdge(c, j) == MatchedEdge(chain, j);
      }
    }
    forall j | 0 <= j <= |c| / 2 ensures c[2 * j] in col'.blue {
      if j <= k {
        assert c[2 * j] == chain[2 * j];
      }
    }
    ChainExtendsDistinct(chain, w, mate, m, g, u, v, col);
  }

  lemma ChainExtendsDistinct(chain: seq<nat>, w: nat, mate: nat, m: set<Edge>, g: Graph, u: set<nat>, v: set<nat>,
                             col: Colouring)
    requires u !! v && ValidMatching(m, g, u, v)
    requires IsTreeChain(chain, m, g, u, col)
    requires w !in col.red && (mate, w) in m
    ensures Distinct(chain + [w, mate])
  {
    ChainSides(chain, m, g, u, v, col);
    assert mate in u && w in v;
    NewRedNotInChain(chain, w, m, g, u, v, col);
    NewBlueNotInChain(chain, w, mate, m, g, u, v, col);
    DistinctAppend(chain, w);
    DistinctAppend(chain + [w], mate);
    assert chain + [w] + [mate] == chain + [w, mate];
  }

  lemma NewRedNotInChain(chain: seq<nat>, w: nat, m: set<Edge>, g: Graph, u: set<nat>, v: set<nat>, col: Colouring)
    requires u !! v && Oriented(m, u, v)
    requires IsTreeChain(chain, m, g, u, col)
    requires w !in col.red && w in v
    ensures w !in chain
  {
    ChainSides(chain, m, g, u, v, col);
    forall i | 0 <= i < |chain| ensures chain[i] != w {
      if i % 2 == 1 {
        assert chain[2 * (i / 2) + 1] in col.red;
      } else {
        assert chain[2 * (i / 2)] in u;
      }
    }
  }

  lemma NewBlueNotInChain(chain: seq<nat>, w: nat, mate: nat, m: set<Edge>, g: Graph, u: set<nat>, v: set<nat>,
                          col: Colouring)
    requires u !! v && IsMatching(m) && Oriented(m, u, v)
    requires IsTreeChain(chain, m, g, u, col)
    requires w !in col.red && (mate, w) in m
    ensures mate !in chain
  {
    ChainSides(chain, m, g, u, v, col);
    forall i | 0 <= i < |chain| ensures chain[i] != mate {
      if i == 0 {
        assert mate in Covered(m);
      } else if i % 2 == 1 {
        assert chain[2 * (i / 2) + 1] in v;
      } else {
        var f := MatchedEdge(chain, i / 2 - 1);
        assert f in m && f.0 == chain[i];
        assert f.1 in col.red;
      }
    }
  }

  /**
   * Colouring `w` red and its mate blue, together with red neighbours that have no mate,
   * keeps the colouring invariant.
   */
  lemma ColouringExtends(m: set<Edge>, u: set<nat>, v: set<nat>, col: Colouring, red': set<nat>, w: nat, mate: nat)
    requires IsMatching(m) && Oriented(m, u, v)
    requires ColouringInvariant(m, u, v, col)
    requires (mate, w) in m
    requires col.red <= red' && w in red'
    requires forall x :: x in red' - col.red ==> x in Covered(m) || x !in v
    requires forall x :: x in red' - col.red && x != w ==> Mate(m, x).None?
    ensures ColouringInvariant(m, u, v, Colouring(red', col.blue + {mate}, col.scanned))
  {
    forall e | e in m && e.1 in red' ensures e.0 in col.blue + {mate} {
      assert Mate(m, e.1).Some?;
      if e.1 == w {
        assert e.0 == mate;
      }
    }
  }

  /**
   * The loop over the neighbours `w` of the blue node `s` with `from <= w`, in ascending
   * order: an exposed V-node ends the scan; an uncoloured one is coloured red, and if it
   * has a mate the scan ends there; red ones are passed over.
   */
  function ScanResult(g: Graph, m: set<Edge>, exposedV: set<nat>, s: nat, from: nat, red: set<nat>): (r: ScanOutcome)
    requires IsMatching(m)
    requires s < |g.adj| && from <= |g.adj|
    ensures r.ExposedNeighbour? ==> from <= r.w < |g.adj| && IsEdge(g, s, r.w) && r.w in exposedV
    ensures r.Extended? ==>
      && from <= r.w < |g.adj| && IsEdge(g, s, r.w) && r.w !in exposedV && r.w !in red
      && r.w in r.red && (r.mate, r.w) in m
      && (forall x :: x in r.red - red && x != r.w ==> Mate(m, x).None?)
    ensures r.Exhausted? ==>
      && (forall x :: from <= x < |g.adj| && IsEdge(g, s, x) ==> x in r.red && x !in exposedV)
      && (forall x :: x in r.red - red ==> Mate(m, x).None?)
    ensures !r.ExposedNeighbour? ==>
      && red <= r.red
      && (forall x :: x in r.red - red ==> x < |g.adj| && x !in exposedV && IsEdge(g, s, x))
    decreases |g.adj| - from
  {
    if from == |g.adj| then
      Exhausted(red)
    else if !IsEdge(g, s, from) then
      ScanResult(g, m, exposedV, s, from + 1, red)
    else if from in exposedV then
      ExposedNeighbour(from)
    else if from in red then
      ScanResult(g, m, exposedV, s, from + 1, red)
    else
      match Mate(m, from)
      case Some(mate) => Extended(from, mate, red + {from})
      case None =>
        var r := ScanResult(g, m, exposedV, s, from + 1, red + {from});
        assert !r.ExposedNeighbour? ==> forall x :: x in r.red - red ==> x == from || x in r.red - (red + {from});
        r
  }

  /**
   * The tree-building loop for the tree rooted at `root`: `queue` holds the blue nodes still
   * to scan and `chain` the tree grown so far.  The queue never holds more than the last
   * node of the chain, so the tree path to the node being scanned is the chain itself.
   */
  function TreeResult(g: Graph, m: set<Edge>, u: set<nat>, v: set<nat>, exposedV: set<nat>, root: nat,
                      queue: seq<nat>, chain: seq<nat>, col: Colouring): (r: TreeOutcome)
    requires u !! v && ValidMatching(m, g, u, v) && exposedV == v - Covered(m)
    requires ColouringInvariant(m, u, v, col)
    requires IsTreeChain(chain, m, g, u, col)
    requires queue == [] || queue == [chain[|chain| - 1]]
    ensures r.AugmentingPath? ==> IsAugmentingPath(r.path, m, g, u, v)
    ensures r.NoPath? ==> ColouringInvariant(m, u, v, r.col) && col.blue <= r.col.blue
    decreases Range(|g.adj|) - col.red, |queue|
  {
    if queue == [] then
      NoPath(col)
    else
      var s := queue[0];
      if s in col.scanned || s !in col.blue then
        TreeResult(g, m, u, v, exposedV, root, queue[1..], chain, col)
      else
        assert s < |g.adj| by { ChainLastIsNode(chain, m, g, u, col); }
        match ScanResult(g, m, exposedV, s, 0, col.red)
        case ExposedNeighbour(w) =>
          ChainAugments(chain, w, m, g, u, v, col);
          AugmentingPath(chain + [w])
        case Extended(w, mate, red') =>
          var col' := Colouring(red', col.blue + {mate}, col.scanned + {root});
          ColouringExtends(m, u, v, col, red', w, mate);
          ChainExtends(chain, w, mate, m, g, u, v, col, col');
          TreeResult(g, m, u, v, exposedV, root, queue[1..] + [mate], chain + [w, mate], col')
        case Exhausted(red') =>
          var col' := col.(red := red');
          ColouringExhausted(m, u, v, col, red');
          ChainRecoloured(chain, m, g, u, col, col');
          TreeResult(g, m, u, v, exposedV, root, queue[1..], chain, col')
  }

  lemma ChainLastIsNode(chain: seq<nat>, m: set<Edge>, g: Graph, u: set<nat>, col: Colouring)
    requires InGraph(m, g)
    requires IsTreeChain(chain, m, g, u, col)
    ensures chain[|chain| - 1] < |g.adj|
  {
    if |chain| > 1 {
      assert MatchedEdge(chain, |chain| / 2 - 1) in m;
    }
  }

  /** Red nodes without a mate keep the colouring invariant. */
  lemma ColouringExhausted(m: set<Edge>, u: set<nat>, v: set<nat>, col: Colouring, red': set<nat>)
    requires IsMatching(m)
    requires ColouringInvariant(m, u, v, col)
    requires col.red <= red'
    requires forall x :: x in red' - col.red ==> Mate(m, x).None? && (x in Covered(m) || x !in v)
    ensures ColouringInvariant(m, u, v, col.(red := red'))
  {
    forall e | e in m && e.1 in red' ensures e.0 in col.blue {
      assert Mate(m, e.1).Some?;
    }
  }

  /** More red nodes do not break the chain. */
  lemma ChainRecoloured(chain: seq<nat>, m: set<Edge>, g: Graph, u: set<nat>, col: Colouring, col': Colouring)
    requires IsTreeChain(chain, m, g, u, col)
    requires col.red <= col'.red && col.blue <= col'.blue
    ensures IsTreeChain(chain, m, g, u, col')
  {
  }

  /**
   * The loop over node identifiers `k`, `k+1`, ..., n-1 of one pass: an exposed U-node
   * that is not blue is coloured blue and grows a tree.  The pass stops at the last
   * identifier when that one is not such a root, and otherwise runs out of identifiers,
   * which restarts the outer loop with the colours kept.
   */
  function PassResult(g: Graph, m: set<Edge>, u: set<nat>, v: set<nat>, exposedU: set<nat>, exposedV: set<nat>,
                      k: nat, col: Colouring): (r: PassOutcome)
    requires u !! v && ValidMatching(m, g, u, v)
    requires exposedU == u - Covered(m) && exposedV == v - Covered(m)
    requires k < |g.adj|
    requires ColouringInvariant(m, u, v, col)
    ensures r.Augmented? ==> IsAugmentingPath(r.path, m, g, u, v)
    ensures !r.Augmented? ==>
      && ColouringInvariant(m, u, v, r.col) && col.blue <= r.col.blue
      && (forall x :: k <= x < |g.adj| && x in exposedU ==> x in r.col.blue)
    ensures r.Restarted? ==> |g.adj| - 1 in exposedU && |g.adj| - 1 !in col.blue
    decreases |g.adj| - k
  {
    if k in exposedU && k !in col.blue then
      var rooted := col.(blue := col.blue + {k});
      assert IsTreeChain([k], m, g, u, rooted);
      match TreeResult(g, m, u, v, exposedV, k, [k], [k], rooted)
      case AugmentingPath(path) => Augmented(path)
      case NoPath(col') =>
        if k + 1 == |g.adj| then Restarted(col')
        else PassResult(g, m, u, v, exposedU, exposedV, k + 1, col')
    else if k + 1 == |g.adj| then
      Stopped(col)
    else
      PassResult(g, m, u, v, exposedU, exposedV, k + 1, col)
  }

  /** A pass over identifiers none of which is a root stops with the colouring it was given. */
  lemma {:induction false} PassSkipsToEnd(g: Graph, m: set<Edge>, u: set<nat>, v: set<nat>,
                                          exposedU: set<nat>, exposedV: set<nat>, k: nat, col: Colouring)
    requires u !! v && ValidMatching(m, g, u, v)
    requires exposedU == u - Covered(m) && exposedV == v - Covered(m)
    requires k < |g.adj| && ColouringInvariant(m, u, v, col)
    requires forall x :: k <= x < |g.adj| ==> x !in exposedU || x in col.blue
    ensures PassResult(g, m, u, v, exposedU, exposedV, k, col) == Stopped(col)
    decreases |g.adj| - k
  {
    if k + 1 < |g.adj| {
      PassSkipsToEnd(g, m, u, v, exposedU, exposedV, k + 1, col);
    }
  }

  /** An identifier that is not a root is passed over. */
  lemma PassSkips(g: Graph, m: set<Edge>, u: set<nat>, v: set<nat>,
                  exposedU: set<nat>, exposedV: set<nat>, k: nat, col: Colouring)
    requires u !! v && ValidMatching(m, g, u, v)
    requires exposedU == u - Covered(m) && exposedV == v - Covered(m)
    requires k + 1 < |g.adj| && ColouringInvariant(m, u, v, col)
    requires k !in exposedU || k in col.blue
    ensures PassResult(g, m, u, v, exposedU, exposedV, k, col) == PassResult(g, m, u, v, exposedU, exposedV, k + 1, col)
  {
  }

  /** A root whose tree finds no path hands the tree's colouring on to the next identifier. */
  lemma PassRootNoPath(g: Graph, m: set<Edge>, u: set<nat>, v: set<nat>,
                       exposedU: set<nat>, exposedV: set<nat>, k: nat, col: Colouring, col': Colouring)
    requires u !! v && ValidMatching(m, g, u, v)
    requires exposedU == u - Covered(m) && exposedV == v - Covered(m)
    requires k + 1 < |g.adj| && ColouringInvariant(m, u, v, col)
    requires k in exposedU && k !in col.blue
    requires ColouringInvariant(m, u, v, col.(blue := col.blue + {k}))
    requires IsTreeChain([k], m, g, u, col.(blue := col.blue + {k}))
    requires TreeResult(g, m, u, v, exposedV, k, [k], [k], col.(blue := col.blue + {k})) == NoPath(col')
    ensures ColouringInvariant(m, u, v, col')
    ensures PassResult(g, m, u, v, exposedU, exposedV, k, col) == PassResult(g, m, u, v, exposedU, exposedV, k + 1, col')
  {
  }

  /** A root whose tree finds a path ends the pass with that path. */
  lemma PassRootPath(g: Graph, m: set<Edge>, u: set<nat>, v: set<nat>,
                     exposedU: set<nat>, exposedV: set<nat>, k: nat, col: Colouring, path: seq<nat>)
    requires u !! v && ValidMatching(m, g, u, v)
    requires exposedU == u - Covered(m) && exposedV == v - Covered(m)
    requires k < |g.adj| && ColouringInvariant(m, u, v, col)
    requires k in exposedU && k !in col.blue
    requires ColouringInvariant(m, u, v, col.(blue := col.blue + {k}))
    requires IsTreeChain([k], m, g, u, col.(blue := col.blue + {k}))
    requires TreeResult(g, m, u, v, exposedV, k, [k], [k], col.(blue := col.blue + {k})) == AugmentingPath(path)
    ensures PassResult(g, m, u, v, exposedU, exposedV, k, col) == Augmented(path)
  {
  }

  /** The exposed U-nodes that are node identifiers and not yet blue: the roots a pass would start. */
  function Unrooted(g: Graph, u: set<nat>, m: set<Edge>, col: Colouring): (r: set<nat>) {
    set x | x in u && x < |g.adj| && x !in Covered(m) && x !in col.blue
  }

  /**
   * The outer loop: a pass that finds an augmenting path augments the matching and starts
   * again with every colour cleared; a pass that runs out of identifiers starts again with
   * the colours kept; a pass that stops ends the search.
   */
  function SearchResult(g: Graph, u: set<nat>, v: set<nat>, m: set<Edge>, col: Colouring): (r: SearchOutcome)
    requires |g.adj| > 0 && u !! v && ValidMatching(m, g, u, v)
    requires ColouringInvariant(m, u, v, col)
    ensures ValidMatching(r.matching, g, u, v) && ColouringInvariant(r.matching, u, v, r.col)
    ensures AugmentationChain(m, r.paths, g, u, v) && r.matching == AugmentAll(m, r.paths, v)
    ensures forall x :: x in u && x < |g.adj| && x !in Covered(r.matching) ==> x in r.col.blue
    decreases u - Covered(m), Unrooted(g, u, m, col)
  {
    match PassResult(g, m, u, v, u - Covered(m), v - Covered(m), 0, col)
    case Augmented(path) =>
      var m' := SymmetricDifference(m, PathEdges(path, v));
      AugmentCoversRoot(path, m, g, u, v);
      var rest := SearchResult(g, u, v, m', Uncoloured);
      assert ([path] + rest.paths)[0] == path && ([path] + rest.paths)[1..] == rest.paths;
      SearchOutcome(rest.col, rest.matching, [path] + rest.paths)
    case Stopped(col') =>
      SearchOutcome(col', m, [])
    case Restarted(col') =>
      RestartRootsAll(g, u, m, col, col');
      SearchResult(g, u, v, m, col')
  }

  /** Augmenting covers the root of the path, an exposed U-node, and uncovers nothing. */
  lemma AugmentCoversRoot(path: seq<nat>, m: set<Edge>, g: Graph, u: set<nat>, v: set<nat>)
    requires u !! v && ValidMatching(m, g, u, v)
    requires IsAugmentingPath(path, m, g, u, v)
    ensures ValidMatching(SymmetricDifference(m, PathEdges(path, v)), g, u, v)
    ensures u - Covered(SymmetricDifference(m, PathEdges(path, v))) < u - Covered(m)
  {
    Augment(path, m, g, u, v);
    var m' := SymmetricDifference(m, PathEdges(path, v));
    assert ValidMatching(m', g, u, v);
    assert path[0] in u by { assert path[2 * 0] in u; }
    assert Covered(m) <= Covered(m');
    assert path[0] in Covered(m');
    DifferenceShrinks(u, Covered(m), Covered(m'), path[0]);
  }

  /** After a pass that ran out of identifiers no root is left. */
  lemma RestartRootsAll(g: Graph, u: set<nat>, m: set<Edge>, col: Colouring, col': Colouring)
    requires |g.adj| > 0 && |g.adj| - 1 in u - Covered(m) && |g.adj| - 1 !in col.blue
    requires forall x :: 0 <= x < |g.adj| && x in u - Covered(m) ==> x in col'.blue
    ensures Unrooted(g, u, m, col') < Unrooted(g, u, m, col)
  {
    assert |g.adj| - 1 in Unrooted(g, u, m, col);
    assert Unrooted(g, u, m, col') == {};
  }

  /**
   * What `hungarian_maximum_matching` returns: the U-nodes of `nodesU` never coloured blue,
   * then the V-nodes of `nodesV` coloured red, and the final matching.
   */
  function HungarianResult(g: Graph, nodesU: seq<nat>, nodesV: seq<nat>, matched: set<Edge>): (r: (seq<nat>, set<Edge>))
    requires |g.adj| > 0 && Elems(nodesU) !! Elems(nodesV)
    requires ValidMatching(matched, g, Elems(nodesU), Elems(nodesV))
  {
    var search := SearchResult(g, Elems(nodesU), Elems(nodesV), matched, Uncoloured);
    (Outside(nodesU, search.col.blue) + Inside(nodesV, search.col.red), search.matching)
  }

  /**
   * The matching returned is the input matching after a chain of augmenting paths, each
   * oriented (U-node, V-node); it is a matching of `g` at least as large as the input, and
   * every node the input matching covers stays covered.
   */
  lemma HungarianAugments(g: Graph, nodesU: seq<nat>, nodesV: seq<nat>, matched: set<Edge>)
    requires |g.adj| > 0 && Elems(nodesU) !! Elems(nodesV)
    requires ValidMatching(matched, g, Elems(nodesU), Elems(nodesV))
    ensures var r := HungarianResult(g, nodesU, nodesV, matched);
      && ValidMatching(r.1, g, Elems(nodesU), Elems(nodesV))
      && |r.1| >= |matched|
      && Covered(matched) <= Covered(r.1)
      && exists paths :: AugmentationChain(matched, paths, g, Elems(nodesU), Elems(nodesV))
                         && r.1 == AugmentAll(matched, paths, Elems(nodesV))
                         && |r.1| == |matched| + |paths|
  {
    var u, v := Elems(nodesU), Elems(nodesV);
    var search := SearchResult(g, u, v, matched, Uncoloured);
    AugmentAllGrows(matched, search.paths, g, u, v);
  }

  /**
   * For a colouring that keeps the invariant and leaves no exposed U-node uncoloured, the
   * U-nodes not blue followed by the red V-nodes meet every matching edge in exactly one
   * end, hold only matched nodes and no node twice, so they are exactly as many as the
   * matching has edges.
   */
  lemma CoverMatchesMatching(g: Graph, nodesU: seq<nat>, nodesV: seq<nat>, m: set<Edge>, col: Colouring)
    requires Elems(nodesU) !! Elems(nodesV)
    requires ValidMatching(m, g, Elems(nodesU), Elems(nodesV))
    requires ColouringInvariant(m, Elems(nodesU), Elems(nodesV), col)
    requires forall x :: x in nodesU && x < |g.adj| && x !in Covered(m) ==> x in col.blue
    requires Distinct(nodesU) && Distinct(nodesV)
    requires forall x :: x in nodesU ==> x < |g.adj|
    ensures var cover := Outside(nodesU, col.blue) + Inside(nodesV, col.red);
      && (forall e :: e in m ==> (e.0 in cover) != (e.1 in cover))
      && (forall x :: x in cover ==> x in Covered(m))
      && Distinct(cover)
      && |cover| == |m|
  {
    var u, v := Elems(nodesU), Elems(nodesV);
    var cover := Outside(nodesU, col.blue) + Inside(nodesV, col.red);
    forall e | e in m ensures (e.0 in cover) != (e.1 in cover) {
      assert e.0 in u && e.1 in v;
    }
    forall x | x in cover ensures x in Covered(m) {
      if x in nodesU {
        assert x < |g.adj| && x !in col.blue;
      }
    }
    OutsideDistinct(nodesU, col.blue);
    InsideDistinct(nodesV, col.red);
    DistinctConcat(Outside(nodesU, col.blue), Inside(nodesV, col.red));
    DistinctCard(cover);
    var pick := (e: Edge) => if e.0 in col.blue then e.1 else e.0;
    forall x | x in Elems(cover) ensures exists e :: e in m && pick(e) == x {
      assert x in Covered(m);
      var e :| e in m && (e.0 == x || e.1 == x);
      assert e.0 in u && e.1 in v;
      assert pick(e) == x;
    }
    forall e1, e2 | e1 in m && e2 in m && pick(e1) == pick(e2) ensures e1 == e2 {
      assert e1.0 in u && e1.1 in v && e2.0 in u && e2.1 in v;
    }
    BijectionCard(m, Elems(cover), pick);
  }

  /**
   * Every edge of the returned matching has exactly one end in the returned cover, the
   * cover holds only matched nodes and no node twice, so the cover is exactly as large as
   * the matching.
   */
  lemma HungarianCoverSize(g: Graph, nodesU: seq<nat>, nodesV: seq<nat>, matched: set<Edge>)
    requires |g.adj| > 0 && Elems(nodesU) !! Elems(nodesV)
    requires ValidMatching(matched, g, Elems(nodesU), Elems(nodesV))
    requires Distinct(nodesU) && Distinct(nodesV)
    requires forall x :: x in nodesU ==> x < |g.adj|
    ensures var r := HungarianResult(g, nodesU, nodesV, matched);
      && (forall e :: e in r.1 ==> (e.0 in r.0) != (e.1 in r.0))
      && (forall x :: x in r.0 ==> x in Covered(r.1))
      && Distinct(r.0)
      && |r.0| == |r.1|
  {
    var search := SearchResult(g, Elems(nodesU), Elems(nodesV), matched, Uncoloured);
    CoverMatchesMatching(g, nodesU, nodesV, search.matching, search.col);
  }

  /** `max_matching.iter().find(|x| x.1 == w)`: the mate of `w`, found by walking the matching. */
  method FindMate(m: set<Edge>, w: nat) returns (r: Option<nat>)
    requires IsMatching(m)
    ensures r == Mate(m, w)
  {
    var rest := m;
    while rest != {}
      invariant rest <= m
      invariant forall e :: e in m - rest ==> e.1 != w
      decreases rest
    {
      var e :| e in rest;
      if e.1 == w {
        assert Mate(m, w).Some? && (Mate(m, w).value, w) in m;
        return Some(e.0);
      }
      rest := rest - {e};
    }
    return None;
  }

  /** The loop over the neighbours of the blue node `s`, in ascending order. */
  method ScanNeighbours(g: Graph, m: set<Edge>, exposedV: set<nat>, s: nat, red: set<nat>) returns (r: ScanOutcome)
    requires IsMatching(m) && s < |g.adj|
    ensures r == ScanResult(g, m, exposedV, s, 0, red)
  {
    var w: nat := 0;
    var red': set<nat> := red;
    while w < |g.adj|
      invariant w <= |g.adj|
      invariant ScanResult(g, m, exposedV, s, w, red') == ScanResult(g, m, exposedV, s, 0, red)
    {
      if w in g.adj[s] {
        if w in exposedV {
          return ExposedNeighbour(w);
        }
        if w !in red' {
          red' := red' + {w};
          var mate := FindMate(m, w);
          if mate.Some? {
            return Extended(w, mate.value, red');
          }
        }
      }
      w := w + 1;
    }
    return Exhausted(red');
  }

  /**
   * The tree-building loop for the root `root`, already coloured blue in `col`: pops the
   * queue, scans each unscanned blue node, and either returns the augmenting path or the
   * colouring it leaves when the queue runs dry.
   */
  method BuildTree(g: Graph, m: set<Edge>, u: set<nat>, v: set<nat>, exposedV: set<nat>, root: nat, col: Colouring)
    returns (r: TreeOutcome)
    requires u !! v && ValidMatching(m, g, u, v) && exposedV == v - Covered(m)
    requires ColouringInvariant(m, u, v, col)
    requires IsTreeChain([root], m, g, u, col)
    ensures r == TreeResult(g, m, u, v, exposedV, root, [root], [root], col)
  {
    var queue := [root];
    var chain := [root];
    var c := col;
    while queue != []
      invariant ColouringInvariant(m, u, v, c)
      invariant IsTreeChain(chain, m, g, u, c)
      invariant queue == [] || queue == [chain[|chain| - 1]]
      invariant TreeResult(g, m, u, v, exposedV, root, queue, chain, c)
             == TreeResult(g, m, u, v, exposedV, root, [root], [root], col)
      decreases Range(|g.adj|) - c.red, |queue|
    {
      var s := queue[0];
      queue := queue[1..];
      if s !in c.scanned && s in c.blue {
        ChainLastIsNode(chain, m, g, u, c);
        var scan := ScanNeighbours(g, m, exposedV, s, c.red);
        match scan {
          case ExposedNeighbour(w) =>
            return AugmentingPath(chain + [w]);
          case Extended(w, mate, red') =>
            var c' := Colouring(red', c.blue + {mate}, c.scanned + {root});
            ColouringExtends(m, u, v, c, red', w, mate);
            ChainExtends(chain, w, mate, m, g, u, v, c, c');
            c := c';
            chain := chain + [w, mate];
            queue := queue + [mate];
          case Exhausted(red') =>
            ColouringExhausted(m, u, v, c, red');
            ChainRecoloured(chain, m, g, u, c, c.(red := red'));
            c := c.(red := red');
        }
      }
    }
    return NoPath(c);
  }

  /** An exposed U-node `k` that is not yet blue is coloured blue and a tree is grown from it. */
  method GrowFromRoot(g: Graph, m: set<Edge>, u: set<nat>, v: set<nat>, exposedU: set<nat>, exposedV: set<nat>,
                      k: nat, col: Colouring) returns (r: TreeOutcome)
    requires u !! v && ValidMatching(m, g, u, v)
    requires exposedU == u - Covered(m) && exposedV == v - Covered(m)
    requires k < |g.adj| && k in exposedU && k !in col.blue && ColouringInvariant(m, u, v, col)
    ensures ColouringInvariant(m, u, v, col.(blue := col.blue + {k}))
    ensures IsTreeChain([k], m, g, u, col.(blue := col.blue + {k}))
    ensures r == TreeResult(g, m, u, v, exposedV, k, [k], [k], col.(blue := col.blue + {k}))
  {
    var rooted := col.(blue := col.blue + {k});
    assert IsTreeChain([k], m, g, u, rooted);
    r := BuildTree(g, m, u, v, exposedV, k, rooted);
  }

  /** The loop over the node identifiers 0 .. n-1 of one pass. */
  method ExposedVertexPass(g: Graph, m: set<Edge>, u: set<nat>, v: set<nat>, exposedU: set<nat>, exposedV: set<nat>,
                           col: Colouring) returns (r: PassOutcome)
    requires |g.adj| > 0 && u !! v && ValidMatching(m, g, u, v)
    requires exposedU == u - Covered(m) && exposedV == v - Covered(m)
    requires ColouringInvariant(m, u, v, col)
    ensures r == PassResult(g, m, u, v, exposedU, exposedV, 0, col)
  {
    var k := 0;
    var c := col;
    while true
      invariant k < |g.adj|
      invariant ColouringInvariant(m, u, v, c)
      invariant PassResult(g, m, u, v, exposedU, exposedV, k, c) == PassResult(g, m, u, v, exposedU, exposedV, 0, col)
      decreases |g.adj| - k
    {
      var ended, c' := VisitIdentifier(g, m, u, v, exposedU, exposedV, k, c);
      if ended.Some? {
        return ended.value;
      }
      k, c := k + 1, c';
    }
  }

  /**
   * One turn of the loop over node identifiers: node k, a root if it is exposed and not
   * blue.  Either the pass ends here with its outcome, or it goes on at k + 1 with `col'`.
   */
  method VisitIdentifier(g: Graph, m: set<Edge>, u: set<nat>, v: set<nat>, exposedU: set<nat>, exposedV: set<nat>,
                         k: nat, col: Colouring) returns (ended: Option<PassOutcome>, col': Colouring)
    requires u !! v && ValidMatching(m, g, u, v)
    requires exposedU == u - Covered(m) && exposedV == v - Covered(m)
    requires k < |g.adj| && ColouringInvariant(m, u, v, col)
    ensures ended.Some? ==> ended.value == PassResult(g, m, u, v, exposedU, exposedV, k, col)
    ensures ended.None? ==>
      && k + 1 < |g.adj| && ColouringInvariant(m, u, v, col')
      && PassResult(g, m, u, v, exposedU, exposedV, k + 1, col') == PassResult(g, m, u, v, exposedU, exposedV, k, col)
  {
    col' := col;
    if k in exposedU && k !in col.blue {
      var tree := GrowFromRoot(g, m, u, v, exposedU, exposedV, k, col);
      match tree {
        case AugmentingPath(path) =>
          PassRootPath(g, m, u, v, exposedU, exposedV, k, col, path);
          return Some(Augmented(path)), col;
        case NoPath(c) =>
          if k + 1 == |g.adj| {
            return Some(Restarted(c)), col;
          }
          PassRootNoPath(g, m, u, v, exposedU, exposedV, k, col, c);
          return None, c;
      }
    } else if k + 1 == |g.adj| {
      return Some(Stopped(col)), col;
    } else {
      PassSkips(g, m, u, v, exposedU, exposedV, k, col);
      return None, col;
    }
  }

  /** The loop adding both ends of every matching edge to `covered`. */
  method AddCovered(covered: set<nat>, m: set<Edge>) returns (c: set<nat>)
    ensures c == covered + Covered(m)
  {
    c := covered;
    var rest := m;
    while rest != {}
      invariant rest <= m
      invariant c == covered + Covered(m - rest)
      decreases rest
    {
      var e :| e in rest;
      assert Covered(m - (rest - {e})) == Covered(m - rest) + {e.0, e.1};
      c := c + {e.0, e.1};
      rest := rest - {e};
    }
  }

  /** The loop visiting every node of `nodes` that is not in `covered`. */
  method AddExposed(exposed: set<nat>, nodes: seq<nat>, covered: set<nat>) returns (r: set<nat>)
    ensures r == exposed + (Elems(nodes) - covered)
  {
    r := exposed;
    for i := 0 to |nodes|
      invariant r == exposed + (Elems(nodes[..i]) - covered)
    {
      assert Elems(nodes[..i + 1]) == Elems(nodes[..i]) + {nodes[i]};
      if nodes[i] !in covered {
        r := r + {nodes[i]};
      }
    }
    assert nodes[..|nodes|] == nodes;
  }

  /** The two loops building the cover: U-nodes not blue, then V-nodes that are red. */
  method CollectCover(nodesU: seq<nat>, nodesV: seq<nat>, blue: set<nat>, red: set<nat>) returns (cover: seq<nat>)
    ensures cover == Outside(nodesU, blue) + Inside(nodesV, red)
  {
    cover := [];
    for i := 0 to |nodesU|
      invariant cover == Outside(nodesU[..i], blue)
    {
      assert nodesU[..i + 1][..i] == nodesU[..i];
      if nodesU[i] !in blue {
        cover := cover + [nodesU[i]];
      }
    }
    assert nodesU[..|nodesU|] == nodesU;
    var prefix := cover;
    for i := 0 to |nodesV|
      invariant cover == prefix + Inside(nodesV[..i], red)
    {
      assert nodesV[..i + 1][..i] == nodesV[..i];
      if nodesV[i] in red {
        cover := cover + [nodesV[i]];
      }
    }
    assert nodesV[..|nodesV|] == nodesV;
  }

  /**
   * The outer loop of `hungarian_maximum_matching`: repeats passes until one stops,
   * augmenting and clearing every colour whenever a pass finds an augmenting path.
   */
  method RunPasses(g: Graph, nodesU: seq<nat>, nodesV: seq<nat>, matched: set<Edge>)
    returns (col: Colouring, matching: set<Edge>)
    requires |g.adj| > 0 && Elems(nodesU) !! Elems(nodesV)
    requires ValidMatching(matched, g, Elems(nodesU), Elems(nodesV))
    ensures col == SearchResult(g, Elems(nodesU), Elems(nodesV), matched, Uncoloured).col
    ensures matching == SearchResult(g, Elems(nodesU), Elems(nodesV), matched, Uncoloured).matching
  {
    var u, v := Elems(nodesU), Elems(nodesV);
    // the source copies the input matching edge by edge into `max_matching`
    matching := matched;
    var covered: set<nat> := {};
    col := Uncoloured;
    var exposedU: set<nat> := {};
    var exposedV: set<nat> := {};
    ghost var final := SearchResult(g, u, v, matched, Uncoloured);
    while true
      invariant ValidMatching(matching, g, u, v) && ColouringInvariant(matching, u, v, col)
      invariant covered <= Covered(matching)
      invariant exposedU <= u - Covered(matching) && exposedV <= v - Covered(matching)
      invariant SearchResult(g, u, v, matching, col).col == final.col
      invariant SearchResult(g, u, v, matching, col).matching == final.matching
      decreases u - Covered(matching), Unrooted(g, u, matching, col)
    {
      covered := AddCovered(covered, matching);
      exposedU := AddExposed(exposedU, nodesU, covered);
      exposedV := AddExposed(exposedV, nodesV, covered);
      assert covered == Covered(matching);
      assert exposedU == u - Covered(matching) && exposedV == v - Covered(matching);
      var pass := ExposedVertexPass(g, matching, u, v, exposedU, exposedV, col);
      match pass {
        case Augmented(path) =>
          AugmentCoversRoot(path, matching, g, u, v);
          matching := SymmetricDifference(matching, PathEdges(path, v));
          covered := {};
          col := Uncoloured;
          exposedU := {};
          exposedV := {};
        case Stopped(c) =>
          col := c;
          break;
        case Restarted(c) =>
          RestartRootsAll(g, u, matching, col, c);
          col := c;
      }
    }
  }

  /** `hungarian_maximum_matching`: the search, then the cover. */
  method HungarianMaximumMatching(g: Graph, nodesU: seq<nat>, nodesV: seq<nat>, matched: set<Edge>)
    returns (cover: seq<nat>, matching: set<Edge>)
    requires |g.adj| > 0 && Elems(nodesU) !! Elems(nodesV)
    requires ValidMatching(matched, g, Elems(nodesU), Elems(nodesV))
    ensures (cover, matching) == HungarianResult(g, nodesU, nodesV, matched)
    ensures ValidMatching(matching, g, Elems(nodesU), Elems(nodesV)) && |matching| >= |matched|
    ensures Distinct(nodesU) && Distinct(nodesV) && (forall x :: x in nodesU ==> x < |g.adj|) ==>
      |cover| == |matching|
  {
    var col;
    col, matching := RunPasses(g, nodesU, nodesV, matched);
    cover := CollectCover(nodesU, nodesV, col.blue, col.red);
    HungarianAugments(g, nodesU, nodesV, matched);
    if Distinct(nodesU) && Distinct(nodesV) && (forall x :: x in nodesU ==> x < |g.adj|) {
      HungarianCoverSize(g, nodesU, nodesV, matched);
    }
  }
}
