/**
 * Undirected graphs on the node identifiers 0 .. n-1, matchings, vertex covers and
 * augmentation by the symmetric difference with an alternating path.
 *
 * A graph is given by its adjacency lists: `adj[k]` lists the neighbours of node `k`
 * in the order a traversal of the graph visits them.
 */
module Graphs {
  import opened Collections

  datatype Graph = Graph(adj: seq<seq<nat>>) {
    function NodeCount(): (r: nat) { |adj| }
  }

  /** Every listed neighbour is a node, and the neighbour relation is symmetric. */
  predicate ValidGraph(g: Graph) {
    && (forall a, k :: 0 <= a < |g.adj| && 0 <= k < |g.adj[a]| ==> g.adj[a][k] < |g.adj|)
    && (forall a, b :: 0 <= a < |g.adj| && 0 <= b < |g.adj| ==> (b in g.adj[a] <==> a in g.adj[b]))
  }

  predicate IsEdge(g: Graph, a: nat, b: nat) {
    a < |g.adj| && b in g.adj[a]
  }

  /** Edges are written (first, second); a matching of a bipartite graph lists the U-node first. */
  type Edge = (nat, nat)

  /** No two distinct edges of `m` share an endpoint. */
  predicate IsMatching(m: set<Edge>) {
    forall e1, e2 :: e1 in m && e2 in m && e1 != e2 ==>
      e1.0 != e2.0 && e1.0 != e2.1 && e1.1 != e2.0 && e1.1 != e2.1
  }

  predicate InGraph(m: set<Edge>, g: Graph) {
    forall e :: e in m ==> IsEdge(g, e.0, e.1)
  }

  /** Every edge of `m` goes from a node of `u` to a node of `v`. */
  predicate Oriented(m: set<Edge>, u: set<nat>, v: set<nat>) {
    forall e :: e in m ==> e.0 in u && e.1 in v
  }

  /** A matching of `g` whose edges all go from `u` to `v`. */
  predicate ValidMatching(m: set<Edge>, g: Graph, u: set<nat>, v: set<nat>) {
    IsMatching(m) && InGraph(m, g) && Oriented(m, u, v)
  }

  /** The nodes that some edge of `m` touches. */
  function Covered(m: set<Edge>): (c: set<nat>)
    ensures forall x :: x in c <==> exists e :: e in m && (e.0 == x || e.1 == x)
  {
    (set e | e in m :: e.0) + (set e | e in m :: e.1)
  }

  /** Every edge of `g` has an endpoint in `c`. */
  ghost predicate IsVertexCover(c: set<nat>, g: Graph) {
    forall a, b :: IsEdge(g, a, b) ==> a in c || b in c
  }

  /** How a path edge between consecutive nodes `a`, `b` is recorded: V-node second. */
  function OrientedPair(a: nat, b: nat, v: set<nat>): (r: Edge) {
    if a in v then (b, a) else (a, b)
  }

  /** The edge between `path[i]` and `path[i + 1]`, oriented by `OrientedPair`. */
  function PathStep(path: seq<nat>, i: nat, v: set<nat>): (r: Edge)
    requires i + 1 < |path|
  {
    OrientedPair(path[i], path[i + 1], v)
  }

  /** The edges between consecutive nodes of `path`, each oriented by `OrientedPair`. */
  function PathEdges(path: seq<nat>, v: set<nat>): (r: set<Edge>) {
    set i | 0 <= i < |path| - 1 :: PathStep(path, i, v)
  }

  function SymmetricDifference(a: set<Edge>, b: set<Edge>): (r: set<Edge>)
    ensures forall e :: e in r <==> (e in a) != (e in b)
  {
    (a - b) + (b - a)
  }

  /**
   * `path` alternates U-node, V-node, ... between two nodes that `m` leaves exposed, its
   * consecutive nodes are adjacent in `g`, its nodes are distinct, and every second edge
   * (V-node to the next U-node) belongs to `m`.
   */
  ghost predicate IsAugmentingPath(path: seq<nat>, m: set<Edge>, g: Graph, u: set<nat>, v: set<nat>) {
    && |path| >= 2 && |path| % 2 == 0
    && (forall j :: 0 <= j < |path| / 2 ==> path[2 * j] in u && path[2 * j + 1] in v)
    && (forall j :: 0 <= j < |path| / 2 ==> IsEdge(g, path[2 * j], path[2 * j + 1]))
    && (forall j :: 0 <= j < |path| / 2 - 1 ==> MatchedEdge(path, j) in m)
    && Distinct(path)
    && path[0] !in Covered(m)
    && path[|path| - 1] !in Covered(m)
  }

  /** The j-th path edge that is not in the matching: (path[2j], path[2j+1]). */
  function FreeEdge(path: seq<nat>, j: nat): (r: Edge)
    requires 2 * j + 1 < |path|
  {
    (path[2 * j], path[2 * j + 1])
  }

  /** The j-th path edge that is in the matching: (path[2j+2], path[2j+1]). */
  function MatchedEdge(path: seq<nat>, j: nat): (r: Edge)
    requires 2 * j + 2 < |path|
  {
    (path[2 * j + 2], path[2 * j + 1])
  }

  function FreeEdges(path: seq<nat>): (r: set<Edge>)
    requires |path| % 2 == 0
  {
    set j | 0 <= j < |path| / 2 :: FreeEdge(path, j)
  }

  function MatchedEdges(path: seq<nat>): (r: set<Edge>)
    requires |path| % 2 == 0
  {
    set j | 0 <= j < |path| / 2 - 1 :: MatchedEdge(path, j)
  }

  lemma PathEdgesSplit(path: seq<nat>, m: set<Edge>, g: Graph, u: set<nat>, v: set<nat>)
    requires u !! v
    requires IsAugmentingPath(path, m, g, u, v)
    ensures PathEdges(path, v) == FreeEdges(path) + MatchedEdges(path)
  {
    forall e | e in PathEdges(path, v) ensures e in FreeEdges(path) + MatchedEdges(path) {
      var i :| 0 <= i < |path| - 1 && e == PathStep(path, i, v);
      var j := i / 2;
      if i % 2 == 0 {
        assert i == 2 * j;
        assert path[i] in u;
        assert e == FreeEdge(path, j);
      } else {
        assert i == 2 * j + 1;
        assert path[i] in v;
        assert e == MatchedEdge(path, j);
      }
    }
    forall e | e in FreeEdges(path) ensures e in PathEdges(path, v) {
      var j :| 0 <= j < |path| / 2 && e == FreeEdge(path, j);
      assert path[2 * j] in u;
      assert e == PathStep(path, 2 * j, v);
    }
    forall e | e in MatchedEdges(path) ensures e in PathEdges(path, v) {
      var j :| 0 <= j < |path| / 2 - 1 && e == MatchedEdge(path, j);
      assert path[2 * j + 1] in v;
      assert e == PathStep(path, 2 * j + 1, v);
    }
  }

  /** An edge of `m` that is not on the path touches no inner node of the path. */
  lemma OffPathEdge(path: seq<nat>, m: set<Edge>, g: Graph, u: set<nat>, v: set<nat>, e: Edge, j: nat)
    requires IsMatching(m)
    requires IsAugmentingPath(path, m, g, u, v)
    requires e in m && e !in MatchedEdges(path)
    requires j < |path| / 2
    ensures e.0 != path[2 * j] && e.1 != path[2 * j + 1]
  {
    if j == 0 {
      assert path[0] !in Covered(m);
    } else {
      var f := MatchedEdge(path, j - 1);
      assert f in MatchedEdges(path);
      assert f.0 == path[2 * j];
    }
    if j == |path| / 2 - 1 {
      assert path[|path| - 1] !in Covered(m);
    } else {
      var f := MatchedEdge(path, j);
      assert f in MatchedEdges(path);
      assert f.1 == path[2 * j + 1];
    }
  }

  /** The free path edges are not in `m`; the matched ones are. */
  lemma FreeAndMatched(path: seq<nat>, m: set<Edge>, g: Graph, u: set<nat>, v: set<nat>)
    requires IsMatching(m)
    requires IsAugmentingPath(path, m, g, u, v)
    ensures MatchedEdges(path) <= m
    ensures FreeEdges(path) !! m
  {
    forall e | e in FreeEdges(path) ensures e !in m {
      var j :| 0 <= j < |path| / 2 && e == FreeEdge(path, j);
      if j == 0 {
        assert path[0] !in Covered(m);
      } else {
        var f := MatchedEdge(path, j - 1);
        assert f in m;
        assert f.0 == e.0;
        assert path[2 * j + 1] != path[2 * j - 1];
      }
    }
  }

  lemma FreeEdgesCard(path: seq<nat>)
    requires |path| % 2 == 0
    requires Distinct(path)
    ensures |FreeEdges(path)| == |path| / 2
  {
    var k := |path| / 2;
    var s := seq(k, j requires 0 <= j < k => FreeEdge(path, j));
    forall e | e in FreeEdges(path) ensures e in Elems(s) {
      var j :| 0 <= j < k && e == FreeEdge(path, j);
      assert s[j] == e;
    }
    assert Elems(s) == FreeEdges(path);
    forall i, j | 0 <= i < j < k ensures s[i] != s[j] {
      assert path[2 * i] != path[2 * j];
    }
    DistinctCard(s);
  }

  lemma MatchedEdgesCard(path: seq<nat>)
    requires |path| % 2 == 0 && |path| >= 2
    requires Distinct(path)
    ensures |MatchedEdges(path)| == |path| / 2 - 1
  {
    var k := |path| / 2 - 1;
    var s := seq(k, j requires 0 <= j < k => MatchedEdge(path, j));
    forall e | e in MatchedEdges(path) ensures e in Elems(s) {
      var j :| 0 <= j < k && e == MatchedEdge(path, j);
      assert s[j] == e;
    }
    assert Elems(s) == MatchedEdges(path);
    forall i, j | 0 <= i < j < k ensures s[i] != s[j] {
      assert path[2 * i + 1] != path[2 * j + 1];
    }
    DistinctCard(s);
  }

  lemma AugmentIsMatching(path: seq<nat>, m: set<Edge>, g: Graph, u: set<nat>, v: set<nat>)
    requires u !! v
    requires IsMatching(m) && Oriented(m, u, v)
    requires IsAugmentingPath(path, m, g, u, v)
    ensures IsMatching((m - MatchedEdges(path)) + FreeEdges(path))
    ensures Oriented((m - MatchedEdges(path)) + FreeEdges(path), u, v)
  {
    var rest, free := m - MatchedEdges(path), FreeEdges(path);
    var m' := rest + free;
    forall e | e in free ensures e.0 in u && e.1 in v {
      var j :| 0 <= j < |path| / 2 && e == FreeEdge(path, j);
    }
    forall e1, e2 | e1 in m' && e2 in m' && e1 != e2
      ensures e1.0 != e2.0 && e1.0 != e2.1 && e1.1 != e2.0 && e1.1 != e2.1
    {
      if e1 in free && e2 in free {
        var i :| 0 <= i < |path| / 2 && e1 == FreeEdge(path, i);
        var j :| 0 <= j < |path| / 2 && e2 == FreeEdge(path, j);
        assert i != j;
      } else if e1 in free {
        var i :| 0 <= i < |path| / 2 && e1 == FreeEdge(path, i);
        OffPathEdge(path, m, g, u, v, e2, i);
      } else if e2 in free {
        var j :| 0 <= j < |path| / 2 && e2 == FreeEdge(path, j);
        OffPathEdge(path, m, g, u, v, e1, j);
      }
    }
  }

  /** Every node the augmented matching covers was covered before or is an end of the path. */
  lemma AugmentCoveredSub(path: seq<nat>, m: set<Edge>, g: Graph, u: set<nat>, v: set<nat>)
    requires IsAugmentingPath(path, m, g, u, v)
    ensures Covered((m - MatchedEdges(path)) + FreeEdges(path)) <= Covered(m) + {path[0], path[|path| - 1]}
  {
    var free := FreeEdges(path);
    var m' := (m - MatchedEdges(path)) + free;
    var k := |path| / 2;
    forall x | x in Covered(m') ensures x in Covered(m) + {path[0], path[|path| - 1]} {
      var e :| e in m' && (e.0 == x || e.1 == x);
      if e in free {
        var j :| 0 <= j < k && e == FreeEdge(path, j);
        if x == path[2 * j] && j > 0 {
          assert MatchedEdge(path, j - 1) in m;
        } else if x == path[2 * j + 1] && j < k - 1 {
          assert MatchedEdge(path, j) in m;
        }
      }
    }
  }

  /** The augmented matching still covers every node `m` covered, and both ends of the path. */
  lemma AugmentCoveredSup(path: seq<nat>, m: set<Edge>, g: Graph, u: set<nat>, v: set<nat>)
    requires IsAugmentingPath(path, m, g, u, v)
    ensures Covered(m) + {path[0], path[|path| - 1]} <= Covered((m - MatchedEdges(path)) + FreeEdges(path))
  {
    var free, matched := FreeEdges(path), MatchedEdges(path);
    var m' := (m - matched) + free;
    var k := |path| / 2;
    var first, final := FreeEdge(path, 0), FreeEdge(path, k - 1);
    assert first in m' && first.0 == path[0];
    assert final in m' && final.1 == path[|path| - 1];
    forall x | x in Covered(m) ensures x in Covered(m') {
      var e :| e in m && (e.0 == x || e.1 == x);
      if e in matched {
        var j :| 0 <= j < k - 1 && e == MatchedEdge(path, j);
        var f0, f1 := FreeEdge(path, j), FreeEdge(path, j + 1);
        assert f0 in free && f1 in free;
        if x == e.1 {
          assert f0.1 == x;
        } else {
          assert f1.0 == x;
        }
      } else {
        assert e in m';
      }
    }
  }

  lemma AugmentInGraph(path: seq<nat>, m: set<Edge>, g: Graph, u: set<nat>, v: set<nat>)
    requires InGraph(m, g)
    requires IsAugmentingPath(path, m, g, u, v)
    ensures InGraph((m - MatchedEdges(path)) + FreeEdges(path), g)
  {
    forall e | e in FreeEdges(path) ensures IsEdge(g, e.0, e.1) {
      var j :| 0 <= j < |path| / 2 && e == FreeEdge(path, j);
    }
  }

  lemma AugmentSize(path: seq<nat>, m: set<Edge>, g: Graph, u: set<nat>, v: set<nat>)
    requires IsMatching(m)
    requires IsAugmentingPath(path, m, g, u, v)
    ensures |(m - MatchedEdges(path)) + FreeEdges(path)| == |m| + 1
  {
    var free, matched := FreeEdges(path), MatchedEdges(path);
    FreeAndMatched(path, m, g, u, v);
    FreeEdgesCard(path);
    MatchedEdgesCard(path);
    assert m == (m - matched) + matched;
    assert (m - matched) !! free;
  }

  /** The symmetric difference with the path drops its matched edges and adds its free ones. */
  lemma AugmentedEdges(path: seq<nat>, m: set<Edge>, g: Graph, u: set<nat>, v: set<nat>)
    requires u !! v
    requires IsMatching(m)
    requires IsAugmentingPath(path, m, g, u, v)
    ensures SymmetricDifference(m, PathEdges(path, v)) == (m - MatchedEdges(path)) + FreeEdges(path)
  {
    PathEdgesSplit(path, m, g, u, v);
    FreeAndMatched(path, m, g, u, v);
  }

  /**
   * Augmenting along an augmenting path yields a matching of `g` again, oriented the same
   * way, one edge larger, that covers exactly the old covered nodes and the two ends.
   */
  lemma Augment(path: seq<nat>, m: set<Edge>, g: Graph, u: set<nat>, v: set<nat>)
    requires u !! v
    requires IsMatching(m) && InGraph(m, g) && Oriented(m, u, v)
    requires IsAugmentingPath(path, m, g, u, v)
    ensures var m' := SymmetricDifference(m, PathEdges(path, v));
      && IsMatching(m') && InGraph(m', g) && Oriented(m', u, v)
      && |m'| == |m| + 1
      && Covered(m') == Covered(m) + {path[0], path[|path| - 1]}
  {
    AugmentedEdges(path, m, g, u, v);
    AugmentIsMatching(path, m, g, u, v);
    AugmentInGraph(path, m, g, u, v);
    AugmentSize(path, m, g, u, v);
    AugmentCoveredSub(path, m, g, u, v);
    AugmentCoveredSup(path, m, g, u, v);
  }

  /** `m` after augmenting along each of `paths` in turn. */
  function AugmentAll(m: set<Edge>, paths: seq<seq<nat>>, v: set<nat>): (r: set<Edge>)
    decreases |paths|
  {
    if paths == [] then m
    else AugmentAll(SymmetricDifference(m, PathEdges(paths[0], v)), paths[1..], v)
  }

  /** Each of `paths` is an augmenting path for the matching the earlier ones produce. */
  ghost predicate AugmentationChain(m: set<Edge>, paths: seq<seq<nat>>, g: Graph, u: set<nat>, v: set<nat>)
    decreases |paths|
  {
    paths == [] ||
    (IsAugmentingPath(paths[0], m, g, u, v) &&
     AugmentationChain(SymmetricDifference(m, PathEdges(paths[0], v)), paths[1..], g, u, v))
  }

  /**
   * A chain of augmentations keeps a valid matching, grows it by one edge per path and
   * never uncovers a node.
   */
  lemma {:induction false} AugmentAllGrows(m: set<Edge>, paths: seq<seq<nat>>, g: Graph, u: set<nat>, v: set<nat>)
    requires u !! v
    requires ValidMatching(m, g, u, v)
    requires AugmentationChain(m, paths, g, u, v)
    ensures ValidMatching(AugmentAll(m, paths, v), g, u, v)
    ensures |AugmentAll(m, paths, v)| == |m| + |paths|
    ensures Covered(m) <= Covered(AugmentAll(m, paths, v))
    decreases |paths|
  {
    if paths != [] {
      Augment(paths[0], m, g, u, v);
      AugmentAllGrows(SymmetricDifference(m, PathEdges(paths[0], v)), paths[1..], g, u, v);
    }
  }

  /**
   * Weak duality: no matching of `g` is larger than a vertex cover of `g`
   * (the inequality half of Koenig's theorem).
   */
  lemma MatchingAtMostCover(m: set<Edge>, c: set<nat>, g: Graph)
    requires IsMatching(m) && InGraph(m, g)
    requires IsVertexCover(c, g)
    ensures |m| <= |c|
  {
    var pick := (e: Edge) => if e.0 in c then e.0 else e.1;
    forall e | e in m ensures pick(e) in c {
      assert IsEdge(g, e.0, e.1);
    }
    InjectionCard(m, c, pick);
  }

  /** A matching and a vertex cover of the same size certify each other's optimality. */
  lemma CoverCertifiesMaximum(m: set<Edge>, c: set<nat>, g: Graph, m': set<Edge>)
    requires IsMatching(m) && InGraph(m, g) && IsVertexCover(c, g) && |m| == |c|
    requires IsMatching(m') && InGraph(m', g)
    ensures |m'| <= |m|
  {
    MatchingAtMostCover(m', c, g);
  }
}
