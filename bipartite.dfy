/**
 * The two colour-propagation passes of the bipartite module: `is_bipartite_undirected`
 * and `bipartite_undirected`.  Both visit the nodes in identifier order and, for each
 * node, its neighbours in adjacency-list order, and decide from the four flags
 * (node blue, node red, neighbour blue, neighbour red) what to colour.
 */
module Bipartite {
  import opened Collections
  import opened Graphs

  /** The split of the nodes produced by `bipartite_undirected`. */
  datatype BipartiteGraph = BipartiteGraph(nodesU: seq<nat>, nodesV: seq<nat>)

  /** The `blue` and `red` visit maps. */
  datatype Colours = Colours(blue: set<nat>, red: set<nat>)

  const NoColours: Colours := Colours({}, {})

  /** The position (node k, neighbour index i) is a step of the traversal or its end. */
  predicate AtStep(g: Graph, k: nat, i: nat) {
    k <= |g.adj| && (k < |g.adj| ==> i <= |g.adj[k]|)
  }

  /** Strictly ascending, hence without repetition. */
  predicate Ascending(s: seq<nat>) {
    forall i, j :: 0 <= i < j < |s| ==> s[i] < s[j]
  }

  // ---------------------------------------------------------------------------------
  // bipartite_undirected

  /**
   * One step of `bipartite_undirected` for `node` and its neighbour `nb`: both uncoloured
   * makes the node blue and the neighbour red; a blue node colours an uncoloured neighbour
   * red; an uncoloured node next to a red neighbour becomes blue; anything else is skipped.
   */
  function Propagate(c: Colours, node: nat, nb: nat): (r: Colours)
    ensures c.blue <= r.blue && c.red <= r.red
    ensures r.blue - c.blue <= {node} && r.red - c.red <= {nb}
    ensures node !in c.blue && node !in c.red && nb !in c.blue ==> node in r.blue
    ensures node in c.blue && node !in c.red && nb !in c.blue ==> nb in r.red
    ensures node in c.red || nb in c.blue ==> r == c
  {
    var isBlue, isRed, nbBlue, nbRed := node in c.blue, node in c.red, nb in c.blue, nb in c.red;
    if !isBlue && !isRed && !nbBlue && !nbRed then Colours(c.blue + {node}, c.red + {nb})
    else if isBlue && !isRed && !nbBlue && !nbRed then Colours(c.blue, c.red + {nb})
    else if !isBlue && !isRed && !nbBlue && nbRed then Colours(c.blue + {node}, c.red)
    else c
  }

  /** The colour propagation from step (k, i) to the end of the traversal. */
  function PropagateFrom(g: Graph, k: nat, i: nat, c: Colours): (r: Colours)
    requires AtStep(g, k, i)
    decreases |g.adj| - k, if k < |g.adj| then |g.adj[k]| - i else 0
  {
    if k == |g.adj| then c
    else if i == |g.adj[k]| then PropagateFrom(g, k + 1, 0, c)
    else PropagateFrom(g, k, i + 1, Propagate(c, k, g.adj[k][i]))
  }

  /**
   * The final loop over the identifiers 0 .. n-1: blue nodes go to `nodesU`, red nodes
   * that are not blue to `nodesV`, both in identifier order.
   */
  function Split(n: nat, c: Colours): (r: BipartiteGraph)
    ensures forall x :: x in r.nodesU <==> x < n && x in c.blue
    ensures forall x :: x in r.nodesV <==> x < n && x !in c.blue && x in c.red
    ensures Ascending(r.nodesU) && Ascending(r.nodesV)
    ensures forall x :: x in r.nodesU || x in r.nodesV ==> x < n
  {
    if n == 0 then BipartiteGraph([], [])
    else
      var r := Split(n - 1, c);
      assert forall i :: 0 <= i < |r.nodesU| ==> r.nodesU[i] in r.nodesU;
      assert forall i :: 0 <= i < |r.nodesV| ==> r.nodesV[i] in r.nodesV;
      if n - 1 in c.blue then r.(nodesU := r.nodesU + [n - 1])
      else if n - 1 in c.red then r.(nodesV := r.nodesV + [n - 1])
      else r
  }

  /** `bipartite_undirected`: never fails, whatever the colouring runs into. */
  function BipartiteUndirected(g: Graph): (r: Option<BipartiteGraph>)
    ensures r.Some?
  {
    Some(Split(|g.adj|, PropagateFrom(g, 0, 0, NoColours)))
  }

  /** The two lists are disjoint, ascending and hold node identifiers only. */
  lemma BipartiteSplitIsDisjoint(g: Graph)
    ensures var b := BipartiteUndirected(g).value;
      && Elems(b.nodesU) !! Elems(b.nodesV)
      && Distinct(b.nodesU) && Distinct(b.nodesV)
      && Ascending(b.nodesU) && Ascending(b.nodesV)
      && (forall x :: x in b.nodesU || x in b.nodesV ==> x < |g.adj|)
  {
  }

  /** Every colour handed out goes to a node that lists a neighbour or is listed as one. */
  lemma {:induction false} PropagateColoursTouched(g: Graph, k: nat, i: nat, c: Colours)
    requires AtStep(g, k, i)
    ensures var r := PropagateFrom(g, k, i, c);
      forall x :: x in r.blue + r.red ==>
        x in c.blue + c.red || (x < |g.adj| && |g.adj[x]| > 0) || exists a :: 0 <= a < |g.adj| && x in g.adj[a]
    decreases |g.adj| - k, if k < |g.adj| then |g.adj[k]| - i else 0
  {
    if k < |g.adj| {
      if i == |g.adj[k]| {
        PropagateColoursTouched(g, k + 1, 0, c);
      } else {
        var c' := Propagate(c, k, g.adj[k][i]);
        PropagateColoursTouched(g, k, i + 1, c');
        assert g.adj[k][i] in g.adj[k];
        forall x | x in c'.blue + c'.red
          ensures x in c.blue + c.red || (x < |g.adj| && |g.adj[x]| > 0) || exists a :: 0 <= a < |g.adj| && x in g.adj[a]
        {
          if x !in c.blue + c.red && x != k {
            assert x == g.adj[k][i];
          }
        }
      }
    }
  }

  /** A node without neighbours is never coloured, so it is in neither list. */
  lemma IsolatedNodeUncoloured(g: Graph, x: nat)
    requires ValidGraph(g)
    requires x < |g.adj| && |g.adj[x]| == 0
    ensures x !in BipartiteUndirected(g).value.nodesU && x !in BipartiteUndirected(g).value.nodesV
  {
    PropagateColoursTouched(g, 0, 0, NoColours);
    forall a | 0 <= a < |g.adj| ensures x !in g.adj[a] {
      assert a !in g.adj[x];
    }
  }

  /** Every edge joins a node below `n` (a row) to a node from `n` up (a column). */
  predicate SplitAt(g: Graph, n: nat) {
    && n <= |g.adj|
    && forall a, j :: 0 <= a < |g.adj| && 0 <= j < |g.adj[a]| ==> (a < n <==> g.adj[a][j] >= n)
  }

  /** The nodes below `k` that have a neighbour. */
  function WithNeighbours(g: Graph, k: nat): (r: set<nat>)
    requires k <= |g.adj|
    ensures forall x: nat :: x in r <==> x < k && |g.adj[x]| > 0
  {
    if k == 0 then {} else WithNeighbours(g, k - 1) + (if |g.adj[k - 1]| > 0 then {k - 1} else {})
  }

  /** The nodes listed as a neighbour by a node below `k`. */
  function ListedBy(g: Graph, k: nat): (r: set<nat>)
    requires k <= |g.adj|
    ensures forall x :: x in r <==> exists a :: 0 <= a < k && x in g.adj[a]
  {
    if k == 0 then {} else ListedBy(g, k - 1) + Elems(g.adj[k - 1])
  }

  /** The colours of `bipartite_undirected` on a split graph just before row step (k, i). */
  function RowColours(g: Graph, k: nat, i: nat): (r: Colours)
    requires k < |g.adj| && i <= |g.adj[k]|
  {
    Colours(WithNeighbours(g, k) + (if i > 0 then {k} else {}), ListedBy(g, k) + Elems(g.adj[k][..i]))
  }

  /** The colours after all rows: rows with a neighbour blue, their neighbours red. */
  function RowsDone(g: Graph, n: nat): (r: Colours)
    requires n <= |g.adj|
  {
    Colours(WithNeighbours(g, n), ListedBy(g, n))
  }

  /** A row step adds the row to blue and its neighbour to red, if not there yet. */
  lemma RowStep(g: Graph, n: nat, k: nat, i: nat)
    requires SplitAt(g, n) && k < n && i < |g.adj[k]|
    ensures Propagate(RowColours(g, k, i), k, g.adj[k][i]) == RowColours(g, k, i + 1)
  {
    var c := RowColours(g, k, i);
    var nb := g.adj[k][i];
    assert k !in c.red && nb !in c.blue;
    assert g.adj[k][..i + 1] == g.adj[k][..i] + [nb];
  }

  /** The colours at the end of a row are those at the start of the next. */
  lemma RowEnd(g: Graph, n: nat, k: nat)
    requires SplitAt(g, n) && k < n
    ensures k + 1 < n ==> RowColours(g, k, |g.adj[k]|) == RowColours(g, k + 1, 0)
    ensures k + 1 == n ==> RowColours(g, k, |g.adj[k]|) == RowsDone(g, n)
  {
    assert g.adj[k][..|g.adj[k]|] == g.adj[k];
  }

  /** In the row phase every step colours row k blue and its neighbour red. */
  lemma {:induction false} RowPhase(g: Graph, n: nat, k: nat, i: nat)
    requires SplitAt(g, n) && k < n && i <= |g.adj[k]|
    ensures PropagateFrom(g, k, i, RowColours(g, k, i)) == PropagateFrom(g, n, 0, RowsDone(g, n))
    decreases n - k, |g.adj[k]| - i
  {
    if i == |g.adj[k]| {
      RowEnd(g, n, k);
      if k + 1 < n {
        RowPhase(g, n, k + 1, 0);
      }
    } else {
      RowStep(g, n, k, i);
      RowPhase(g, n, k, i + 1);
    }
  }

  /** In the column phase every pair is already coloured (red column, blue row): nothing changes. */
  lemma {:induction false} ColumnPhase(g: Graph, n: nat, k: nat, i: nat)
    requires ValidGraph(g) && SplitAt(g, n) && n <= k && AtStep(g, k, i)
    ensures PropagateFrom(g, k, i, RowsDone(g, n)) == RowsDone(g, n)
    decreases |g.adj| - k, if k < |g.adj| then |g.adj[k]| - i else 0
  {
    if k < |g.adj| {
      if i == |g.adj[k]| {
        ColumnPhase(g, n, k + 1, 0);
      } else {
        var c := RowsDone(g, n);
        var nb := g.adj[k][i];
        assert k in g.adj[nb];
        assert nb in c.blue && k in c.red;
        ColumnPhase(g, n, k, i + 1);
      }
    }
  }

  /**
   * On a graph whose edges all join a row (below `n`) to a column (from `n` up), such as
   * the equality graph of a cost matrix, `nodesU` is exactly the rows with an edge and
   * `nodesV` exactly the columns with an edge, whatever the order of the adjacency lists.
   */
  lemma SplitGraphSides(g: Graph, n: nat)
    requires ValidGraph(g) && SplitAt(g, n)
    ensures var b := BipartiteUndirected(g).value;
      && (forall x: nat :: x in b.nodesU <==> x < n && |g.adj[x]| > 0)
      && (forall x: nat :: x in b.nodesV <==> n <= x < |g.adj| && |g.adj[x]| > 0)
  {
    var done := RowsDone(g, n);
    if n == 0 {
      assert NoColours == done;
    } else {
      assert NoColours == RowColours(g, 0, 0);
      RowPhase(g, n, 0, 0);
    }
    ColumnPhase(g, n, n, 0);
    assert PropagateFrom(g, 0, 0, NoColours) == done;
    forall x: nat ensures x in done.red <==> n <= x < |g.adj| && |g.adj[x]| > 0 {
      if x in done.red {
        var a :| 0 <= a < n && x in g.adj[a];
        assert a in g.adj[x];
      }
      if n <= x < |g.adj| && |g.adj[x]| > 0 {
        var a := g.adj[x][0];
        assert x in g.adj[a];
      }
    }
  }

  /** An ascending list is determined by its elements. */
  lemma {:induction false} AscendingDetermined(s: seq<nat>, t: seq<nat>)
    requires Ascending(s) && Ascending(t)
    requires forall x :: x in s <==> x in t
    ensures s == t
    decreases |s|
  {
    assert |s| > 0 ==> s[0] in s;
    assert |t| > 0 ==> t[0] in t;
    if |s| > 0 && |t| > 0 {
      var i :| 0 <= i < |t| && t[i] == s[0];
      var j :| 0 <= j < |s| && s[j] == t[0];
      assert s[0] <= s[j] && t[0] <= t[i];
      forall x ensures x in s[1..] <==> x in t[1..] {
        assert x in s[1..] <==> x in s && x != s[0];
        assert x in t[1..] <==> x in t && x != t[0];
      }
      AscendingDetermined(s[1..], t[1..]);
      assert s == [s[0]] + s[1..] && t == [t[0]] + t[1..];
    }
  }

  /**
   * On a split graph the result is fixed by the graph alone: `nodesU` lists the rows with
   * an edge and `nodesV` the columns with an edge, both in ascending order.
   */
  lemma SplitGraphLists(g: Graph, n: nat, nodesU: seq<nat>, nodesV: seq<nat>)
    requires ValidGraph(g) && SplitAt(g, n)
    requires Ascending(nodesU) && Ascending(nodesV)
    requires forall x: nat :: x in nodesU <==> x < n && |g.adj[x]| > 0
    requires forall x: nat :: x in nodesV <==> n <= x < |g.adj| && |g.adj[x]| > 0
    ensures BipartiteUndirected(g) == Some(BipartiteGraph(nodesU, nodesV))
  {
    var b := BipartiteUndirected(g).value;
    SplitGraphSides(g, n);
    BipartiteSplitIsDisjoint(g);
    AscendingDetermined(b.nodesU, nodesU);
    AscendingDetermined(b.nodesV, nodesV);
  }

  /** The imperative `bipartite_undirected`: the nested colouring loops, then the split. */
  method BipartiteUndirectedLoop(g: Graph) returns (r: Option<BipartiteGraph>)
    ensures r == BipartiteUndirected(g)
  {
    var c := NoColours;
    for k := 0 to |g.adj|
      invariant PropagateFrom(g, k, 0, c) == PropagateFrom(g, 0, 0, NoColours)
    {
      for i := 0 to |g.adj[k]|
        invariant PropagateFrom(g, k, i, c) == PropagateFrom(g, 0, 0, NoColours)
      {
        c := Propagate(c, k, g.adj[k][i]);
      }
    }
    var nodesU: seq<nat> := [];
    var nodesV: seq<nat> := [];
    for x := 0 to |g.adj|
      invariant BipartiteGraph(nodesU, nodesV) == Split(x, c)
    {
      if x in c.blue {
        nodesU := nodesU + [x];
      } else if x in c.red {
        nodesV := nodesV + [x];
      }
    }
    return Some(BipartiteGraph(nodesU, nodesV));
  }

  // ---------------------------------------------------------------------------------
  // is_bipartite_undirected

  /**
   * One step of `is_bipartite_undirected` for `node` and its neighbour `nb`: the three
   * colouring cases of `bipartite_undirected` plus "blue neighbour colours an uncoloured
   * node red"; an already properly coloured pair is skipped; every other combination of
   * flags rejects the graph.
   */
  function CheckStep(c: Colours, node: nat, nb: nat): (r: Option<Colours>)
    ensures r.Some? ==> c.blue <= r.value.blue && c.red <= r.value.red
    ensures r.Some? ==> r.value.blue - c.blue <= {node, nb} && r.value.red - c.red <= {node, nb}
    ensures r.Some? ==> ProperPair(r.value, node, nb) || node == nb
    ensures r.None? <==> !((node !in c.blue + c.red && (nb !in c.red || nb !in c.blue))
                           || (node in c.blue && node !in c.red && nb !in c.blue)
                           || (node in c.red && node !in c.blue && nb in c.blue && nb !in c.red))
  {
    var isBlue, isRed, nbBlue, nbRed := node in c.blue, node in c.red, nb in c.blue, nb in c.red;
    if !isBlue && !isRed && !nbBlue && !nbRed then Some(Colours(c.blue + {node}, c.red + {nb}))
    else if !isBlue && !isRed && !nbBlue && nbRed then Some(Colours(c.blue + {node}, c.red))
    else if !isBlue && !isRed && nbBlue && !nbRed then Some(Colours(c.blue, c.red + {node}))
    else if isBlue && !isRed && !nbBlue && !nbRed then Some(Colours(c.blue, c.red + {nb}))
    else if isBlue && !isRed && !nbBlue && nbRed then Some(c)
    else if !isBlue && isRed && nbBlue && !nbRed then Some(c)
    else None
  }

  /** `a` and `b` carry opposite colours. */
  predicate ProperPair(c: Colours, a: nat, b: nat) {
    (a in c.blue && b in c.red) || (a in c.red && b in c.blue)
  }

  /** No node lists itself as a neighbour. */
  predicate NoSelfLoops(g: Graph) {
    forall a, j :: 0 <= a < |g.adj| && 0 <= j < |g.adj[a]| ==> g.adj[a][j] != a
  }

  /** `c` splits the nodes into two disjoint colours with every edge between them. */
  predicate TwoColouring(g: Graph, c: Colours) {
    && c.blue !! c.red
    && forall a, j :: 0 <= a < |g.adj| && 0 <= j < |g.adj[a]| ==> ProperPair(c, a, g.adj[a][j])
  }

  /** The check from step (k, i) to the end: `None` as soon as a step rejects the graph. */
  function CheckFrom(g: Graph, k: nat, i: nat, c: Colours): (r: Option<Colours>)
    requires AtStep(g, k, i)
    decreases |g.adj| - k, if k < |g.adj| then |g.adj[k]| - i else 0
  {
    if k == |g.adj| then Some(c)
    else if i == |g.adj[k]| then CheckFrom(g, k + 1, 0, c)
    else
      match CheckStep(c, k, g.adj[k][i])
      case None => None
      case Some(c') => CheckFrom(g, k, i + 1, c')
  }

  /** `is_bipartite_undirected`. */
  predicate IsBipartiteUndirected(g: Graph) {
    CheckFrom(g, 0, 0, NoColours).Some?
  }

  /** A step that accepts keeps the colours disjoint when the pair is not a self-loop. */
  lemma CheckStepDisjoint(c: Colours, node: nat, nb: nat)
    requires c.blue !! c.red && node != nb
    requires CheckStep(c, node, nb).Some?
    ensures CheckStep(c, node, nb).value.blue !! CheckStep(c, node, nb).value.red
  {
  }

  /** The pair (a, j) is visited at or after step (k, i). */
  predicate NotBefore(a: nat, j: nat, k: nat, i: nat) {
    a > k || (a == k && j >= i)
  }

  /**
   * From step (k, i) on, an accepting run keeps the colours disjoint, only adds colours,
   * and leaves every pair it visits with opposite colours.
   */
  lemma {:induction false} CheckFromSound(g: Graph, k: nat, i: nat, c: Colours)
    requires AtStep(g, k, i) && NoSelfLoops(g)
    requires c.blue !! c.red
    requires CheckFrom(g, k, i, c).Some?
    ensures var r := CheckFrom(g, k, i, c).value;
      && r.blue !! r.red && c.blue <= r.blue && c.red <= r.red
      && forall a, j :: 0 <= a < |g.adj| && 0 <= j < |g.adj[a]| && NotBefore(a, j, k, i) ==>
           ProperPair(r, a, g.adj[a][j])
    decreases |g.adj| - k, if k < |g.adj| then |g.adj[k]| - i else 0
  {
    if k < |g.adj| {
      if i == |g.adj[k]| {
        CheckFromSound(g, k + 1, 0, c);
      } else {
        var c' := CheckStep(c, k, g.adj[k][i]).value;
        CheckStepDisjoint(c, k, g.adj[k][i]);
        CheckFromSound(g, k, i + 1, c');
        var r := CheckFrom(g, k, i + 1, c').value;
        assert ProperPair(c', k, g.adj[k][i]);
        assert ProperPair(r, k, g.adj[k][i]);
      }
    }
  }

  /**
   * Soundness: on a graph without self-loops, a graph that `is_bipartite_undirected`
   * accepts is two-coloured by the colours it computed.
   */
  lemma IsBipartiteSound(g: Graph)
    requires NoSelfLoops(g)
    requires IsBipartiteUndirected(g)
    ensures TwoColouring(g, CheckFrom(g, 0, 0, NoColours).value)
  {
    CheckFromSound(g, 0, 0, NoColours);
  }

  /** The path 0 - 1 - 2 is bipartite, but the check rejects it at node 1's neighbour 2. */
  lemma PathIsRejected()
    ensures var g := Graph([[1], [0, 2], [1]]);
      && ValidGraph(g) && TwoColouring(g, Colours({1}, {0, 2}))
      && !IsBipartiteUndirected(g)
  {
    var g := Graph([[1], [0, 2], [1]]);
    var c1 := Colours({0}, {1});
    assert CheckFrom(g, 0, 0, NoColours) == CheckFrom(g, 0, 1, c1);
    assert CheckFrom(g, 1, 0, c1) == CheckFrom(g, 1, 1, c1);
    assert CheckStep(c1, 1, 2).None?;
  }

  /** A single node with a self-loop has no two-colouring, yet the check accepts it. */
  lemma SelfLoopIsAccepted()
    ensures var g := Graph([[0]]);
      && ValidGraph(g) && IsBipartiteUndirected(g)
      && forall c: Colours :: !TwoColouring(g, c)
  {
    var g := Graph([[0]]);
    var c1 := Colours({0}, {0});
    assert 0 !in NoColours.blue && 0 !in NoColours.red;
    assert NoColours.blue + {0} == c1.blue && NoColours.red + {0} == c1.red;
    assert CheckStep(NoColours, 0, 0) == Some(c1);
    assert CheckFrom(g, 0, 1, c1) == Some(c1);
    forall c: Colours ensures !TwoColouring(g, c) {
      if c.blue !! c.red {
        assert !ProperPair(c, 0, g.adj[0][0]);
      }
    }
  }

  /** The imperative `is_bipartite_undirected`: the nested loops, returning on a rejection. */
  method IsBipartiteUndirectedLoop(g: Graph) returns (r: bool)
    ensures r == IsBipartiteUndirected(g)
  {
    var c := NoColours;
    for k := 0 to |g.adj|
      invariant CheckFrom(g, k, 0, c) == CheckFrom(g, 0, 0, NoColours)
    {
      for i := 0 to |g.adj[k]|
        invariant CheckFrom(g, k, i, c) == CheckFrom(g, 0, 0, NoColours)
      {
        var step := CheckStep(c, k, g.adj[k][i]);
        if step.None? {
          return false;
        }
        c := step.value;
      }
    }
    return true;
  }
}
