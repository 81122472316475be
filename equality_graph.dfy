/**
 * The equality graph of the reduced costs (`generate_equality_graph`): nodes 0 .. n-1 stand
 * for the rows and n .. 2n-1 for the columns, and row i is joined to column node n + j
 * exactly when the reduced cost in row i, column j is zero.
 *
 * The matrix is stored column by column, as `DMatrix` stores it: storage position k holds
 * row k mod n of column k div n.
 */
module EqualityGraphs {
  import opened Collections
  import opened Graphs
  import opened Bipartite
  import opened DualMatrices

  /** `DMatrix::get(k)` on column-major storage: `None` past the last entry. */
  function Get(c: Matrix, n: nat, k: nat): (r: Option<int>)
    requires IsSquare(c, n)
    ensures r.Some? <==> k < n * n
  {
    if k < n * n then
      StorageBound(k, n);
      Some(c[k % n][k / n])
    else None
  }

  /** A storage position below n * n names a row and a column below n. */
  lemma StorageBound(k: nat, n: nat)
    requires k < n * n
    ensures n > 0 && k % n < n && k / n < n
  {
    if k / n >= n {
      MulMono(n, k / n, n);
    }
  }

  /**
   * The index `(i % nrows) + j * ncols` the driver reads row i, column j of the costs at:
   * that entry for a column of the matrix, nothing past the last column.
   */
  lemma GetEntry(c: Matrix, n: nat, i: nat, j: nat)
    requires IsSquare(c, n) && i < n
    ensures i % n == i
    ensures Get(c, n, i % n + j * n) == if j < n then Some(c[i][j]) else None
  {
    assert i % n == i;
    if j < n {
      DivModBlock(j, i, n);
      BlockBound(j, i, n, n);
    } else {
      MulMono(n, j, n);
    }
  }

  /** The column nodes n + j, j < m, whose entry in row i is zero, in column order. */
  function ZeroColumns(r: Matrix, n: nat, i: nat, m: nat): (res: seq<nat>)
    requires IsSquare(r, n) && i < n && m <= n
  {
    if m == 0 then []
    else ZeroColumns(r, n, i, m - 1) + (if r[i][m - 1] == 0 then [n + m - 1] else [])
  }

  /** `ZeroColumns` lists exactly the column nodes below n + m with a zero entry in row i. */
  lemma {:induction false} ZeroColumnsMembers(r: Matrix, n: nat, i: nat, m: nat)
    requires IsSquare(r, n) && i < n && m <= n
    ensures forall x: nat :: x in ZeroColumns(r, n, i, m) <==> n <= x < n + m && r[i][x - n] == 0
    decreases m
  {
    if m > 0 {
      ZeroColumnsMembers(r, n, i, m - 1);
    }
  }

  /** The row nodes i < m whose entry in column j is zero, in row order. */
  function ZeroRows(r: Matrix, n: nat, j: nat, m: nat): (res: seq<nat>)
    requires IsSquare(r, n) && j < n && m <= n
  {
    if m == 0 then []
    else ZeroRows(r, n, j, m - 1) + (if r[m - 1][j] == 0 then [m - 1] else [])
  }

  /** `ZeroRows` lists exactly the row nodes below m with a zero entry in column j. */
  lemma {:induction false} ZeroRowsMembers(r: Matrix, n: nat, j: nat, m: nat)
    requires IsSquare(r, n) && j < n && m <= n
    ensures forall x: nat :: x in ZeroRows(r, n, j, m) <==> x < m && r[x][j] == 0
    decreases m
  {
    if m > 0 {
      ZeroRowsMembers(r, n, j, m - 1);
    }
  }

  /**
   * The adjacency list of node x once the entries before row i of column j have been
   * visited (column-major order): a row node lists the zero columns visited so far, a
   * column node the zero rows visited so far.
   */
  function Listed(r: Matrix, n: nat, j: nat, i: nat, x: nat): (res: seq<nat>)
    requires IsSquare(r, n) && j <= n && i <= n && (j == n ==> i == 0) && x < 2 * n
  {
    if x < n then ZeroColumns(r, n, x, if x < i then j + 1 else j)
    else ZeroRows(r, n, x - n, if x - n < j then n else if x - n == j then i else 0)
  }

  /** The adjacency lists of all 2n nodes at that point of the visit. */
  function Visited(r: Matrix, n: nat, j: nat, i: nat): (adj: seq<seq<nat>>)
    requires IsSquare(r, n) && j <= n && i <= n && (j == n ==> i == 0)
    ensures |adj| == 2 * n
  {
    seq(2 * n, x requires 0 <= x < 2 * n => Listed(r, n, j, i, x))
  }

  /** The equality graph of the reduced costs `r`, neighbours listed in the order added. */
  function EqualityGraph(r: Matrix, n: nat): (g: Graph)
    requires IsSquare(r, n)
  {
    Graph(Visited(r, n, n, 0))
  }

  /**
   * In the equality graph, a row node a is joined to the column nodes n + j with a zero
   * entry r[a][j], and a column node n + j to the row nodes i with a zero entry r[i][j].
   */
  lemma EqualityNeighbours(r: Matrix, n: nat, a: nat, b: nat)
    requires IsSquare(r, n) && a < 2 * n
    ensures b in EqualityGraph(r, n).adj[a] <==>
      if a < n then n <= b < 2 * n && r[a][b - n] == 0 else b < n && r[b][a - n] == 0
  {
    assert EqualityGraph(r, n).adj[a] == Listed(r, n, n, 0, a);
    if a < n {
      ZeroColumnsMembers(r, n, a, n);
    } else {
      ZeroRowsMembers(r, n, a - n, n);
    }
  }

  /**
   * The equality graph has 2n nodes, every edge joins a row node to a column node, and
   * row i is joined to column node n + j exactly when the reduced cost r[i][j] is zero.
   */
  lemma EqualityGraphEdges(r: Matrix, n: nat)
    requires IsSquare(r, n)
    ensures var g := EqualityGraph(r, n);
      && |g.adj| == 2 * n
      && ValidGraph(g)
      && SplitAt(g, n)
      && (forall i, j :: 0 <= i < n && 0 <= j < n ==> (IsEdge(g, i, n + j) <==> r[i][j] == 0))
  {
    var g := EqualityGraph(r, n);
    forall a, k | 0 <= a < |g.adj| && 0 <= k < |g.adj[a]| ensures g.adj[a][k] < |g.adj| && (a < n <==> g.adj[a][k] >= n) {
      assert g.adj[a][k] in g.adj[a];
      EqualityNeighbours(r, n, a, g.adj[a][k]);
    }
    forall a, b | 0 <= a < |g.adj| && 0 <= b < |g.adj| ensures b in g.adj[a] <==> a in g.adj[b] {
      EqualityNeighbours(r, n, a, b);
      EqualityNeighbours(r, n, b, a);
    }
    forall i, j | 0 <= i < n && 0 <= j < n ensures IsEdge(g, i, n + j) <==> r[i][j] == 0 {
      EqualityNeighbours(r, n, i, n + j);
    }
  }

  /** Visiting row i of column j extends node x's list by column node n + j, or by row i, or not at all. */
  lemma VisitEntryAt(r: Matrix, n: nat, j: nat, i: nat, x: nat)
    requires IsSquare(r, n) && j < n && i < n && x < 2 * n
    ensures Listed(r, n, j, i + 1, x) ==
      if r[i][j] == 0 && x == i then Listed(r, n, j, i, x) + [n + j]
      else if r[i][j] == 0 && x == n + j then Listed(r, n, j, i, x) + [i]
      else Listed(r, n, j, i, x)
  {
  }

  /** Visiting row i of column j adds column node n + j to row i's list, and row i to its list, if the entry is zero. */
  lemma VisitEntry(r: Matrix, n: nat, j: nat, i: nat)
    requires IsSquare(r, n) && j < n && i < n
    ensures var before := Visited(r, n, j, i);
      Visited(r, n, j, i + 1) ==
        if r[i][j] == 0 then before[i := before[i] + [n + j]][n + j := before[n + j] + [i]] else before
  {
    var before, after := Visited(r, n, j, i), Visited(r, n, j, i + 1);
    var expected := if r[i][j] == 0 then before[i := before[i] + [n + j]][n + j := before[n + j] + [i]] else before;
    forall x | 0 <= x < 2 * n ensures after[x] == expected[x] {
      VisitEntryAt(r, n, j, i, x);
    }
  }

  /** The last row of column j visited is the same as nothing of column j + 1 visited. */
  lemma VisitColumn(r: Matrix, n: nat, j: nat)
    requires IsSquare(r, n) && j < n
    ensures Visited(r, n, j, n) == Visited(r, n, j + 1, 0)
  {
    var a, b := Visited(r, n, j, n), Visited(r, n, j + 1, 0);
    forall x | 0 <= x < 2 * n ensures a[x] == b[x] {
    }
  }

  /** Before the first entry is visited every list is empty. */
  lemma VisitStart(r: Matrix, n: nat)
    requires IsSquare(r, n)
    ensures Visited(r, n, 0, 0) == seq(2 * n, x => [])
  {
    var a := Visited(r, n, 0, 0);
    forall x | 0 <= x < 2 * n ensures a[x] == [] {
      assert a[x] == Listed(r, n, 0, 0, x);
    }
  }

  /**
   * `generate_equality_graph`: 2n nodes, then one edge per zero entry, the entries visited
   * in storage order; each edge is added to the lists of both its ends.
   */
  method GenerateEqualityGraph(r: Matrix, n: nat) returns (g: Graph)
    requires IsSquare(r, n)
    ensures g == EqualityGraph(r, n)
  {
    var adj: seq<seq<nat>> := seq(2 * n, x => []);
    VisitStart(r, n);
    var j := 0;
    while j < n
      invariant j <= n
      invariant adj == Visited(r, n, j, 0)
    {
      adj := VisitColumnOf(r, n, j, adj);
      VisitColumn(r, n, j);
      j := j + 1;
    }
    g := Graph(adj);
  }

  /** The inner loop of `generate_equality_graph`: the entries of column j, row by row. */
  method VisitColumnOf(r: Matrix, n: nat, j: nat, adj0: seq<seq<nat>>) returns (adj: seq<seq<nat>>)
    requires IsSquare(r, n) && j < n && adj0 == Visited(r, n, j, 0)
    ensures adj == Visited(r, n, j, n)
  {
    adj := adj0;
    var i := 0;
    while i < n
      invariant i <= n
      invariant adj == Visited(r, n, j, i)
    {
      DivModBlock(j, i, n);
      adj := VisitPosition(r, n, j * n + i, adj);
      i := i + 1;
    }
  }

  /** One step of `generate_equality_graph`: the entry at storage position k, an edge if it is zero. */
  method VisitPosition(r: Matrix, n: nat, k: nat, adj0: seq<seq<nat>>) returns (adj: seq<seq<nat>>)
    requires IsSquare(r, n) && n > 0 && k / n < n && adj0 == Visited(r, n, k / n, k % n)
    ensures adj == Visited(r, n, k / n, k % n + 1)
  {
    var row, col := k % n, k / n;
    adj := adj0;
    if r[row][col] == 0 {
      adj := adj[row := adj[row] + [n + col]][n + col := adj[n + col] + [row]];
    }
    VisitEntry(r, n, col, row);
  }
}
