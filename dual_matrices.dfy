/**
 * The dual vectors of the assignment problem and the matrices that broadcast them:
 * `generate_u_matrix`, `generate_v_matrix` and the reduced costs `c - U - V`.
 *
 * Matrices are square, n by n, and given as their rows.  A dual vector is either empty,
 * before the first iteration, or has one entry per row (column).  An empty u is replaced
 * by the row minima of the costs, an empty v by the column minima of `c - U`.
 */
module DualMatrices {

  type Matrix = seq<seq<int>>

  predicate IsSquare(c: Matrix, n: nat) {
    |c| == n && forall i :: 0 <= i < n ==> |c[i]| == n
  }

  // ---------------------------------------------------------------------------------
  // Index arithmetic of row-major and column-major storage

  /** Position `k` of block `i`, for blocks of length `width` laid end to end. */
  function Flat(i: nat, width: nat, k: nat): (r: nat) {
    i * width + k
  }

  lemma {:induction false} MulMono(x: nat, y: nat, t: nat)
    requires x <= y
    ensures x * t <= y * t
    decreases y - x
  {
    if x < y {
      MulMono(x, y - 1, t);
      assert (y - 1) * t + t == y * t;
    }
  }

  /** Position `i * t + k` with `k < t` lies in block `i` of `a` blocks of length `t`. */
  lemma BlockBound(i: nat, k: nat, a: nat, t: nat)
    requires i < a && k < t
    ensures i * t + k < a * t
  {
    assert (i + 1) * t == i * t + t;
    MulMono(i + 1, a, t);
  }

  /** Position `i * n + j` with `j < n` has quotient `i` and remainder `j`. */
  lemma DivModBlock(i: nat, j: nat, n: nat)
    requires j < n
    ensures (i * n + j) % n == j && (i * n + j) / n == i
  {
    var x := i * n + j;
    var q, r := x / n, x % n;
    assert x == q * n + r && 0 <= r < n;
    if q > i {
      assert (i + 1) * n == i * n + n;
      MulMono(i + 1, q, n);
    } else if q < i {
      assert (q + 1) * n == q * n + n;
      MulMono(q + 1, i, n);
    }
  }

  // ---------------------------------------------------------------------------------
  // Minima

  /** `min()` of a non-empty row or column: one of its entries, and no larger than any. */
  function Min(s: seq<int>): (r: int)
    requires |s| > 0
    ensures forall k :: 0 <= k < |s| ==> r <= s[k]
    ensures r in s
  {
    if |s| == 1 then s[0]
    else
      var m := Min(s[..|s| - 1]);
      if s[|s| - 1] < m then s[|s| - 1] else m
  }

  /** Column `j` of `c`, top to bottom. */
  function Column(c: Matrix, j: nat): (r: seq<int>)
    requires forall i :: 0 <= i < |c| ==> j < |c[i]|
    ensures |r| == |c| && forall i :: 0 <= i < |c| ==> r[i] == c[i][j]
  {
    seq(|c|, i requires 0 <= i < |c| => c[i][j])
  }

  /** The row minima, in row order. */
  function RowMinima(c: Matrix, n: nat): (r: seq<int>)
    requires IsSquare(c, n)
    ensures |r| == n
    ensures forall i, j :: 0 <= i < n && 0 <= j < n ==> r[i] <= c[i][j]
    ensures forall i :: 0 <= i < n ==> r[i] in c[i]
  {
    seq(n, i requires 0 <= i < n => Min(c[i]))
  }

  /** The column minima, in column order. */
  function ColumnMinima(c: Matrix, n: nat): (r: seq<int>)
    requires IsSquare(c, n)
    ensures |r| == n
    ensures forall i, j :: 0 <= i < n && 0 <= j < n ==> r[j] <= c[i][j]
    ensures forall j :: 0 <= j < n ==> r[j] in Column(c, j)
  {
    seq(n, j requires 0 <= j < n => Min(Column(c, j)))
  }

  /**
   * The u vectors `generate_u_matrix` accepts: empty, or with at least one entry per row
   * (the zip with the n repeat counts drops any further entries; fewer entries leave
   * `from_row_slice` short of data).
   */
  predicate DualShape(u: seq<int>, n: nat) {
    |u| == 0 || |u| >= n
  }

  // ---------------------------------------------------------------------------------
  // Building the broadcast matrices

  /** `iter::repeat(x).take(t)`. */
  function Repeat(x: int, t: nat): (r: seq<int>)
    ensures |r| == t && forall k :: 0 <= k < t ==> r[k] == x
  {
    if t == 0 then [] else Repeat(x, t - 1) + [x]
  }

  /** The fold that extends an accumulator by `Repeat(u[i], t)` for each i in turn. */
  function RepeatEach(u: seq<int>, t: nat): (r: seq<int>)
    ensures |r| == |u| * t
    ensures forall i: nat, k: nat :: i < |u| && k < t ==> Flat(i, t, k) < |r| && r[Flat(i, t, k)] == u[i]
  {
    if |u| == 0 then []
    else
      var init := RepeatEach(u[..|u| - 1], t);
      var last := Repeat(u[|u| - 1], t);
      assert (|u| - 1) * t + t == |u| * t;
      forall i: nat, k: nat | i < |u| && k < t
        ensures Flat(i, t, k) < |init + last| && (init + last)[Flat(i, t, k)] == u[i]
      {
        BlockBound(i, k, |u|, t);
        if i < |u| - 1 {
          BlockBound(i, k, |u| - 1, t);
        }
      }
      init + last
  }

  /** `v.into_iter().cycle().take(len)`: copies of `v` laid end to end, cut at `len`. */
  function Cycle(v: seq<int>, len: nat): (r: seq<int>)
    requires |v| > 0
    ensures |r| == len
    ensures forall i: nat, k: nat :: k < |v| && Flat(i, |v|, k) < len ==> r[Flat(i, |v|, k)] == v[k]
    decreases len
  {
    if len <= |v| then
      forall i: nat, k: nat | k < |v| && Flat(i, |v|, k) < len ensures i == 0 {
        if i > 0 {
          MulMono(1, i, |v|);
        }
      }
      v[..len]
    else
      var rest := Cycle(v, len - |v|);
      forall i: nat, k: nat | k < |v| && Flat(i, |v|, k) < len ensures (v + rest)[Flat(i, |v|, k)] == v[k] {
        if i > 0 {
          assert Flat(i, |v|, k) == Flat(i - 1, |v|, k) + |v|;
        }
      }
      v + rest
  }

  /** `DMatrix::from_row_slice(nrows, ncols, data)`: the data fills the rows in turn. */
  function FromRowSlice(nrows: nat, ncols: nat, data: seq<int>): (r: Matrix)
    requires |data| == nrows * ncols
    ensures |r| == nrows && forall i :: 0 <= i < nrows ==> |r[i]| == ncols
    ensures forall i: nat, j: nat :: i < nrows && j < ncols ==> Flat(i, ncols, j) < |data| && r[i][j] == data[Flat(i, ncols, j)]
  {
    if nrows == 0 then []
    else
      assert (nrows - 1) * ncols + ncols == nrows * ncols;
      var init := FromRowSlice(nrows - 1, ncols, data[..(nrows - 1) * ncols]);
      var r := init + [data[(nrows - 1) * ncols..]];
      forall i: nat, j: nat | i < nrows && j < ncols ensures Flat(i, ncols, j) < |data| && r[i][j] == data[Flat(i, ncols, j)] {
        BlockBound(i, j, nrows, ncols);
        if i < nrows - 1 {
          BlockBound(i, j, nrows - 1, ncols);
        }
      }
      r
  }

  /** The u vector `generate_u_matrix` broadcasts: the row minima of `c`, or u's first n entries. */
  function DualU(c: Matrix, n: nat, u: seq<int>): (r: seq<int>)
    requires IsSquare(c, n) && DualShape(u, n)
    ensures |r| == n
  {
    if |u| == 0 then RowMinima(c, n) else u[..n]
  }

  /** The v vector `generate_v_matrix` cycles: the given one, or the column minima of `c`. */
  function DualV(c: Matrix, n: nat, v: seq<int>): (r: seq<int>)
    requires IsSquare(c, n)
    ensures |r| == if |v| == 0 then n else |v|
  {
    if |v| == 0 then ColumnMinima(c, n) else v
  }

  /** Entry `x` of the cycled vector is entry `x mod |v|` of `v`. */
  lemma CycleEntry(v: seq<int>, len: nat, x: nat)
    requires |v| > 0 && x < len
    ensures Cycle(v, len)[x] == v[x % |v|]
  {
    assert Flat(x / |v|, |v|, x % |v|) == x;
  }

  /**
   * `generate_u_matrix`: an empty u is first filled with the row minima, one push per row;
   * then each u_i is repeated across row i and the result read into the matrix row by row.
   * U broadcasts u (or the row minima) along the rows.
   */
  method GenerateUMatrix(c: Matrix, n: nat, u: seq<int>) returns (r: Matrix)
    requires IsSquare(c, n) && DualShape(u, n)
    ensures IsSquare(r, n)
    ensures forall i, j :: 0 <= i < n && 0 <= j < n ==> r[i][j] == DualU(c, n, u)[i]
  {
    var w := u;
    if |w| == 0 {
      var i := 0;
      while i < n
        invariant 0 <= i <= n
        invariant w == RowMinima(c, n)[..i]
      {
        w := w + [Min(c[i])];
        i := i + 1;
      }
      assert w[..n] == RowMinima(c, n);
    }
    assert w[..n] == DualU(c, n, u);
    r := FromRowSlice(n, n, RepeatEach(w[..n], n));
  }

  /** The loop of `generate_v_matrix` that pushes the minimum of each column in turn. */
  method PushColumnMinima(c: Matrix, n: nat) returns (w: seq<int>)
    requires IsSquare(c, n)
    ensures w == ColumnMinima(c, n)
  {
    w := [];
    var j := 0;
    while j < n
      invariant 0 <= j <= n
      invariant |w| == j && forall k :: 0 <= k < j ==> w[k] == Min(Column(c, k))
    {
      w := w + [Min(Column(c, j))];
      j := j + 1;
    }
    assert forall k :: 0 <= k < n ==> ColumnMinima(c, n)[k] == Min(Column(c, k));
  }

  /**
   * `generate_v_matrix`: an empty v is first filled with the column minima; then v is
   * cycled over n * n entries and read into the matrix row by row.  Entry (i, j) of V is
   * entry (i * n + j) mod |v| of v (or of the column minima).
   */
  method GenerateVMatrix(c: Matrix, n: nat, v: seq<int>) returns (r: Matrix)
    requires IsSquare(c, n)
    ensures IsSquare(r, n)
    ensures forall i: nat, j: nat :: i < n && j < n ==>
      r[i][j] == DualV(c, n, v)[Flat(i, n, j) % |DualV(c, n, v)|]
  {
    var w := v;
    if |w| == 0 {
      w := PushColumnMinima(c, n);
    }
    assert w == DualV(c, n, v);
    if n == 0 {
      r := [];
    } else {
      r := FromRowSlice(n, n, Cycle(w, n * n));
      forall i: nat, j: nat | i < n && j < n ensures r[i][j] == w[Flat(i, n, j) % |w|] {
        CycleEntry(w, n * n, Flat(i, n, j));
      }
    }
  }

  /** Entrywise `a - b`. */
  function Sub(a: Matrix, b: Matrix, n: nat): (r: Matrix)
    requires IsSquare(a, n) && IsSquare(b, n)
    ensures IsSquare(r, n)
    ensures forall i, j :: 0 <= i < n && 0 <= j < n ==> r[i][j] == a[i][j] - b[i][j]
  {
    seq(n, i requires 0 <= i < n => seq(n, j requires 0 <= j < n => a[i][j] - b[i][j]))
  }

  // ---------------------------------------------------------------------------------
  // The reduced costs, entry by entry

  /** The costs less `w[i]` along each row i: `c - U` once U broadcasts `w`. */
  function LessRows(c: Matrix, n: nat, w: seq<int>): (r: Matrix)
    requires IsSquare(c, n) && |w| == n
    ensures IsSquare(r, n)
  {
    seq(n, i requires 0 <= i < n => seq(n, j requires 0 <= j < n => c[i][j] - w[i]))
  }

  /** The costs less `w` cycled: `c - V` once V lays `w` out row by row, over and over. */
  function LessCycled(c: Matrix, n: nat, w: seq<int>): (r: Matrix)
    requires IsSquare(c, n) && |w| > 0
    ensures IsSquare(r, n)
  {
    seq(n, i requires 0 <= i < n => seq(n, j requires 0 <= j < n => c[i][j] - w[Flat(i, n, j) % |w|]))
  }

  /** The first n entries of `w` cycled: row 0 of V. */
  function CycledRow(w: seq<int>, n: nat): (r: seq<int>)
    requires |w| > 0
    ensures |r| == n
  {
    seq(n, j requires 0 <= j < n => w[j % |w|])
  }

  /** `c - U`: the costs less the u the pass uses. */
  function RowReduced(c: Matrix, n: nat, u: seq<int>): (r: Matrix)
    requires IsSquare(c, n) && DualShape(u, n)
    ensures IsSquare(r, n)
  {
    LessRows(c, n, DualU(c, n, u))
  }

  /** The reduced costs `c - U - V` of the loop body, with U and V as generated from u and v. */
  function ReducedCosts(c: Matrix, n: nat, u: seq<int>, v: seq<int>): (r: Matrix)
    requires IsSquare(c, n) && DualShape(u, n)
    ensures IsSquare(r, n)
  {
    var cu := RowReduced(c, n, u);
    if n == 0 then [] else LessCycled(cu, n, DualV(cu, n, v))
  }

  /** `v.row(0)`: the v vector a pass used, read back from row 0 of V. */
  function IterationV(c: Matrix, n: nat, u: seq<int>, v: seq<int>): (r: seq<int>)
    requires IsSquare(c, n) && DualShape(u, n)
    ensures |r| == n
  {
    if n == 0 then [] else CycledRow(DualV(RowReduced(c, n, u), n, v), n)
  }

  /** A matrix that broadcasts `w` along the rows: subtracting it leaves `c` less `w[i]` in each row i. */
  lemma SubRows(c: Matrix, m: Matrix, n: nat, w: seq<int>)
    requires IsSquare(c, n) && IsSquare(m, n) && |w| == n
    requires forall i, j :: 0 <= i < n && 0 <= j < n ==> m[i][j] == w[i]
    ensures Sub(c, m, n) == LessRows(c, n, w)
    ensures n > 0 ==> Column(m, 0) == w
  {
    var a, b := Sub(c, m, n), LessRows(c, n, w);
    forall i | 0 <= i < n ensures a[i] == b[i] {
      assert forall j :: 0 <= j < n ==> a[i][j] == b[i][j];
    }
  }

  /** A matrix that lays `w` out row by row, over and over: subtracting it leaves `c` less `w` cycled. */
  lemma SubCycled(c: Matrix, m: Matrix, n: nat, w: seq<int>)
    requires IsSquare(c, n) && IsSquare(m, n) && |w| > 0 && n > 0
    requires forall i: nat, j: nat :: i < n && j < n ==> m[i][j] == w[Flat(i, n, j) % |w|]
    ensures Sub(c, m, n) == LessCycled(c, n, w)
    ensures m[0] == CycledRow(w, n)
  {
    var a, b := Sub(c, m, n), LessCycled(c, n, w);
    forall i | 0 <= i < n ensures a[i] == b[i] {
      assert forall j :: 0 <= j < n ==> a[i][j] == b[i][j];
    }
    forall j | 0 <= j < n ensures m[0][j] == CycledRow(w, n)[j] {
      assert Flat(0, n, j) == j;
    }
  }

  /** With one entry per column the cycle never wraps within a row: entry j of each row is w[j]. */
  lemma CycleInRows(w: seq<int>, n: nat)
    requires |w| == n
    ensures forall i, j :: 0 <= i < n && 0 <= j < n ==> Flat(i, n, j) % |w| == j
  {
    forall i, j | 0 <= i < n && 0 <= j < n ensures Flat(i, n, j) % |w| == j {
      DivModBlock(i, j, n);
    }
  }

  /**
   * With v empty or one entry per column, each reduced cost is the cost less the row's u
   * and the column's v, and the v read back is the v used.
   */
  lemma ReducedCostEntries(c: Matrix, n: nat, u: seq<int>, v: seq<int>)
    requires IsSquare(c, n) && DualShape(u, n) && (|v| == 0 || |v| == n)
    ensures forall i, j :: 0 <= i < n && 0 <= j < n ==>
      ReducedCosts(c, n, u, v)[i][j] == c[i][j] - DualU(c, n, u)[i] - IterationV(c, n, u, v)[j]
    ensures n > 0 ==> IterationV(c, n, u, v) == DualV(RowReduced(c, n, u), n, v)
  {
    if n > 0 {
      IterationVIsDualV(c, n, u, v);
      var cu := RowReduced(c, n, u);
      var w := DualV(cu, n, v);
      var r := ReducedCosts(c, n, u, v);
      CycleInRows(w, n);
      forall i, j | 0 <= i < n && 0 <= j < n ensures r[i][j] == c[i][j] - DualU(c, n, u)[i] - w[j] {
        assert r[i][j] == cu[i][j] - w[Flat(i, n, j) % |w|];
      }
    }
  }

  /** With v empty or one entry per column, the first row of the cycled v is the v used. */
  lemma IterationVIsDualV(c: Matrix, n: nat, u: seq<int>, v: seq<int>)
    requires IsSquare(c, n) && DualShape(u, n) && (|v| == 0 || |v| == n) && n > 0
    ensures IterationV(c, n, u, v) == DualV(RowReduced(c, n, u), n, v)
  {
    var w := DualV(RowReduced(c, n, u), n, v);
    var d := IterationV(c, n, u, v);
    CycleInRows(w, n);
    forall j | 0 <= j < n ensures d[j] == w[j] {
      assert Flat(0, n, j) == j;
    }
  }

  /** No reduced cost is negative: u_i + v_j <= c_ij everywhere. */
  predicate NonNegative(r: Matrix, n: nat)
    requires IsSquare(r, n)
  {
    forall i, j :: 0 <= i < n && 0 <= j < n ==> r[i][j] >= 0
  }

  predicate RowHasZero(r: Matrix, n: nat, i: nat)
    requires IsSquare(r, n) && i < n
  {
    exists j :: 0 <= j < n && r[i][j] == 0
  }

  predicate ColumnHasZero(r: Matrix, n: nat, j: nat)
    requires IsSquare(r, n) && j < n
  {
    exists i :: 0 <= i < n && r[i][j] == 0
  }

  /** Subtracting from each row a value that is one of its entries and at most all of them. */
  lemma RowShift(a: Matrix, r: Matrix, w: seq<int>, n: nat)
    requires IsSquare(a, n) && IsSquare(r, n) && |w| == n
    requires forall i, j :: 0 <= i < n && 0 <= j < n ==> r[i][j] == a[i][j] - w[i]
    requires forall i, j :: 0 <= i < n && 0 <= j < n ==> w[i] <= a[i][j]
    requires forall i :: 0 <= i < n ==> w[i] in a[i]
    ensures NonNegative(r, n)
    ensures forall i :: 0 <= i < n ==> RowHasZero(r, n, i)
  {
    forall i, j | 0 <= i < n && 0 <= j < n ensures r[i][j] >= 0 {
      assert w[i] <= a[i][j];
    }
    forall i | 0 <= i < n ensures RowHasZero(r, n, i) {
      var j :| 0 <= j < n && a[i][j] == w[i];
      assert r[i][j] == 0;
    }
  }

  /** Subtracting the row minima leaves no negative entry and a zero in every row. */
  lemma RowReduction(c: Matrix, n: nat)
    requires IsSquare(c, n)
    ensures var r := RowReduced(c, n, []);
      && NonNegative(r, n)
      && (forall i :: 0 <= i < n ==> RowHasZero(r, n, i))
  {
    var w := RowMinima(c, n);
    assert DualU(c, n, []) == w;
    RowShift(c, RowReduced(c, n, []), w, n);
  }

  /** Subtracting from each column a value that is one of its entries and at most all of them. */
  lemma ColumnShift(a: Matrix, r: Matrix, w: seq<int>, n: nat)
    requires IsSquare(a, n) && IsSquare(r, n) && |w| == n
    requires forall i, j :: 0 <= i < n && 0 <= j < n ==> r[i][j] == a[i][j] - w[j]
    requires forall i, j :: 0 <= i < n && 0 <= j < n ==> w[j] <= a[i][j]
    requires forall j :: 0 <= j < n ==> w[j] in Column(a, j)
    ensures NonNegative(r, n)
    ensures forall j :: 0 <= j < n ==> ColumnHasZero(r, n, j)
    ensures NonNegative(a, n) ==> forall i :: 0 <= i < n && RowHasZero(a, n, i) ==> RowHasZero(r, n, i)
  {
    forall i, j | 0 <= i < n && 0 <= j < n ensures r[i][j] >= 0 {
      assert w[j] <= a[i][j];
    }
    forall j | 0 <= j < n ensures ColumnHasZero(r, n, j) {
      var i :| 0 <= i < n && Column(a, j)[i] == w[j];
      assert r[i][j] == 0;
    }
    if NonNegative(a, n) {
      forall i | 0 <= i < n && RowHasZero(a, n, i) ensures RowHasZero(r, n, i) {
        var j :| 0 <= j < n && a[i][j] == 0;
        var k :| 0 <= k < n && Column(a, j)[k] == w[j];
        assert a[k][j] >= 0;
        assert r[i][j] == 0;
      }
    }
  }

  /**
   * Subtracting the column minima leaves no negative entry and a zero in every column;
   * on a matrix without negative entries a row that had a zero keeps it.
   */
  lemma ColumnReduction(a: Matrix, n: nat)
    requires IsSquare(a, n) && n > 0
    ensures var r := LessCycled(a, n, DualV(a, n, []));
      && NonNegative(r, n)
      && (forall j :: 0 <= j < n ==> ColumnHasZero(r, n, j))
      && (NonNegative(a, n) ==> forall i :: 0 <= i < n && RowHasZero(a, n, i) ==> RowHasZero(r, n, i))
  {
    var w := ColumnMinima(a, n);
    assert DualV(a, n, []) == w;
    CycleInRows(w, n);
    ColumnShift(a, LessCycled(a, n, w), w, n);
  }

  /**
   * The first iteration, with both vectors empty, leaves every reduced cost non-negative
   * and a zero in every row and in every column.
   */
  lemma FirstReduction(c: Matrix, n: nat)
    requires IsSquare(c, n)
    ensures var r := ReducedCosts(c, n, [], []);
      && NonNegative(r, n)
      && (forall i :: 0 <= i < n ==> RowHasZero(r, n, i))
      && (forall j :: 0 <= j < n ==> ColumnHasZero(r, n, j))
  {
    if n > 0 {
      RowReduction(c, n);
      ColumnReduction(RowReduced(c, n, []), n);
    }
  }

  /** The first step of a pass: U, and the costs less U. */
  method ReduceRows(c: Matrix, n: nat, u: seq<int>) returns (cu: Matrix, uVec: seq<int>)
    requires IsSquare(c, n) && DualShape(u, n)
    ensures cu == RowReduced(c, n, u)
    ensures uVec == DualU(c, n, u)
  {
    var uMatrix := GenerateUMatrix(c, n, u);
    SubRows(c, uMatrix, n, DualU(c, n, u));
    cu := Sub(c, uMatrix, n);
    uVec := if n == 0 then [] else Column(uMatrix, 0);
  }

  /** The second step of a pass: V from the costs less U, and the reduced costs. */
  method ReduceColumns(cu: Matrix, n: nat, v: seq<int>) returns (reduced: Matrix, vVec: seq<int>)
    requires IsSquare(cu, n)
    ensures n == 0 ==> reduced == [] && vVec == []
    ensures n > 0 ==> reduced == LessCycled(cu, n, DualV(cu, n, v)) && vVec == CycledRow(DualV(cu, n, v), n)
  {
    var vMatrix := GenerateVMatrix(cu, n, v);
    reduced := Sub(cu, vMatrix, n);
    if n == 0 {
      vVec := [];
    } else {
      vVec := vMatrix[0];
      SubCycled(cu, vMatrix, n, DualV(cu, n, v));
    }
  }

  /** The first steps of a pass: U, then V from the costs less U, then the reduced costs. */
  method ReduceCosts(c: Matrix, n: nat, u: seq<int>, v: seq<int>) returns (reduced: Matrix, uVec: seq<int>, vVec: seq<int>)
    requires IsSquare(c, n) && DualShape(u, n)
    ensures reduced == ReducedCosts(c, n, u, v)
    ensures uVec == DualU(c, n, u) && vVec == IterationV(c, n, u, v)
  {
    var cu;
    cu, uVec := ReduceRows(c, n, u);
    reduced, vVec := ReduceColumns(cu, n, v);
  }
}
