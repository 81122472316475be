/**
 * Epsilon, the least reduced cost outside the cover: the nested loops over the uncovered
 * rows and columns push every entry `get` finds, and the minimum of what was pushed is taken.
 */
module Epsilons {
  import opened Collections
  import opened DualMatrices
  import opened EqualityGraphs

  /** What row i pushes: `c_ij.get((i % nrows) + j * ncols)` for each j of `cols`, when present. */
  function RowCandidates(r: Matrix, n: nat, i: nat, cols: seq<nat>): (s: seq<int>)
    requires IsSquare(r, n) && n > 0
    ensures |s| <= |cols|
  {
    if |cols| == 0 then []
    else
      var j := cols[|cols| - 1];
      RowCandidates(r, n, i, cols[..|cols| - 1]) + match Get(r, n, i % n + j * n) case Some(x) => [x] case None => []
  }

  /** What the nested loops push: each row of `rows` in turn. */
  function Candidates(r: Matrix, n: nat, rows: seq<nat>, cols: seq<nat>): (s: seq<int>)
    requires IsSquare(r, n) && n > 0
  {
    if |rows| == 0 then []
    else Candidates(r, n, rows[..|rows| - 1], cols) + RowCandidates(r, n, rows[|rows| - 1], cols)
  }

  /** `min_cover_matrix_elements.iter().min()`: `None` when nothing was pushed. */
  function Epsilon(r: Matrix, n: nat, rows: seq<nat>, cols: seq<nat>): (e: Option<int>)
    requires IsSquare(r, n) && n > 0
  {
    var s := Candidates(r, n, rows, cols);
    if |s| == 0 then None else Some(Min(s))
  }

  /** Row i pushes its entry in every listed column of the matrix. */
  lemma {:induction false} RowCandidatePushed(r: Matrix, n: nat, i: nat, cols: seq<nat>, k: nat)
    requires IsSquare(r, n) && n > 0 && i < n
    requires k < |cols| && cols[k] < n
    ensures r[i][cols[k]] in RowCandidates(r, n, i, cols)
    decreases |cols|
  {
    var init, j := cols[..|cols| - 1], cols[|cols| - 1];
    GetEntry(r, n, i, j);
    if k != |cols| - 1 {
      assert init[k] == cols[k];
      RowCandidatePushed(r, n, i, init, k);
    }
  }

  /** Everything row i pushes is its entry in some listed column of the matrix. */
  lemma {:induction false} RowCandidateSource(r: Matrix, n: nat, i: nat, cols: seq<nat>, x: int)
    requires IsSquare(r, n) && n > 0 && i < n
    requires x in RowCandidates(r, n, i, cols)
    ensures exists k :: 0 <= k < |cols| && cols[k] < n && x == r[i][cols[k]]
    decreases |cols|
  {
    var init, j := cols[..|cols| - 1], cols[|cols| - 1];
    GetEntry(r, n, i, j);
    if x in RowCandidates(r, n, i, init) {
      RowCandidateSource(r, n, i, init, x);
      var k :| 0 <= k < |init| && init[k] < n && x == r[i][init[k]];
      assert cols[k] == init[k];
    } else {
      assert j < n && x == r[i][cols[|cols| - 1]];
    }
  }

  /** The loops push the entry of every listed row in every listed column of the matrix. */
  lemma {:induction false} CandidatePushed(r: Matrix, n: nat, rows: seq<nat>, cols: seq<nat>, a: nat, k: nat)
    requires IsSquare(r, n) && n > 0
    requires forall a :: 0 <= a < |rows| ==> rows[a] < n
    requires a < |rows| && k < |cols| && cols[k] < n
    ensures r[rows[a]][cols[k]] in Candidates(r, n, rows, cols)
    decreases |rows|
  {
    var init := rows[..|rows| - 1];
    if a == |rows| - 1 {
      RowCandidatePushed(r, n, rows[a], cols, k);
    } else {
      assert init[a] == rows[a];
      CandidatePushed(r, n, init, cols, a, k);
    }
  }

  /** Everything the loops push is the entry of a listed row in a listed column. */
  lemma {:induction false} CandidateSource(r: Matrix, n: nat, rows: seq<nat>, cols: seq<nat>, x: int)
    requires IsSquare(r, n) && n > 0
    requires forall a :: 0 <= a < |rows| ==> rows[a] < n
    requires x in Candidates(r, n, rows, cols)
    ensures exists a, k :: 0 <= a < |rows| && 0 <= k < |cols| && cols[k] < n && x == r[rows[a]][cols[k]]
    decreases |rows|
  {
    var init, i := rows[..|rows| - 1], rows[|rows| - 1];
    if x in Candidates(r, n, init, cols) {
      CandidateSource(r, n, init, cols, x);
      var a, k :| 0 <= a < |init| && 0 <= k < |cols| && cols[k] < n && x == r[init[a]][cols[k]];
      assert rows[a] == init[a];
    } else {
      RowCandidateSource(r, n, i, cols, x);
      var k :| 0 <= k < |cols| && cols[k] < n && x == r[i][cols[k]];
      assert x == r[rows[|rows| - 1]][cols[k]];
    }
  }

  /** For rows and columns of the matrix, epsilon exists exactly when both lists are non-empty. */
  lemma EpsilonExists(r: Matrix, n: nat, rows: seq<nat>, cols: seq<nat>)
    requires IsSquare(r, n) && n > 0
    requires forall a :: 0 <= a < |rows| ==> rows[a] < n
    requires forall k :: 0 <= k < |cols| ==> cols[k] < n
    ensures Epsilon(r, n, rows, cols).None? <==> |rows| == 0 || |cols| == 0
  {
    var s := Candidates(r, n, rows, cols);
    if |s| > 0 {
      CandidateSource(r, n, rows, cols, s[0]);
    }
    if |rows| > 0 && |cols| > 0 {
      CandidatePushed(r, n, rows, cols, 0, 0);
    }
  }

  /** Epsilon, when it exists, is the least reduced cost over the listed rows and columns. */
  lemma EpsilonIsMinimum(r: Matrix, n: nat, rows: seq<nat>, cols: seq<nat>)
    requires IsSquare(r, n) && n > 0
    requires forall a :: 0 <= a < |rows| ==> rows[a] < n
    requires forall k :: 0 <= k < |cols| ==> cols[k] < n
    ensures Epsilon(r, n, rows, cols).Some? ==>
      var e := Epsilon(r, n, rows, cols).value;
      && (forall a, k :: 0 <= a < |rows| && 0 <= k < |cols| ==> e <= r[rows[a]][cols[k]])
      && (exists a, k :: 0 <= a < |rows| && 0 <= k < |cols| && e == r[rows[a]][cols[k]])
  {
    var s := Candidates(r, n, rows, cols);
    if |s| > 0 {
      var e := Min(s);
      forall a, k | 0 <= a < |rows| && 0 <= k < |cols| ensures e <= r[rows[a]][cols[k]] {
        CandidatePushed(r, n, rows, cols, a, k);
      }
      CandidateSource(r, n, rows, cols, e);
    }
  }

  /** Row i of one more column pushes what the shorter list pushes, then that column's entry. */
  lemma RowCandidatesStep(r: Matrix, n: nat, i: nat, cols: seq<nat>, k: nat)
    requires IsSquare(r, n) && n > 0 && k < |cols|
    ensures var j := cols[k];
      RowCandidates(r, n, i, cols[..k + 1]) ==
        RowCandidates(r, n, i, cols[..k]) + match Get(r, n, i % n + j * n) case Some(x) => [x] case None => []
  {
    assert cols[..k + 1][..k] == cols[..k];
  }

  /** One more row pushes what the shorter list pushes, then that row's entries. */
  lemma CandidatesStep(r: Matrix, n: nat, rows: seq<nat>, cols: seq<nat>, a: nat)
    requires IsSquare(r, n) && n > 0 && a < |rows|
    ensures Candidates(r, n, rows[..a + 1], cols) == Candidates(r, n, rows[..a], cols) + RowCandidates(r, n, rows[a], cols)
  {
    assert rows[..a + 1][..a] == rows[..a];
  }

  /** The inner loop: row i's entries in the listed columns, as `get` finds them. */
  method PushRowCandidates(r: Matrix, n: nat, i: nat, cols: seq<nat>) returns (elements: seq<int>)
    requires IsSquare(r, n) && n > 0
    ensures elements == RowCandidates(r, n, i, cols)
  {
    elements := [];
    for k := 0 to |cols|
      invariant elements == RowCandidates(r, n, i, cols[..k])
    {
      var j := cols[k];
      RowCandidatesStep(r, n, i, cols, k);
      match Get(r, n, i % n + j * n)
      case Some(x) =>
        elements := elements + [x];
      case None =>
    }
    assert cols[..|cols|] == cols;
  }

  /** The nested loops over the uncovered rows and columns, then the minimum. */
  method EpsilonLoop(r: Matrix, n: nat, rows: seq<nat>, cols: seq<nat>) returns (e: Option<int>)
    requires IsSquare(r, n) && n > 0
    ensures e == Epsilon(r, n, rows, cols)
  {
    var elements: seq<int> := [];
    for a := 0 to |rows|
      invariant elements == Candidates(r, n, rows[..a], cols)
    {
      var row := PushRowCandidates(r, n, rows[a], cols);
      elements := elements + row;
      CandidatesStep(r, n, rows, cols, a);
    }
    assert rows[..|rows|] == rows;
    if |elements| == 0 {
      e := None;
    } else {
      e := Some(Min(elements));
    }
  }
}
