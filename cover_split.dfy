/**
 * How the driver reads the rows, the columns and the red columns off a minimum vertex
 * cover: row nodes are numbered 0 .. n-1 and column nodes n .. 2n-1.
 */
module CoverSplits {
  import opened Collections

  /** `node.index() - ncols` for each node of `s`, in order. */
  function Down(s: seq<nat>, n: nat): (r: seq<nat>)
    requires AtLeast(s, n)
    ensures |r| == |s|
  {
    if |s| == 0 then []
    else Down(s[..|s| - 1], n) + [s[|s| - 1] - n]
  }

  /** Every node of `s` is at least n. */
  predicate AtLeast(s: seq<nat>, n: nat) {
    forall k :: 0 <= k < |s| ==> s[k] >= n
  }

  /** Entry k of the shifted list is entry k of the list, less n. */
  lemma {:induction false} DownEntries(s: seq<nat>, n: nat)
    requires AtLeast(s, n)
    ensures forall k :: 0 <= k < |s| ==> Down(s, n)[k] == s[k] - n
    decreases |s|
  {
    if |s| > 0 {
      DownEntries(s[..|s| - 1], n);
    }
  }

  /** The shifted list holds j exactly when the list holds n + j. */
  lemma DownMembers(s: seq<nat>, n: nat)
    requires AtLeast(s, n)
    ensures forall j: nat :: j in Down(s, n) <==> n + j in s
  {
    var r := Down(s, n);
    DownEntries(s, n);
    forall j: nat ensures j in r <==> n + j in s {
      if j in r {
        var k :| 0 <= k < |r| && r[k] == j;
        assert s[k] == n + j;
      }
      if n + j in s {
        var k :| 0 <= k < |s| && s[k] == n + j;
        assert r[k] == j;
      }
    }
  }

  /** The row indices, the column indices and the red column indices of a cover. */
  datatype CoverSplit = CoverSplit(rows: seq<nat>, cols: seq<nat>, red: seq<nat>)

  /**
   * How the driver splits the cover, node by node: a node of `nodes_u` is dropped from the
   * rows; any other node, shifted down by n, is dropped from the columns and becomes red.
   * The rows start as `nodes_u` and the columns as `nodes_v` shifted down by n.
   */
  function SplitCover(nodesU: seq<nat>, nodesV: seq<nat>, cover: seq<nat>, n: nat): (r: CoverSplit)
    requires AtLeast(nodesV, n)
    requires forall k :: 0 <= k < |cover| ==> cover[k] in nodesU || cover[k] >= n
  {
    if |cover| == 0 then CoverSplit(nodesU, Down(nodesV, n), [])
    else
      var init, x := cover[..|cover| - 1], cover[|cover| - 1];
      var p := SplitCover(nodesU, nodesV, init, n);
      if x in nodesU then p.(rows := Retain(p.rows, x))
      else p.(cols := Retain(p.cols, x - n), red := p.red + [x - n])
  }

  /** Splitting one more node of the cover, a column node: it leaves the columns and turns red. */
  lemma SplitColumnNode(nodesU: seq<nat>, nodesV: seq<nat>, cover: seq<nat>, x: nat, n: nat)
    requires AtLeast(nodesV, n) && x !in nodesU && x >= n
    requires forall k :: 0 <= k < |cover| ==> cover[k] in nodesU || cover[k] >= n
    ensures var p := SplitCover(nodesU, nodesV, cover, n);
      SplitCover(nodesU, nodesV, cover + [x], n) == p.(cols := Retain(p.cols, x - n), red := p.red + [x - n])
  {
    assert (cover + [x])[..|cover|] == cover;
  }

  /** `retain(|value| *value != y)`: the entries of `s` other than `y`, in order. */
  function Retain(s: seq<nat>, y: nat): (r: seq<nat>)
    ensures |r| <= |s|
  {
    if |s| == 0 then []
    else Retain(s[..|s| - 1], y) + (if s[|s| - 1] == y then [] else [s[|s| - 1]])
  }

  /** Retaining drops `y` and keeps every other entry. */
  lemma {:induction false} RetainMembers(s: seq<nat>, y: nat)
    ensures forall x :: x in Retain(s, y) <==> x in s && x != y
    decreases |s|
  {
    if |s| > 0 {
      var init := s[..|s| - 1];
      RetainMembers(init, y);
      assert s == init + [s[|s| - 1]];
    }
  }

  /** The split names as rows the nodes of `nodes_u` outside the cover. */
  lemma {:induction false} SplitCoverRows(nodesU: seq<nat>, nodesV: seq<nat>, cover: seq<nat>, n: nat)
    requires AtLeast(nodesV, n)
    requires forall k :: 0 <= k < |cover| ==> cover[k] in nodesU || cover[k] >= n
    ensures forall i :: i in SplitCover(nodesU, nodesV, cover, n).rows <==> i in nodesU && i !in cover
    decreases |cover|
  {
    if |cover| > 0 {
      var init, x := cover[..|cover| - 1], cover[|cover| - 1];
      assert cover == init + [x];
      SplitCoverRows(nodesU, nodesV, init, n);
      if x in nodesU {
        RetainMembers(SplitCover(nodesU, nodesV, init, n).rows, x);
      }
    }
  }

  /** The split names as columns the j whose node n + j is in `nodes_v` and not a red cover node. */
  lemma {:induction false} SplitCoverColumns(nodesU: seq<nat>, nodesV: seq<nat>, cover: seq<nat>, n: nat)
    requires AtLeast(nodesV, n)
    requires forall k :: 0 <= k < |cover| ==> cover[k] in nodesU || cover[k] >= n
    ensures forall j: nat :: j in SplitCover(nodesU, nodesV, cover, n).cols <==>
      n + j in nodesV && !(n + j in cover && n + j !in nodesU)
    decreases |cover|
  {
    if |cover| == 0 {
      DownMembers(nodesV, n);
    } else {
      var init, x := cover[..|cover| - 1], cover[|cover| - 1];
      assert cover == init + [x];
      SplitCoverColumns(nodesU, nodesV, init, n);
      if x !in nodesU {
        RetainMembers(SplitCover(nodesU, nodesV, init, n).cols, x - n);
      }
    }
  }

  /** The split names as red the j whose node n + j is a cover node outside `nodes_u`. */
  lemma {:induction false} SplitCoverRed(nodesU: seq<nat>, nodesV: seq<nat>, cover: seq<nat>, n: nat)
    requires AtLeast(nodesV, n)
    requires forall k :: 0 <= k < |cover| ==> cover[k] in nodesU || cover[k] >= n
    ensures forall j: nat :: j in SplitCover(nodesU, nodesV, cover, n).red <==> n + j in cover && n + j !in nodesU
    decreases |cover|
  {
    if |cover| > 0 {
      var init, x := cover[..|cover| - 1], cover[|cover| - 1];
      assert cover == init + [x];
      SplitCoverRed(nodesU, nodesV, init, n);
    }
  }

  /** One more node of the cover splits as the fold's last step says. */
  lemma SplitCoverStep(nodesU: seq<nat>, nodesV: seq<nat>, cover: seq<nat>, n: nat, k: nat)
    requires AtLeast(nodesV, n)
    requires forall k :: 0 <= k < |cover| ==> cover[k] in nodesU || cover[k] >= n
    requires k < |cover|
    ensures var p, x := SplitCover(nodesU, nodesV, cover[..k], n), cover[k];
      SplitCover(nodesU, nodesV, cover[..k + 1], n) ==
        if x in nodesU then p.(rows := Retain(p.rows, x))
        else p.(cols := Retain(p.cols, x - n), red := p.red + [x - n])
  {
    assert cover[..k + 1][..k] == cover[..k];
  }

  /** The loop over the cover that `retain`s rows and columns and pushes red columns. */
  method SplitCoverLoop(nodesU: seq<nat>, nodesV: seq<nat>, cover: seq<nat>, n: nat) returns (r: CoverSplit)
    requires AtLeast(nodesV, n)
    requires forall k :: 0 <= k < |cover| ==> cover[k] in nodesU || cover[k] >= n
    ensures r == SplitCover(nodesU, nodesV, cover, n)
  {
    var rows := nodesU;
    var cols := Down(nodesV, n);
    var red: seq<nat> := [];
    for k := 0 to |cover|
      invariant CoverSplit(rows, cols, red) == SplitCover(nodesU, nodesV, cover[..k], n)
    {
      var x := cover[k];
      SplitCoverStep(nodesU, nodesV, cover, n, k);
      if x in nodesU {
        rows := Retain(rows, x);
      } else {
        cols := Retain(cols, x - n);
        red := red + [x - n];
      }
    }
    assert cover[..|cover|] == cover;
    r := CoverSplit(rows, cols, red);
  }
}
