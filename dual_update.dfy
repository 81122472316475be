/**
 * Moving the dual vectors by epsilon: u rises at the listed rows and v falls at the listed
 * columns, each by a loop that walks the vector and tests whether the index is listed.
 */
module DualUpdates {

  /** The vector with `delta` added at every index that `at` lists. */
  function AddAt(u: seq<int>, at: seq<nat>, delta: int): (r: seq<int>)
    ensures |r| == |u|
    ensures forall i :: 0 <= i < |u| && i !in at ==> r[i] == u[i]
    ensures forall i :: 0 <= i < |u| && i in at ==> r[i] == u[i] + delta
  {
    seq(|u|, i requires 0 <= i < |u| => if i in at then u[i] + delta else u[i])
  }

  /** The vector with `delta` taken away at every index that `at` lists. */
  function SubtractAt(v: seq<int>, at: seq<nat>, delta: int): (r: seq<int>)
    ensures |r| == |v|
    ensures forall j :: 0 <= j < |v| && j !in at ==> r[j] == v[j]
    ensures forall j :: 0 <= j < |v| && j in at ==> r[j] == v[j] - delta
  {
    seq(|v|, j requires 0 <= j < |v| => if j in at then v[j] - delta else v[j])
  }

  /** The loop that walks u and adds `delta` where the index is listed. */
  method AddAtLoop(u: seq<int>, at: seq<nat>, delta: int) returns (r: seq<int>)
    ensures r == AddAt(u, at, delta)
  {
    r := u;
    for i := 0 to |u|
      invariant |r| == |u|
      invariant forall k :: 0 <= k < |u| ==> r[k] == if k < i && k in at then u[k] + delta else u[k]
    {
      if i in at {
        r := r[i := r[i] + delta];
      }
    }
  }

  /** The loop that walks v and takes `delta` away where the index is listed. */
  method SubtractAtLoop(v: seq<int>, at: seq<nat>, delta: int) returns (r: seq<int>)
    ensures r == SubtractAt(v, at, delta)
  {
    r := v;
    for j := 0 to |v|
      invariant |r| == |v|
      invariant forall k :: 0 <= k < |v| ==> r[k] == if k < j && k in at then v[k] - delta else v[k]
    {
      if j in at {
        r := r[j := r[j] - delta];
      }
    }
  }
}
