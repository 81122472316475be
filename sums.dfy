/**
 * Sums of integer weights: over a sequence, as `iter().sum()` adds up a vector, and
 * over a finite set, as a loop over the edges of a matching adds up their costs.
 */
module SetSums {
  import opened Collections

  /** `iter().sum()` of a vector. */
  function Sum(s: seq<int>): (r: int) {
    if |s| == 0 then 0 else Sum(s[..|s| - 1]) + s[|s| - 1]
  }

  /** The weights `f(x)` of the elements `x` of `s`, added up in any order. */
  ghost function SetSum<T>(s: set<T>, f: T -> int): (r: int)
    decreases s
  {
    if s == {} then 0
    else
      var x :| x in s;
      f(x) + SetSum(s - {x}, f)
  }

  /** The order in which the elements are added does not matter: any one can go first. */
  lemma {:induction false} SetSumRemove<T>(s: set<T>, f: T -> int, y: T)
    requires y in s
    ensures SetSum(s, f) == f(y) + SetSum(s - {y}, f)
    decreases s
  {
    var x :| x in s && SetSum(s, f) == f(x) + SetSum(s - {x}, f);
    if x != y {
      SetSumRemove(s - {x}, f, y);
      SetSumRemove(s - {y}, f, x);
      assert s - {x} - {y} == s - {y} - {x};
    }
  }

  /** Weights that add pointwise add up to sums that add. */
  lemma {:induction false} SetSumAdd<T>(s: set<T>, f: T -> int, g: T -> int, h: T -> int)
    requires forall x :: x in s ==> h(x) == f(x) + g(x)
    ensures SetSum(s, h) == SetSum(s, f) + SetSum(s, g)
    decreases s
  {
    if s != {} {
      var x :| x in s;
      SetSumRemove(s, f, x);
      SetSumRemove(s, g, x);
      SetSumRemove(s, h, x);
      SetSumAdd(s - {x}, f, g, h);
    }
  }

  /** Weights that are pointwise no larger add up to no more. */
  lemma {:induction false} SetSumLe<T>(s: set<T>, f: T -> int, g: T -> int)
    requires forall x :: x in s ==> f(x) <= g(x)
    ensures SetSum(s, f) <= SetSum(s, g)
    decreases s
  {
    if s != {} {
      var x :| x in s;
      SetSumRemove(s, f, x);
      SetSumRemove(s, g, x);
      SetSumLe(s - {x}, f, g);
    }
  }

  /** Weights that agree on `s` have the same sum over `s`. */
  lemma SetSumSame<T>(s: set<T>, f: T -> int, g: T -> int)
    requires forall x :: x in s ==> f(x) == g(x)
    ensures SetSum(s, f) == SetSum(s, g)
  {
    SetSumLe(s, f, g);
    SetSumLe(s, g, f);
  }

  /** The image of `s` under `p`. */
  ghost function Image<A, B>(s: set<A>, p: A -> B): (r: set<B>) {
    set x | x in s :: p(x)
  }

  /**
   * Summing `w(p(x))` over `s`, with `p` one-to-one on `s`, sums `w` over the image of `s`.
   */
  lemma {:induction false} SetSumImage<A, B>(s: set<A>, p: A -> B, w: B -> int, f: A -> int)
    requires forall x, y :: x in s && y in s && p(x) == p(y) ==> x == y
    requires forall x :: x in s ==> f(x) == w(p(x))
    ensures SetSum(s, f) == SetSum(Image(s, p), w)
    decreases s
  {
    var image := Image(s, p);
    if s != {} {
      var x :| x in s;
      var rest := Image(s - {x}, p);
      assert image - {p(x)} == rest;
      SetSumRemove(s, f, x);
      SetSumRemove(image, w, p(x));
      SetSumImage(s - {x}, p, w, f);
    } else {
      assert image == {};
    }
  }

  /** Summing `u[i]` over the indices 0 .. |u|-1 gives the sum of the vector. */
  lemma {:induction false} SetSumRange(u: seq<int>, w: nat -> int)
    requires forall i :: 0 <= i < |u| ==> w(i) == u[i]
    ensures SetSum(Range(|u|), w) == Sum(u)
    decreases |u|
  {
    if |u| > 0 {
      var k := |u| - 1;
      SetSumRemove<nat>(Range(|u|), w, k);
      assert Range(|u|) - {k} == Range(k);
      SetSumRange(u[..k], w);
    }
  }
}
