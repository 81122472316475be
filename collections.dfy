/** Generic facts about sequences and finite sets that the graph and matrix models use. */
module Collections {

  datatype Option<T> = None | Some(value: T)

  /** Removing a larger set that also holds `x` from `u` leaves a proper subset. */
  lemma DifferenceShrinks<T>(u: set<T>, before: set<T>, after: set<T>, x: T)
    requires before <= after && x in u && x !in before && x in after
    ensures u - after < u - before
  {
    assert x in (u - before) - (u - after);
  }

  /** No element of `s` occurs twice. */
  predicate Distinct<T(==)>(s: seq<T>) {
    forall i, j :: 0 <= i < j < |s| ==> s[i] != s[j]
  }

  lemma DistinctAppend<T>(s: seq<T>, x: T)
    requires Distinct(s) && x !in s
    ensures Distinct(s + [x])
  {
  }

  lemma DistinctConcat<T>(s: seq<T>, t: seq<T>)
    requires Distinct(s) && Distinct(t)
    requires forall x :: x in s ==> x !in t
    ensures Distinct(s + t)
  {
    forall i, j | 0 <= i < j < |s + t| ensures (s + t)[i] != (s + t)[j] {
      if i < |s| && j >= |s| {
        assert (s + t)[i] in s && (s + t)[j] in t;
      }
    }
  }

  /** The elements of `s`, as a set. */
  function Elems<T>(s: seq<T>): (r: set<T>) {
    set x | x in s
  }

  lemma SubsetCard<T>(A: set<T>, B: set<T>)
    requires A <= B
    ensures |A| <= |B|
  {
    assert B == A + (B - A);
  }

  /** A sequence without repetitions has as many elements as its set. */
  lemma {:induction false} DistinctCard<T>(s: seq<T>)
    requires Distinct(s)
    ensures |Elems(s)| == |s|
  {
    if |s| > 0 {
      var init := s[..|s| - 1];
      DistinctCard(init);
      assert Elems(s) == Elems(init) + {s[|s| - 1]};
      assert s[|s| - 1] !in Elems(init);
    }
  }

  /** An injection from `S` into `T` shows `|S| <= |T|`. */
  lemma {:induction false} InjectionCard<A, B>(S: set<A>, T: set<B>, f: A -> B)
    requires forall x :: x in S ==> f(x) in T
    requires forall x, y :: x in S && y in S && f(x) == f(y) ==> x == y
    ensures |S| <= |T|
    decreases S
  {
    if S != {} {
      var x :| x in S;
      InjectionCard(S - {x}, T - {f(x)}, f);
    }
  }

  /** A map onto `T` shows `|T| <= |S|`. */
  lemma {:induction false} SurjectionCard<A, B>(S: set<A>, T: set<B>, f: A -> B)
    requires forall y :: y in T ==> exists x :: x in S && f(x) == y
    ensures |T| <= |S|
    decreases S
  {
    if S == {} {
      assert forall y :: y !in T;
      assert T == {};
    } else {
      var x :| x in S;
      forall y | y in T - {f(x)} ensures exists z :: z in S - {x} && f(z) == y {
        var z :| z in S && f(z) == y;
        assert z != x;
      }
      SurjectionCard(S - {x}, T - {f(x)}, f);
      SubsetCard(T, (T - {f(x)}) + {f(x)});
    }
  }

  /** A bijection between `S` and `T` shows `|S| == |T|`. */
  lemma BijectionCard<A, B>(S: set<A>, T: set<B>, f: A -> B)
    requires forall x :: x in S ==> f(x) in T
    requires forall x, y :: x in S && y in S && f(x) == f(y) ==> x == y
    requires forall y :: y in T ==> exists x :: x in S && f(x) == y
    ensures |S| == |T|
  {
    InjectionCard(S, T, f);
    SurjectionCard(S, T, f);
  }

  /** An element moved across a concatenation stays in place. */
  lemma ConcatShift<T>(s: seq<T>, x: T, t: seq<T>)
    ensures (s + [x]) + t == s + ([x] + t)
  {
  }

  /** Appending after a concatenation appends to its second part. */
  lemma AppendShift<T>(s: seq<T>, t: seq<T>, x: T)
    ensures (s + t) + [x] == s + (t + [x])
  {
  }

  /** Appending nothing, or appending to nothing, leaves a sequence as it is. */
  lemma AppendNothing<T>(s: seq<T>)
    ensures s + [] == s && [] + s == s
  {
  }

  /** The numbers 0 .. n-1. */
  function Range(n: nat): (r: set<nat>)
    ensures forall x: nat :: x in r <==> x < n
  {
    if n == 0 then {} else Range(n - 1) + {n - 1}
  }

  /** The elements of `s` that are not in `c`, in the order of `s`. */
  function Outside(s: seq<nat>, c: set<nat>): (r: seq<nat>)
    ensures forall x :: x in r <==> x in s && x !in c
  {
    if |s| == 0 then []
    else Outside(s[..|s| - 1], c) + (if s[|s| - 1] in c then [] else [s[|s| - 1]])
  }

  /** The elements of `s` that are in `c`, in the order of `s`. */
  function Inside(s: seq<nat>, c: set<nat>): (r: seq<nat>)
    ensures forall x :: x in r <==> x in s && x in c
  {
    if |s| == 0 then []
    else Inside(s[..|s| - 1], c) + (if s[|s| - 1] in c then [s[|s| - 1]] else [])
  }

  /** One more element joins `Outside` exactly when it is not in `drop`. */
  lemma OutsideStep(s: seq<nat>, x: nat, drop: set<nat>)
    ensures Outside(s + [x], drop) == Outside(s, drop) + (if x in drop then [] else [x])
  {
    assert (s + [x])[..|s|] == s;
  }

  /** `Outside` on five elements, element by element; unrolled through four and two so each proof stays small. */
  lemma OutsideFive(a: nat, b: nat, c: nat, d: nat, e: nat, drop: set<nat>)
    ensures Outside([a, b, c, d, e], drop)
         == (if a in drop then [] else [a]) + (if b in drop then [] else [b]) + (if c in drop then [] else [c])
          + (if d in drop then [] else [d]) + (if e in drop then [] else [e])
  {
    OutsideFour(a, b, c, d, drop);
    OutsideStep([a, b, c, d], e, drop);
    assert [a, b, c, d] + [e] == [a, b, c, d, e];
  }

  /** `Outside` on four elements; the literal cases are unrolled in steps so each proof stays small. */
  lemma OutsideFour(a: nat, b: nat, c: nat, d: nat, drop: set<nat>)
    ensures Outside([a, b, c, d], drop)
         == (if a in drop then [] else [a]) + (if b in drop then [] else [b]) + (if c in drop then [] else [c])
          + (if d in drop then [] else [d])
  {
    OutsideTwo(a, b, drop);
    OutsideStep([a, b], c, drop);
    assert [a, b] + [c] == [a, b, c];
    OutsideStep([a, b, c], d, drop);
    assert [a, b, c] + [d] == [a, b, c, d];
  }

  /** `Outside` on two elements; the literal cases are unrolled in steps so each proof stays small. */
  lemma OutsideTwo(a: nat, b: nat, drop: set<nat>)
    ensures Outside([a, b], drop) == (if a in drop then [] else [a]) + (if b in drop then [] else [b])
  {
    OutsideStep([], a, drop);
    assert [] + [a] == [a];
    OutsideStep([a], b, drop);
    assert [a] + [b] == [a, b];
  }

  /** One more element joins `Inside` exactly when it is in `keep`. */
  lemma InsideStep(s: seq<nat>, x: nat, keep: set<nat>)
    ensures Inside(s + [x], keep) == Inside(s, keep) + (if x in keep then [x] else [])
  {
    assert (s + [x])[..|s|] == s;
  }

  /** `Inside` on five elements, element by element; unrolled through four and two so each proof stays small. */
  lemma InsideFive(a: nat, b: nat, c: nat, d: nat, e: nat, keep: set<nat>)
    ensures Inside([a, b, c, d, e], keep)
         == (if a in keep then [a] else []) + (if b in keep then [b] else []) + (if c in keep then [c] else [])
          + (if d in keep then [d] else []) + (if e in keep then [e] else [])
  {
    InsideFour(a, b, c, d, keep);
    InsideStep([a, b, c, d], e, keep);
    assert [a, b, c, d] + [e] == [a, b, c, d, e];
  }

  /** `Inside` on four elements; the literal cases are unrolled in steps so each proof stays small. */
  lemma InsideFour(a: nat, b: nat, c: nat, d: nat, keep: set<nat>)
    ensures Inside([a, b, c, d], keep)
         == (if a in keep then [a] else []) + (if b in keep then [b] else []) + (if c in keep then [c] else [])
          + (if d in keep then [d] else [])
  {
    InsideTwo(a, b, keep);
    InsideStep([a, b], c, keep);
    assert [a, b] + [c] == [a, b, c];
    InsideStep([a, b, c], d, keep);
    assert [a, b, c] + [d] == [a, b, c, d];
  }

  /** `Inside` on two elements; the literal cases are unrolled in steps so each proof stays small. */
  lemma InsideTwo(a: nat, b: nat, keep: set<nat>)
    ensures Inside([a, b], keep) == (if a in keep then [a] else []) + (if b in keep then [b] else [])
  {
    InsideStep([], a, keep);
    assert [] + [a] == [a];
    InsideStep([a], b, keep);
    assert [a] + [b] == [a, b];
  }

  /** Dropping nothing keeps the sequence. */
  lemma {:induction false} OutsideNothing(s: seq<nat>)
    ensures Outside(s, {}) == s
  {
    if |s| > 0 {
      OutsideNothing(s[..|s| - 1]);
      assert s == s[..|s| - 1] + [s[|s| - 1]];
    }
  }

  /** Dropping the elements of `a`, then those of `b`, drops the elements of `a + b`. */
  lemma {:induction false} OutsideTwice(s: seq<nat>, a: set<nat>, b: set<nat>)
    ensures Outside(Outside(s, a), b) == Outside(s, a + b)
  {
    if |s| > 0 {
      var init, x := s[..|s| - 1], s[|s| - 1];
      OutsideTwice(init, a, b);
      var t := Outside(s, a);
      assert Outside(s, a + b) == Outside(init, a + b) + (if x in a + b then [] else [x]);
      if x in a {
        assert t == Outside(init, a);
      } else {
        assert t == Outside(init, a) + [x];
        assert t[..|t| - 1] == Outside(init, a);
        assert Outside(t, b) == Outside(Outside(init, a), b) + (if x in b then [] else [x]);
      }
    }
  }

  /** Dropping an element that does not occur changes nothing. */
  lemma {:induction false} OutsideAbsent(s: seq<nat>, c: set<nat>, x: nat)
    requires x !in s
    ensures Outside(s, c + {x}) == Outside(s, c)
  {
    if |s| > 0 {
      OutsideAbsent(s[..|s| - 1], c, x);
    }
  }

  lemma {:induction false} OutsideDistinct(s: seq<nat>, c: set<nat>)
    requires Distinct(s)
    ensures Distinct(Outside(s, c))
  {
    if |s| > 0 {
      OutsideDistinct(s[..|s| - 1], c);
    }
  }

  lemma {:induction false} InsideDistinct(s: seq<nat>, c: set<nat>)
    requires Distinct(s)
    ensures Distinct(Inside(s, c))
  {
    if |s| > 0 {
      InsideDistinct(s[..|s| - 1], c);
    }
  }
}
