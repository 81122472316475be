/**
 * What `find_optimum_cost` prints when the matching is perfect: the matching's cost and
 * `uv_sum`, which is meant to equal it at the optimum. `uv_sum` adds up the last SAVED u
 * and v, not the vectors the pass reduced the costs by; on the first pass those are the
 * vectors `init` was given, empty when the driver starts from the row and column minima.
 * The model's `Optimal` outcome carries the sum of the vectors the pass used instead, and
 * `Duality.IterationTight` proves that sum equal to the cost.
 */
module PrintedSums {
  import opened Graphs
  import opened DualMatrices
  import opened EqualityGraphs
  import opened SetSums
  import opened AssignmentProblem
  import opened Duality

  /** The printed `uv_sum`: the entries of the saved u and v added up. */
  function PrintedDualSum(u: seq<int>, v: seq<int>): (r: int) {
    Sum(u) + Sum(v)
  }

  /**
   * The costs [[5]], started from the minima (u and v empty): the first pass reduces by
   * u = [5] and v = [0], finds the perfect matching of cost 5 and reports the optimum 5,
   * while the printed sum of the saved vectors is 0.
   */
  lemma PrintedSumMisses(matcher: Graph -> set<Edge>)
    requires MaximumMatcher(matcher)
    ensures Iteration([[5]], 1, [], [], matcher, AsWritten) == Finished(Optimal(5, 5))
    ensures PrintedDualSum([], []) == 0
  {
    var c: Matrix := [[5]];
    FirstPassDuals();
    var r := ReducedCosts(c, 1, [], []);
    var g := EqualityGraph(r, 1);
    EqualityGraphEdges(r, 1);
    OnlyEdgeMatched(g, matcher(g));
    PassVerdict(c, 1, [], [], matcher, AsWritten);
    assert DualSum([5], [0]) == 5;
  }

  /**
   * `new`, `init` with empty vectors and the costs [[5]], then `find_optimum_cost`: the run
   * reports the optimum 5 and saves no state, so `uv_sum`, read from the one saved state,
   * prints 0 where the cost is 5.
   */
  method PrintedOnFirstPass(matcher: Graph -> set<Edge>, fuel: nat) returns (o: Outcome, printed: int)
    requires MaximumMatcher(matcher) && fuel > 0
    ensures o == Optimal(5, 5) && printed == 0 && printed != o.cost
  {
    var solution := new OptimalSolution();
    solution.Init([], [], [[5]]);
    PrintedSumMisses(matcher);
    FirstPassDuals();
    RunFinishes([[5]], 1, [], [], matcher, AsWritten, fuel);
    o := solution.FindOptimumCost(matcher, fuel);
    var last := solution.states[|solution.states| - 1];
    printed := PrintedDualSum(last.u, last.v);
  }

  /** On [[5]] from the minima the pass reduces by u = [5] and v = [0], leaving [[0]]. */
  lemma FirstPassDuals()
    ensures IsSquare([[5]], 1)
    ensures DualU([[5]], 1, []) == [5]
    ensures IterationV([[5]], 1, [], []) == [0]
    ensures ReducedCosts([[5]], 1, [], []) == [[0]]
    ensures Balanced(ReducedCosts([[5]], 1, [], []), 1)
  {
    var c: Matrix := [[5]];
    assert IsSquare(c, 1);
    FirstReduction(c, 1);
    var r := ReducedCosts(c, 1, [], []);
    assert RowHasZero(r, 1, 0);
    assert r[0][0] == 0;
    assert |r| == 1 && |r[0]| == 1 && r[0] == [0];
    assert r == [[0]];
    assert Min(c[0]) == 5;
    assert DualU(c, 1, [])[0] == RowMinima(c, 1)[0] == 5;
    ReducedCostAt(c, 1, [], [], 0, 0);
  }

  /** A maximum matching of a two-node graph whose nodes are joined holds that one edge, so it is perfect. */
  lemma OnlyEdgeMatched(g: Graph, m: set<Edge>)
    requires |g.adj| == 2 && ValidGraph(g) && IsEdge(g, 0, 1) && MaximumMatchingOf(m, g)
    ensures m == {(0, 1)} && IsPerfect(m, g)
  {
    var one: set<Edge> := {(0, 1)};
    assert IsMatching(one) && InGraph(one, g);
    forall e | e in m ensures e == (0, 1) {
      assert IsEdge(g, e.0, e.1);
      assert e.1 in g.adj[e.0];
    }
    assert |one| == 1 <= |m|;
    var e :| e in m;
    assert one <= m <= one;
  }
}
