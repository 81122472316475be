/**
 * The driver of the assignment problem (`OptimalSolution`): each iteration reduces the
 * costs by the current dual vectors u and v, builds the equality graph of the zero reduced
 * costs, asks for a maximum matching of it, and stops when that matching is perfect;
 * otherwise it takes the minimum vertex cover the Hungarian search returns, the least
 * reduced cost epsilon outside the cover, raises u at the uncovered rows and lowers v at
 * the covered columns by epsilon, and saves the new state.
 *
 * `Iteration` and `Run` take the Hungarian search as a parameter (`Search`): the class
 * `OptimalSolution` runs the search as written, and the same driver over the corrected
 * search is the one whose optimality and termination `Duality` and `Progress` prove.
 *
 * `petgraph::algo::maximum_matching` is not part of this model: it is a parameter
 * `matcher`, required to return a maximum matching whose edges are written
 * (smaller node, larger node).
 */
module AssignmentProblem {
  import opened Collections
  import opened Graphs
  import opened Bipartite
  import opened Hungarian
  import opened HungarianFixed
  import opened DualMatrices
  import opened EqualityGraphs
  import opened SetSums
  import opened CoverSplits
  import opened Epsilons
  import opened DualUpdates

  /** One saved state: the dual vectors, the costs, the equality graph and the matching. */
  datatype ProblemState = ProblemState(u: seq<int>, v: seq<int>, c: Matrix, g: Option<Graph>, m: Option<set<Edge>>)

  /** How `find_optimum_cost` ends. */
  datatype Outcome =
    | Optimal(cost: int, dualSum: int)  // the matching is perfect: its cost, and u + v summed
    | Uninitialised                     // `states.last().unwrap()` with no saved state
    | ShortDual                         // u shorter than the rows: `from_row_slice` lacks data
    | NoEpsilon                         // `min().unwrap()` with no entry outside the cover
    | OutOfFuel                         // the loop would still be running

  /** One pass of the loop: it returns, or it saves a new state and goes round again. */
  datatype IterationResult = Finished(outcome: Outcome) | Continued(state: ProblemState)

  // ---------------------------------------------------------------------------------
  // The matching the driver is handed

  /** A maximum matching of `g`, its edges written (smaller node, larger node). */
  ghost predicate MaximumMatchingOf(m: set<Edge>, g: Graph) {
    && IsMatching(m) && InGraph(m, g)
    && (forall e :: e in m ==> e.0 < e.1)
    && (forall m' :: IsMatching(m') && InGraph(m', g) ==> |m'| <= |m|)
  }

  /** `maximum_matching`, as the driver relies on it. */
  ghost predicate MaximumMatcher(matcher: Graph -> set<Edge>) {
    forall g {:trigger ValidGraph(g)} :: ValidGraph(g) ==> MaximumMatchingOf(matcher(g), g)
  }

  /** `Matching::is_perfect`: every node is matched. */
  predicate IsPerfect(m: set<Edge>, g: Graph) {
    2 * |m| == |g.adj|
  }

  /**
   * A matching of the equality graph whose edges are written (smaller, larger) goes from
   * a row node to a column node at a zero reduced cost, and from `nodes_u` to `nodes_v`.
   */
  lemma EqualityMatching(r: Matrix, n: nat, m: set<Edge>)
    requires IsSquare(r, n)
    requires MaximumMatchingOf(m, EqualityGraph(r, n))
    ensures var g := EqualityGraph(r, n);
      var b := BipartiteUndirected(g).value;
      && ValidMatching(m, g, Elems(b.nodesU), Elems(b.nodesV))
      && (forall e :: e in m ==> e.0 < n <= e.1 < 2 * n && r[e.0][e.1 - n] == 0)
      && (n == 0 ==> m == {})
  {
    var g := EqualityGraph(r, n);
    var b := BipartiteUndirected(g).value;
    EqualityGraphEdges(r, n);
    SplitGraphSides(g, n);
    forall e | e in m
      ensures e.0 < n <= e.1 < 2 * n && r[e.0][e.1 - n] == 0
      ensures e.0 in b.nodesU && e.1 in b.nodesV
    {
      assert IsEdge(g, e.0, e.1);
      var k :| 0 <= k < |g.adj[e.0]| && g.adj[e.0][k] == e.1;
      assert e.0 < n <==> e.1 >= n;
      assert IsEdge(g, e.0, n + (e.1 - n));
      assert e.0 in g.adj[e.1];
    }
    if n == 0 {
      assert forall e :: e !in m;
    }
  }

  /** The dual sum `u.sum() + v.sum()` of a pair of dual vectors. */
  function DualSum(u: seq<int>, v: seq<int>): (r: int) {
    Sum(u) + Sum(v)
  }

  // ---------------------------------------------------------------------------------
  // The cost of a perfect matching

  /**
   * The cost the driver reads for a matched edge (row node a, column node b): storage
   * position `(a % nrows) + (b - ncols) * ncols` of the original costs, nothing when that
   * is past the end.  (The guard stands for the panics of `%` by zero and of `b - ncols`
   * below zero, which no matched edge reaches.)
   */
  function LookupCost(c: Matrix, n: nat, e: Edge): (r: int)
    requires IsSquare(c, n)
  {
    if n > 0 && e.1 >= n then
      match Get(c, n, e.0 % n + (e.1 - n) * n)
      case Some(x) => x
      case None => 0
    else 0
  }

  /** The weights `LookupCost` gives the edges. */
  function CostOf(c: Matrix, n: nat): (r: Edge -> int)
    requires IsSquare(c, n)
  {
    e => LookupCost(c, n, e)
  }

  /** The `cost` the loop over the matched edges adds up. */
  ghost function MatchingCost(c: Matrix, n: nat, m: set<Edge>): (r: int)
    requires IsSquare(c, n)
  {
    SetSum(m, CostOf(c, n))
  }

  /** A row-to-column edge costs the entry of its row and column. */
  lemma LookupCostEntry(c: Matrix, n: nat, e: Edge)
    requires IsSquare(c, n) && e.0 < n <= e.1 < 2 * n
    ensures LookupCost(c, n, e) == c[e.0][e.1 - n]
  {
    GetEntry(c, n, e.0, e.1 - n);
  }

  /** The loop `for edge in max_matching.edges()` that adds up the matched costs. */
  method MatchingCostLoop(c: Matrix, n: nat, m: set<Edge>) returns (cost: int)
    requires IsSquare(c, n)
    ensures cost == MatchingCost(c, n, m)
  {
    cost := 0;
    var rest := m;
    while rest != {}
      invariant rest <= m
      invariant cost + SetSum(rest, CostOf(c, n)) == SetSum(m, CostOf(c, n))
      decreases rest
    {
      var e :| e in rest;
      SetSumRemove(rest, CostOf(c, n), e);
      cost := cost + LookupCost(c, n, e);
      rest := rest - {e};
    }
  }

  // ---------------------------------------------------------------------------------
  // The cover of the equality graph

  /**
   * The Hungarian search the driver calls on the equality graph: `AsWritten` is
   * `hungarian_maximum_matching` as the repository writes it, `Corrected` the same search
   * with the tree building fixed.
   */
  datatype Search = AsWritten | Corrected

  /**
   * What the Hungarian search returns on the equality graph of `r`, starting from the
   * matching `m`: the cover and the matching (`hungarian_maximum_matching(...)`).
   */
  ghost function HungarianRun(r: Matrix, n: nat, m: set<Edge>, search: Search): (res: (seq<nat>, set<Edge>))
    requires IsSquare(r, n) && n > 0 && MaximumMatchingOf(m, EqualityGraph(r, n))
  {
    var g := EqualityGraph(r, n);
    EqualityGraphEdges(r, n);
    EqualityMatching(r, n, m);
    BipartiteSplitIsDisjoint(g);
    var b := BipartiteUndirected(g).value;
    match search
    case AsWritten => HungarianResult(g, b.nodesU, b.nodesV, m)
    case Corrected => FixedHungarianResult(g, b.nodesU, b.nodesV, m)
  }

  /** The cover the search returns (`hungarian_maximum_matching(...).0`). */
  ghost function HungarianCover(r: Matrix, n: nat, m: set<Edge>, search: Search): (cover: seq<nat>)
    requires IsSquare(r, n) && n > 0 && MaximumMatchingOf(m, EqualityGraph(r, n))
  {
    HungarianRun(r, n, m, search).0
  }

  /** The nodes the bipartite split finds on each side of the equality graph of `r`. */
  function EqualitySides(r: Matrix, n: nat): (b: BipartiteGraph)
    requires IsSquare(r, n)
  {
    BipartiteUndirected(EqualityGraph(r, n)).value
  }

  /** What either search promises about its cover and matching on the split of the equality graph. */
  lemma SearchCoverFacts(r: Matrix, n: nat, m: set<Edge>, search: Search)
    requires IsSquare(r, n) && n > 0 && MaximumMatchingOf(m, EqualityGraph(r, n))
    ensures var g, b := EqualityGraph(r, n), EqualitySides(r, n);
      var cover, mm := HungarianCover(r, n, m, search), HungarianRun(r, n, m, search).1;
      && Distinct(cover) && |cover| == |mm| && |mm| <= |m|
      && IsMatching(mm) && InGraph(mm, g) && Oriented(mm, Elems(b.nodesU), Elems(b.nodesV))
      && (forall e :: e in mm ==> (e.0 in cover) != (e.1 in cover))
      && (forall x :: x in cover ==> (x in b.nodesU || x in b.nodesV) && x in Covered(mm))
  {
    var g := EqualityGraph(r, n);
    EqualityGraphEdges(r, n);
    EqualityMatching(r, n, m);
    BipartiteSplitIsDisjoint(g);
    var b := BipartiteUndirected(g).value;
    match search {
      case AsWritten =>
        HungarianAugments(g, b.nodesU, b.nodesV, m);
        HungarianCoverSize(g, b.nodesU, b.nodesV, m);
      case Corrected =>
        SplitGraphSides(g, n);
        FixedHungarianIsMaximum(g, b.nodesU, b.nodesV, m);
    }
  }

  /** Column nodes are numbered from n, and every cover node is a row node or a column node. */
  lemma SplitPreconditions(r: Matrix, n: nat, m: set<Edge>, search: Search)
    requires IsSquare(r, n) && n > 0 && MaximumMatchingOf(m, EqualityGraph(r, n))
    ensures var b, cover := EqualitySides(r, n), HungarianCover(r, n, m, search);
      && AtLeast(b.nodesV, n)
      && (forall k :: 0 <= k < |cover| ==> cover[k] in b.nodesU || cover[k] >= n)
  {
    var g := EqualityGraph(r, n);
    EqualityGraphEdges(r, n);
    SearchCoverFacts(r, n, m, search);
    SplitGraphSides(g, n);
    var b := EqualitySides(r, n);
    var cover := HungarianCover(r, n, m, search);
    forall k | 0 <= k < |b.nodesV| ensures b.nodesV[k] >= n {
      assert b.nodesV[k] in b.nodesV;
    }
    forall k | 0 <= k < |cover| ensures cover[k] in b.nodesU || cover[k] >= n {
      assert cover[k] in cover;
    }
  }

  /** The rows, columns and red columns the driver reads off the cover. */
  ghost function CoverSplitOf(r: Matrix, n: nat, m: set<Edge>, search: Search): (s: CoverSplit)
    requires IsSquare(r, n) && n > 0 && MaximumMatchingOf(m, EqualityGraph(r, n))
  {
    SplitPreconditions(r, n, m, search);
    SplitCover(EqualitySides(r, n).nodesU, EqualitySides(r, n).nodesV, HungarianCover(r, n, m, search), n)
  }

  // ---------------------------------------------------------------------------------
  // One iteration and the whole loop

  /**
   * One pass of the loop of `find_optimum_cost`, from the original costs `c` and the
   * last saved u and v.
   */
  ghost function Iteration(c: Matrix, n: nat, u: seq<int>, v: seq<int>, matcher: Graph -> set<Edge>, search: Search): (r: IterationResult)
    requires IsSquare(c, n) && MaximumMatcher(matcher)
    ensures r.Finished? ==> r.outcome != OutOfFuel
    ensures r.Continued? ==> |r.state.u| == n && |r.state.v| == n
  {
    if !DualShape(u, n) then Finished(ShortDual)
    else
      var reduced := ReducedCosts(c, n, u, v);
      var g := EqualityGraph(reduced, n);
      EqualityGraphEdges(reduced, n);
      var m := matcher(g);
      if IsPerfect(m, g) then
        Finished(Optimal(MatchingCost(c, n, m), DualSum(DualU(c, n, u), IterationV(c, n, u, v))))
      else
        EqualityMatching(reduced, n, m);
        Improve(reduced, n, m, DualU(c, n, u), IterationV(c, n, u, v), search)
  }

  /**
   * The second half of a pass, once the matching `m` of the equality graph of `reduced`
   * is not perfect: split the cover, find epsilon, and move the dual vectors `u`, `v`.
   */
  ghost function Improve(reduced: Matrix, n: nat, m: set<Edge>, u: seq<int>, v: seq<int>, search: Search): (r: IterationResult)
    requires IsSquare(reduced, n) && n > 0 && MaximumMatchingOf(m, EqualityGraph(reduced, n))
    ensures r.Finished? ==> r.outcome == NoEpsilon
    ensures r.Continued? ==> |r.state.u| == |u| && |r.state.v| == |v|
  {
    var split := CoverSplitOf(reduced, n, m, search);
    match Epsilon(reduced, n, split.rows, split.cols)
    case None => Finished(NoEpsilon)
    case Some(eps) =>
      Continued(ProblemState(AddAt(u, split.rows, eps), SubtractAt(v, split.red, eps), reduced, Some(EqualityGraph(reduced, n)), None))
  }

  /**
   * A loop that applies `pass` to the dual vectors for at most `fuel` passes: how it
   * ends, and the states it saves.
   */
  ghost function Repeat(pass: (seq<int>, seq<int>) -> IterationResult, u: seq<int>, v: seq<int>, fuel: nat): (r: (Outcome, seq<ProblemState>))
    decreases fuel
  {
    if fuel == 0 then (OutOfFuel, [])
    else
      match pass(u, v)
      case Finished(o) => (o, [])
      case Continued(s) =>
        var rest := Repeat(pass, s.u, s.v, fuel - 1);
        (rest.0, [s] + rest.1)
  }

  /** One pass of the loop on the costs `c`, as a function of the dual vectors. */
  ghost function PassOf(c: Matrix, n: nat, matcher: Graph -> set<Edge>, search: Search): (pass: (seq<int>, seq<int>) -> IterationResult)
    requires IsSquare(c, n) && MaximumMatcher(matcher)
  {
    (u: seq<int>, v: seq<int>) => Iteration(c, n, u, v, matcher, search)
  }

  /**
   * The loop of `find_optimum_cost` run for at most `fuel` passes: how it ends, and the
   * states it saves.  Every saved state holds its equality graph and no matching.
   */
  ghost function Run(c: Matrix, n: nat, u: seq<int>, v: seq<int>, matcher: Graph -> set<Edge>, search: Search, fuel: nat): (r: (Outcome, seq<ProblemState>))
    requires IsSquare(c, n) && MaximumMatcher(matcher)
  {
    Repeat(PassOf(c, n, matcher, search), u, v, fuel)
  }

  /**
   * A property `good` of the dual vectors that every pass keeps, and a `verdict` that every
   * pass which returns meets from them: the loop runs out of passes or ends with that verdict.
   */
  lemma {:induction false} RepeatKeeps(pass: (seq<int>, seq<int>) -> IterationResult, good: (seq<int>, seq<int>) -> bool,
                                       verdict: Outcome -> bool, u: seq<int>, v: seq<int>, fuel: nat)
    requires good(u, v)
    requires forall x, y :: good(x, y) ==>
      && (pass(x, y).Finished? ==> verdict(pass(x, y).outcome))
      && (pass(x, y).Continued? ==> good(pass(x, y).state.u, pass(x, y).state.v))
    ensures Repeat(pass, u, v, fuel).0 == OutOfFuel || verdict(Repeat(pass, u, v, fuel).0)
    decreases fuel
  {
    if fuel > 0 && pass(u, v).Continued? {
      var s := pass(u, v).state;
      RepeatKeeps(pass, good, verdict, s.u, s.v, fuel - 1);
    }
  }

  /**
   * A bound `ahead` on the passes still to come, which promises at least one pass, holds
   * again one lower after every pass that does not return, and gives the `verdict` of
   * every pass that does: the loop returns, with that verdict.
   */
  lemma {:induction false} RepeatEnds(pass: (seq<int>, seq<int>) -> IterationResult, ahead: (seq<int>, seq<int>, nat) -> bool,
                                      verdict: Outcome -> bool, u: seq<int>, v: seq<int>, fuel: nat)
    requires ahead(u, v, fuel)
    requires forall x, y, f: nat :: ahead(x, y, f) ==>
      && f > 0
      && (pass(x, y).Finished? ==> verdict(pass(x, y).outcome))
      && (pass(x, y).Continued? ==> ahead(pass(x, y).state.u, pass(x, y).state.v, f - 1))
    ensures verdict(Repeat(pass, u, v, fuel).0)
    decreases fuel
  {
    if pass(u, v).Continued? {
      var s := pass(u, v).state;
      RepeatEnds(pass, ahead, verdict, s.u, s.v, fuel - 1);
    }
  }

  /** One pass of the loop body, computed step by step as the driver computes it. */
  method IterateOnce(c: Matrix, n: nat, u: seq<int>, v: seq<int>, matcher: Graph -> set<Edge>, search: Search) returns (r: IterationResult)
    requires IsSquare(c, n) && MaximumMatcher(matcher)
    ensures r == Iteration(c, n, u, v, matcher, search)
  {
    if !DualShape(u, n) {
      return Finished(ShortDual);
    }
    var reduced, uVec, vVec := ReduceCosts(c, n, u, v);
    var g := GenerateEqualityGraph(reduced, n);
    EqualityGraphEdges(reduced, n);
    var m := matcher(g);
    if IsPerfect(m, g) {
      var cost := MatchingCostLoop(c, n, m);
      r := Finished(Optimal(cost, DualSum(uVec, vVec)));
      IterationPerfect(c, n, u, v, matcher, search);
    } else {
      EqualityMatching(reduced, n, m);
      r := ImproveOnce(reduced, n, m, g, uVec, vVec, search);
      IterationImproves(c, n, u, v, matcher, search);
    }
  }

  /** A pass whose matching is perfect ends with the matching's cost and the dual sum. */
  lemma IterationPerfect(c: Matrix, n: nat, u: seq<int>, v: seq<int>, matcher: Graph -> set<Edge>, search: Search)
    requires IsSquare(c, n) && MaximumMatcher(matcher) && DualShape(u, n)
    requires var g := EqualityGraph(ReducedCosts(c, n, u, v), n); IsPerfect(matcher(g), g)
    ensures var m := matcher(EqualityGraph(ReducedCosts(c, n, u, v), n));
      Iteration(c, n, u, v, matcher, search) ==
        Finished(Optimal(MatchingCost(c, n, m), DualSum(DualU(c, n, u), IterationV(c, n, u, v))))
  {
  }

  /** A pass whose matching is not perfect goes on to the cover and epsilon. */
  lemma IterationImproves(c: Matrix, n: nat, u: seq<int>, v: seq<int>, matcher: Graph -> set<Edge>, search: Search)
    requires IsSquare(c, n) && MaximumMatcher(matcher) && DualShape(u, n)
    requires var g := EqualityGraph(ReducedCosts(c, n, u, v), n); !IsPerfect(matcher(g), g)
    ensures var reduced := ReducedCosts(c, n, u, v);
      var m := matcher(EqualityGraph(reduced, n));
      && n > 0 && MaximumMatchingOf(m, EqualityGraph(reduced, n))
      && Iteration(c, n, u, v, matcher, search) == Improve(reduced, n, m, DualU(c, n, u), IterationV(c, n, u, v), search)
  {
    var reduced := ReducedCosts(c, n, u, v);
    EqualityGraphEdges(reduced, n);
    EqualityMatching(reduced, n, matcher(EqualityGraph(reduced, n)));
  }

  /** The second half of the loop body: the cover, its split, epsilon and the new vectors. */
  method ImproveOnce(reduced: Matrix, n: nat, m: set<Edge>, g: Graph, u: seq<int>, v: seq<int>, search: Search) returns (r: IterationResult)
    requires IsSquare(reduced, n) && n > 0 && MaximumMatchingOf(m, EqualityGraph(reduced, n))
    requires g == EqualityGraph(reduced, n)
    ensures r == Improve(reduced, n, m, u, v, search)
  {
    EqualityGraphEdges(reduced, n);
    EqualityMatching(reduced, n, m);
    BipartiteSplitIsDisjoint(g);
    var sides := BipartiteUndirectedLoop(g);
    assert sides.value == EqualitySides(reduced, n);
    var cover;
    match search {
      case AsWritten =>
        var matching;
        cover, matching := HungarianMaximumMatching(g, sides.value.nodesU, sides.value.nodesV, m);
      case Corrected =>
        cover := FixedHungarianResult(g, sides.value.nodesU, sides.value.nodesV, m).0;
    }
    assert cover == HungarianCover(reduced, n, m, search);
    SplitPreconditions(reduced, n, m, search);
    var split := SplitCoverLoop(sides.value.nodesU, sides.value.nodesV, cover, n);
    assert split == CoverSplitOf(reduced, n, m, search);
    var eps := EpsilonLoop(reduced, n, split.rows, split.cols);
    match eps
    case None =>
      r := Finished(NoEpsilon);
    case Some(e) =>
      var u' := AddAtLoop(u, split.rows, e);
      var v' := SubtractAtLoop(v, split.red, e);
      r := Continued(ProblemState(u', v', reduced, Some(g), None));
      ImproveMoves(reduced, n, m, u, v, e, search);
  }

  /** When epsilon exists, the pass saves the moved dual vectors with the reduced costs. */
  lemma ImproveMoves(reduced: Matrix, n: nat, m: set<Edge>, u: seq<int>, v: seq<int>, e: int, search: Search)
    requires IsSquare(reduced, n) && n > 0 && MaximumMatchingOf(m, EqualityGraph(reduced, n))
    requires var split := CoverSplitOf(reduced, n, m, search); Epsilon(reduced, n, split.rows, split.cols) == Some(e)
    ensures var split := CoverSplitOf(reduced, n, m, search);
      Improve(reduced, n, m, u, v, search) ==
        Continued(ProblemState(AddAt(u, split.rows, e), SubtractAt(v, split.red, e), reduced, Some(EqualityGraph(reduced, n)), None))
  {
  }

  /**
   * A pass that saves the very state it started from is a fixed point of the loop: once a
   * pass has saved such a state `s`, the run saves `s` on every pass and never returns an
   * outcome of its own.
   */
  lemma RunStuck(c: Matrix, n: nat, u: seq<int>, v: seq<int>, matcher: Graph -> set<Edge>, search: Search, s: ProblemState, fuel: nat)
    requires IsSquare(c, n) && MaximumMatcher(matcher)
    requires Iteration(c, n, u, v, matcher, search) == Continued(s)
    requires Iteration(c, n, s.u, s.v, matcher, search) == Continued(s)
    ensures var run := Run(c, n, u, v, matcher, search, fuel);
      run.0 == OutOfFuel && |run.1| == fuel && forall k :: 0 <= k < fuel ==> run.1[k] == s
  {
    RepeatStuck(PassOf(c, n, matcher, search), u, v, s, fuel);
  }

  /** `RunStuck` for any pass. */
  lemma {:induction false} RepeatStuck(pass: (seq<int>, seq<int>) -> IterationResult, u: seq<int>, v: seq<int>, s: ProblemState, fuel: nat)
    requires pass(u, v) == Continued(s) && pass(s.u, s.v) == Continued(s)
    ensures var r := Repeat(pass, u, v, fuel);
      r.0 == OutOfFuel && |r.1| == fuel && forall k :: 0 <= k < fuel ==> r.1[k] == s
    decreases fuel
  {
    if fuel > 0 {
      RepeatStuck(pass, s.u, s.v, s, fuel - 1);
    }
  }

  /** A pass whose epsilon is zero saves the dual vectors as they were. */
  lemma ImproveByZero(reduced: Matrix, n: nat, m: set<Edge>, u: seq<int>, v: seq<int>, search: Search)
    requires IsSquare(reduced, n) && n > 0 && MaximumMatchingOf(m, EqualityGraph(reduced, n))
    requires var split := CoverSplitOf(reduced, n, m, search); Epsilon(reduced, n, split.rows, split.cols) == Some(0)
    ensures Improve(reduced, n, m, u, v, search) == Continued(ProblemState(u, v, reduced, Some(EqualityGraph(reduced, n)), None))
  {
    var split := CoverSplitOf(reduced, n, m, search);
    ImproveMoves(reduced, n, m, u, v, 0, search);
    ZeroMove(u, split.rows);
    ZeroMove(v, split.red);
  }

  /** Moving a vector by zero, up or down, anywhere, leaves it as it is. */
  lemma ZeroMove(u: seq<int>, at: seq<nat>)
    ensures AddAt(u, at, 0) == u && SubtractAt(u, at, 0) == u
  {
  }

  /** A pass that returns ends the run. */
  lemma RunFinishes(c: Matrix, n: nat, u: seq<int>, v: seq<int>, matcher: Graph -> set<Edge>, search: Search, fuel: nat)
    requires IsSquare(c, n) && MaximumMatcher(matcher) && fuel > 0
    requires Iteration(c, n, u, v, matcher, search).Finished?
    ensures Run(c, n, u, v, matcher, search, fuel) == (Iteration(c, n, u, v, matcher, search).outcome, [])
  {
  }

  /** A pass that saves a state runs on from that state's dual vectors, with one pass less. */
  lemma RunContinues(c: Matrix, n: nat, u: seq<int>, v: seq<int>, matcher: Graph -> set<Edge>, search: Search, fuel: nat)
    requires IsSquare(c, n) && MaximumMatcher(matcher) && fuel > 0
    requires Iteration(c, n, u, v, matcher, search).Continued?
    ensures var s := Iteration(c, n, u, v, matcher, search).state;
      var rest := Run(c, n, s.u, s.v, matcher, search, fuel - 1);
      Run(c, n, u, v, matcher, search, fuel) == (rest.0, [s] + rest.1)
  {
  }

  /** The states saved so far, then those of the rest of the run, once one more is saved. */
  lemma RunSaves(c: Matrix, n: nat, u: seq<int>, v: seq<int>, matcher: Graph -> set<Edge>, search: Search, fuel: nat, rest: nat,
                 saved: seq<ProblemState>, whole: (Outcome, seq<ProblemState>))
    requires IsSquare(c, n) && MaximumMatcher(matcher) && fuel == rest + 1
    requires Iteration(c, n, u, v, matcher, search).Continued?
    requires whole == Resume(c, n, matcher, search, saved, u, v, fuel)
    ensures var s := Iteration(c, n, u, v, matcher, search).state;
      whole == Resume(c, n, matcher, search, saved + [s], s.u, s.v, rest)
  {
    var s := Iteration(c, n, u, v, matcher, search).state;
    RunContinues(c, n, u, v, matcher, search, fuel);
    ConcatShift(saved, s, Run(c, n, s.u, s.v, matcher, search, fuel - 1).1);
    RunFuel(c, n, s.u, s.v, matcher, search, fuel - 1);
  }

  /** The run with `fuel` passes is the run with any number of passes equal to `fuel`. */
  lemma RunFuel(c: Matrix, n: nat, u: seq<int>, v: seq<int>, matcher: Graph -> set<Edge>, search: Search, fuel: nat)
    requires IsSquare(c, n) && MaximumMatcher(matcher)
    ensures forall k: nat :: k == fuel ==> Run(c, n, u, v, matcher, search, k) == Run(c, n, u, v, matcher, search, fuel)
  {
  }

  /**
   * Part way through the loop, with `left` passes to go: the saved states are the first
   * ones plus `saved`, and the run from the last of them adds the rest of `whole`.
   */
  ghost predicate Ongoing(c: Matrix, n: nat, matcher: Graph -> set<Edge>, search: Search, states: seq<ProblemState>,
                          start: seq<ProblemState>, saved: seq<ProblemState>, whole: (Outcome, seq<ProblemState>), left: nat)
    requires IsSquare(c, n) && MaximumMatcher(matcher)
  {
    && states == start + saved && |states| > 0
    && var last := states[|states| - 1]; whole == Resume(c, n, matcher, search, saved, last.u, last.v, left)
  }

  /** The states saved so far, then the run from dual vectors `u`, `v` with `left` passes to go. */
  ghost function Resume(c: Matrix, n: nat, matcher: Graph -> set<Edge>, search: Search, saved: seq<ProblemState>,
                        u: seq<int>, v: seq<int>, left: nat): (r: (Outcome, seq<ProblemState>))
    requires IsSquare(c, n) && MaximumMatcher(matcher)
  {
    var tail := Run(c, n, u, v, matcher, search, left);
    (tail.0, saved + tail.1)
  }

  /** Before the first pass nothing is saved and the whole run is still to come. */
  lemma OngoingAtStart(c: Matrix, n: nat, matcher: Graph -> set<Edge>, search: Search, start: seq<ProblemState>,
                       whole: (Outcome, seq<ProblemState>), fuel: nat)
    requires IsSquare(c, n) && MaximumMatcher(matcher) && |start| > 0
    requires var first := start[|start| - 1]; whole == Run(c, n, first.u, first.v, matcher, search, fuel)
    ensures Ongoing(c, n, matcher, search, start, start, [], whole, fuel)
  {
    AppendNothing(whole.1);
    AppendNothing(start);
  }

  /** With no pass left, the run has nothing more to add. */
  lemma OngoingAtEnd(c: Matrix, n: nat, matcher: Graph -> set<Edge>, search: Search, states: seq<ProblemState>,
                     start: seq<ProblemState>, saved: seq<ProblemState>, whole: (Outcome, seq<ProblemState>))
    requires IsSquare(c, n) && MaximumMatcher(matcher)
    requires Ongoing(c, n, matcher, search, states, start, saved, whole, 0)
    ensures states == start + saved && whole == (OutOfFuel, saved)
  {
    AppendNothing(saved);
  }

  /**
   * `OptimalSolution`: the saved states.  The costs of the first state and the dual
   * vectors of the last one feed each pass of the loop.
   */
  class OptimalSolution {
    var states: seq<ProblemState>

    /** `new`: no saved state. */
    constructor ()
      ensures states == []
    {
      states := [];
    }

    /** `init`: saves the first state, with the costs and the starting dual vectors. */
    method Init(u: seq<int>, v: seq<int>, c: Matrix)
      modifies this
      ensures states == old(states) + [ProblemState(u, v, c, None, None)]
    {
      states := states + [ProblemState(u, v, c, None, None)];
    }

    /** One pass of the loop from the last saved state, saving the new state if there is one. */
    method SavePass(c: Matrix, n: nat, matcher: Graph -> set<Edge>) returns (r: IterationResult)
      requires IsSquare(c, n) && MaximumMatcher(matcher) && |states| > 0
      modifies this
      ensures var last := old(states[|states| - 1]); r == Iteration(c, n, last.u, last.v, matcher, AsWritten)
      ensures states == if r.Continued? then old(states) + [r.state] else old(states)
    {
      var last := states[|states| - 1];
      r := IterateOnce(c, n, last.u, last.v, matcher, AsWritten);
      if r.Continued? {
        states := states + [r.state];
      }
    }

    /**
     * `find_optimum_cost`, for at most `fuel` passes: with no saved state it fails at once;
     * otherwise it ends as `Run` says, from the first state's costs and the last state's
     * dual vectors, and saves the states `Run` lists.
     */
    method FindOptimumCost(matcher: Graph -> set<Edge>, fuel: nat) returns (o: Outcome)
      requires MaximumMatcher(matcher)
      requires |states| > 0 ==> IsSquare(states[0].c, |states[0].c|)
      modifies this
      ensures old(|states|) == 0 ==> o == Uninitialised && states == old(states)
      ensures old(|states|) > 0 ==>
        var c, last := old(states[0].c), old(states[|states| - 1]);
        var run := Run(c, |c|, last.u, last.v, matcher, AsWritten, fuel);
        o == run.0 && states == old(states) + run.1
    {
      if |states| == 0 {
        return Uninitialised;
      }
      var c := states[0].c;
      ghost var last := states[|states| - 1];
      o := Loop(c, |c|, matcher, fuel, Run(c, |c|, last.u, last.v, matcher, AsWritten, fuel));
    }

    /** The loop of `find_optimum_cost`, from the costs `c` and the last saved state. */
    method Loop(c: Matrix, n: nat, matcher: Graph -> set<Edge>, fuel: nat, ghost whole: (Outcome, seq<ProblemState>)) returns (o: Outcome)
      requires IsSquare(c, n) && MaximumMatcher(matcher) && |states| > 0
      requires var last := states[|states| - 1]; whole == Run(c, n, last.u, last.v, matcher, AsWritten, fuel)
      modifies this
      ensures o == whole.0 && states == old(states) + whole.1
    {
      ghost var start := states;
      ghost var saved: seq<ProblemState> := [];
      OngoingAtStart(c, n, matcher, AsWritten, start, whole, fuel);
      var left := fuel;
      while left > 0
        invariant Ongoing(c, n, matcher, AsWritten, states, start, saved, whole, left)
      {
        var r;
        r, left, saved := Pass(c, n, matcher, left, start, saved, whole);
        if r.Finished? {
          return r.outcome;
        }
      }
      OngoingAtEnd(c, n, matcher, AsWritten, states, start, saved, whole);
      return OutOfFuel;
    }

    /**
     * One turn of the loop of `find_optimum_cost`, as far as the run is concerned: it ends
     * the run, or saves one more of the states the run lists.
     */
    method Pass(c: Matrix, n: nat, matcher: Graph -> set<Edge>, left: nat,
                ghost start: seq<ProblemState>, ghost saved: seq<ProblemState>, ghost whole: (Outcome, seq<ProblemState>))
      returns (r: IterationResult, left': nat, ghost saved': seq<ProblemState>)
      requires IsSquare(c, n) && MaximumMatcher(matcher) && left > 0
      requires Ongoing(c, n, matcher, AsWritten, states, start, saved, whole, left)
      modifies this
      ensures left' == left - 1
      ensures r.Finished? ==> states == start + saved && whole == (r.outcome, saved)
      ensures r.Continued? ==> Ongoing(c, n, matcher, AsWritten, states, start, saved', whole, left')
    {
      left' := left - 1;
      ghost var last := states[|states| - 1];
      r := SavePass(c, n, matcher);
      if r.Finished? {
        RunFinishes(c, n, last.u, last.v, matcher, AsWritten, left);
        AppendNothing(saved);
        saved' := saved;
      } else {
        RunSaves(c, n, last.u, last.v, matcher, AsWritten, left, left', saved, whole);
        AppendShift(start, saved, r.state);
        saved' := saved + [r.state];
      }
    }
  }
}
