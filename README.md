# The Hungarian method for the assignment problem

This project models, in Dafny, the combinatorial-optimisation core of a small Rust library.
The model covers three parts.

- **`bipartite_undirected` and `is_bipartite_undirected`.** These colour the nodes of an undirected graph blue and red, visiting one neighbour at a time. The first splits the nodes into `nodes_u` (blue) and `nodes_v` (red). The second answers whether the colouring succeeded.
- **`hungarian_maximum_matching`.** Given a bipartite graph, its two sides and a starting matching, this grows alternating trees from exposed (unmatched) vertices of `U`. It flips every augmenting path it finds. It returns the final matching and a cover: the uncoloured `U` vertices followed by the red `V` vertices.
- **`OptimalSolution` in `assignment_problem.rs`.** It saves states (`new`, `init`), then loops in `find_optimum_cost`. Each pass does the following:
  1. It builds the dual matrices U and V from the saved vectors, falling back to the row and column minima (`generate_u_matrix`, `generate_v_matrix`).
  2. It reduces the costs and builds the equality graph of the zero entries (`generate_equality_graph`).
  3. It asks for a maximum matching.
  4. It stops when that matching is perfect.
  5. Otherwise it runs the Hungarian search. It splits its cover into rows and columns, takes epsilon, the least reduced cost outside the cover, and raises u on the uncovered rows and lowers v on the covered columns. It saves the new state and repeats.

Graphs are adjacency lists (`seq<seq<nat>>`, node `x` has neighbours `adj[x]`). Matchings are sets of `(U node, V node)` pairs. Matrices are `seq<seq<int>>`, with `DMatrix`'s column-major storage order written out where the source indexes it. The pure computations are functions. The loops of the source are methods with invariants, each proved equal to the function that specifies it. `OptimalSolution` is a class whose `states` field is the saved list. The maximum-matching routine of the graph library becomes a parameter `matcher`, whose only promise is to return a maximum matching.

The main results proved are the following.

- **Augmenting paths.** The search only ever flips augmenting paths, so its matching stays valid and never shrinks. The cover it returns has as many nodes as the matching has edges.
- **The search as written misses edges.** Each blue vertex is scanned only up to its first matched neighbour. Because of this, the returned cover can miss an edge and the matching need not be maximum; a six-node graph exhibits both.
- **The corrected search.** A search that scans every neighbour returns a vertex cover of the same size as its matching. The matching is therefore maximum, by König's theorem.
- **The driver takes the search as a parameter.** `Iteration` and `Run` take a `Search`: `AsWritten` is `hungarian_maximum_matching` as the source writes it, `Corrected` the search above. The class `OptimalSolution` calls the search as written.
- **Each pass, with either search.** Starting from the row and column minima, every pass keeps the reduced costs non-negative with a zero in every row and every column. Epsilon always exists and is never negative, and no continuing pass lowers the sum of u and v. Whenever the loop of the source returns, with either search, it returns a perfect matching whose cost equals the sum of the u and v by which that pass reduced the costs, and that cost is no larger than the cost of any assignment (`Duality.RunFromMinima`).
- **The loop as written need not return.** On a 5×5 cost matrix, with a matcher that hands the search the maximum matching {(0,5), (1,6), (4,9)}, the search as written returns the cover [1, 4, 5], which leaves the zero at row 2, column 1 uncovered. Epsilon is then 0, every pass saves the same zero vectors, and `find_optimum_cost` never returns (`StalledLoop.StalledFindOptimumCost`).
- **The loop with the corrected search ends.** With the corrected search, epsilon is positive and each continuing pass strictly raises the sum of u and v, which never exceeds the cost of an assignment. The loop then ends with a perfect matching of least cost (`Progress.RunEndsFromMinima` together with `Duality.RunFromMinima`).

## Model

| member | source | states |
|---|---|---|
| Graphs.Covered | src/maths/comb_optimization/hungarian.rs:88-94 | a node is covered exactly when some matched edge has it as an end |
| Graphs.SymmetricDifference | src/maths/comb_optimization/hungarian.rs:344 | an edge is in the result exactly when it is in one of the two sets and not the other |
| Graphs.Augment | src/maths/comb_optimization/hungarian.rs:344 | flipping an augmenting path of a U-to-V matching gives a U-to-V matching of the same graph with one more edge, covering the old nodes plus both ends of the path |
| Graphs.AugmentAllGrows | src/maths/comb_optimization/hungarian.rs:87-370 | after any chain of augmentations the matching is still valid, has one more edge per path, and still covers every node it covered before |
| Graphs.MatchingAtMostCover | src/maths/comb_optimization/hungarian.rs:32-33 | no matching of a graph has more edges than any vertex cover of it has nodes |
| Graphs.CoverCertifiesMaximum | src/maths/comb_optimization/hungarian.rs:32-33 | a matching exactly as large as some vertex cover is maximum: every matching of the graph is at most as large |
| Hungarian.Mate | src/maths/comb_optimization/hungarian.rs:376 | the partner of column node w is found exactly when some matched edge ends at w, and the pair found is matched |
| Hungarian.FindMate | src/maths/comb_optimization/hungarian.rs:376 | the search through the matched edges returns the partner `Mate` specifies |
| Hungarian.ChainAugments | src/maths/comb_optimization/hungarian.rs:222-344 | a tree path from an exposed root, followed by an exposed column neighbour of its last node, is an augmenting path (the path reconstructed and flipped) |
| Hungarian.ChainExtends | src/maths/comb_optimization/hungarian.rs:372-396 | colouring w red and its partner blue extends the tree path by w and the partner, and the path stays alternating |
| Hungarian.ColouringExtends | src/maths/comb_optimization/hungarian.rs:372-378 | that colouring keeps the tree invariant: blue nodes are rows, a matched edge has a blue row exactly when it has a red column, and every red column is covered |
| Hungarian.ScanResult | src/maths/comb_optimization/hungarian.rs:208-415 | scanning the neighbours of s in ascending order ends at an exposed column neighbour of s, or at an uncoloured matched neighbour (coloured red, with its partner), or exhausted with every neighbour red and not exposed; red only grows, by neighbours of s |
| Hungarian.ScanNeighbours | src/maths/comb_optimization/hungarian.rs:208-415 | the loop over the sorted neighbours computes `ScanResult` |
| Hungarian.TreeResult | src/maths/comb_optimization/hungarian.rs:176-423 | tree building from a root either returns an augmenting path of the matching or ends with the tree invariant kept and blue only grown |
| Hungarian.BuildTree | src/maths/comb_optimization/hungarian.rs:176-423 | the queue loop computes `TreeResult` |
| Hungarian.GrowFromRoot | src/maths/comb_optimization/hungarian.rs:128-176 | colouring an exposed, uncoloured row blue keeps the invariant, starts a one-node tree path, and the tree built from it is `TreeResult`'s |
| Hungarian.PassResult | src/maths/comb_optimization/hungarian.rs:113-434 | a sweep over the node ids from k returns an augmenting path, or keeps the invariant with every exposed row from k on blue; it restarts only when the last node id is an exposed row not yet blue |
| Hungarian.PassSkips | src/maths/comb_optimization/hungarian.rs:425-431 | a node id that is not an exposed, uncoloured row passes the sweep on to the next id |
| Hungarian.PassSkipsToEnd | src/maths/comb_optimization/hungarian.rs:425-431 | when no exposed, uncoloured row is left from k on, the sweep stops with the colouring unchanged |
| Hungarian.PassRootNoPath | src/maths/comb_optimization/hungarian.rs:417-431 | a root whose tree finds no path hands its colouring to the next node id |
| Hungarian.PassRootPath | src/maths/comb_optimization/hungarian.rs:222-370 | a root whose tree finds a path ends the sweep with that path |
| Hungarian.ExposedVertexPass | src/maths/comb_optimization/hungarian.rs:113-434 | the `'exposed_vertex` loop computes `PassResult` from the first node id |
| Hungarian.VisitIdentifier | src/maths/comb_optimization/hungarian.rs:113-432 | one node id either ends the sweep with `PassResult`'s outcome or moves to the next id with the same eventual outcome |
| Hungarian.SearchResult | src/maths/comb_optimization/hungarian.rs:87-435 | the `'hungarian` loop ends with a valid matching that is the start matching augmented along a chain of augmenting paths, and every exposed row blue |
| Hungarian.AugmentCoversRoot | src/maths/comb_optimization/hungarian.rs:344-370 | flipping a path keeps the matching valid and strictly shrinks the set of exposed rows, so the `'hungarian` loop restarts finitely often |
| Hungarian.RestartRootsAll | src/maths/comb_optimization/hungarian.rs:425-431 | a sweep that runs off the end without augmenting leaves strictly fewer exposed rows uncoloured |
| Hungarian.AddCovered | src/maths/comb_optimization/hungarian.rs:88-94 | `covered_nodes` gains exactly the ends of the matched edges |
| Hungarian.AddExposed | src/maths/comb_optimization/hungarian.rs:96-106 | the exposed set gains exactly the listed nodes that are not covered |
| Hungarian.CollectCover | src/maths/comb_optimization/hungarian.rs:437-448 | the cover lists the rows of `nodes_u` that are not blue, then the columns of `nodes_v` that are red, in list order |
| Hungarian.RunPasses | src/maths/comb_optimization/hungarian.rs:87-435 | the `'hungarian` loop returns `SearchResult`'s colouring and matching |
| Hungarian.HungarianAugments | src/maths/comb_optimization/hungarian.rs:20-451 | the returned matching is valid, no smaller than the given one, still covers every node the given one covered, and is the given one augmented along a chain of augmenting paths |
| Hungarian.CoverMatchesMatching | src/maths/comb_optimization/hungarian.rs:437-448 | with the tree invariant and every exposed row blue, the cover holds exactly one end of every matched edge, only covered nodes, no node twice, and as many nodes as the matching has edges |
| Hungarian.HungarianCoverSize | src/maths/comb_optimization/hungarian.rs:32-33 | the returned cover and matching have the same size, with exactly one end of each matched edge in the cover (the theorem cited in the source) |
| Hungarian.HungarianMaximumMatching | src/maths/comb_optimization/hungarian.rs:20-451 | the method returns `HungarianResult`: a valid matching no smaller than the given one, and a cover of its size when the side lists hold no repeats |
| HungarianFixed.FullScan | src/maths/comb_optimization/hungarian.rs:221-415 | the corrected scan visits every neighbour of the tree tip: it returns an augmenting path, or ends with every neighbour red and every new tree path queued and valid |
| HungarianFixed.ExtendStep | src/maths/comb_optimization/hungarian.rs:372-396 | colouring a matched neighbour red and its partner blue keeps the invariant and queues the extended path, whose tip is the partner |
| HungarianFixed.FixedTree | src/maths/comb_optimization/hungarian.rs:176-423 | the corrected tree building returns an augmenting path, or ends with every blue vertex scanned and all its neighbours red |
| HungarianFixed.FixedRoot | src/maths/comb_optimization/hungarian.rs:128-176 | a tree from an exposed row returns an augmenting path, or ends with the root blue and every blue vertex scanned |
| HungarianFixed.FixedPass | src/maths/comb_optimization/hungarian.rs:113-434 | the corrected sweep returns an augmenting path, or ends with every exposed row from k on blue and scanned |
| HungarianFixed.FixedSearch | src/maths/comb_optimization/hungarian.rs:87-435 | the corrected loop ends with a valid matching reached by augmenting paths, every exposed row blue, and every blue vertex fully scanned |
| HungarianFixed.CoverMeetsEdge | src/maths/comb_optimization/hungarian.rs:437-448 | once every blue vertex is fully scanned, each edge has its row or its column in the cover |
| HungarianFixed.ScannedCoverIsVertexCover | src/maths/comb_optimization/hungarian.rs:437-448 | the non-blue rows and red columns then form a vertex cover of the graph |
| HungarianFixed.FixedHungarianIsMaximum | src/maths/comb_optimization/hungarian.rs:32-33 | the corrected search returns a valid matching and a vertex cover of the same size, so the matching is maximum; the cover has no repeats and only listed nodes |
| HungarianFixtures.SixScanRoot | src/maths/comb_optimization/hungarian.rs:221-410 | on the six-node graph, scanning root 0 colours column 3 red and stops at it, with partner 1 |
| HungarianFixtures.SixScanEnd | src/maths/comb_optimization/hungarian.rs:221-415 | scanning vertex 1 finds nothing new |
| HungarianFixtures.SixTree | src/maths/comb_optimization/hungarian.rs:176-423 | the tree from root 0 ends without a path, its other neighbour 4 never examined |
| HungarianFixtures.SixPass | src/maths/comb_optimization/hungarian.rs:113-434 | the sweep stops without augmenting |
| HungarianFixtures.SixSearch | src/maths/comb_optimization/hungarian.rs:87-435 | the whole search keeps the given two-edge matching |
| HungarianFixtures.SixCover | src/maths/comb_optimization/hungarian.rs:437-448 | the cover read off the final colouring is [2, 3] |
| HungarianFixtures.SixResult | src/maths/comb_optimization/hungarian.rs:20-451 | the search returns cover [2, 3] and the given matching |
| HungarianFixtures.SixLargerMatching | src/maths/comb_optimization/hungarian.rs:32-33 | the graph has a three-edge matching |
| HungarianFixtures.SixNodeCounterexample | src/maths/comb_optimization/hungarian.rs:372-410 | as written, the returned cover [2, 3] misses edge 0-4 and the returned two-edge matching is not maximum |
| HungarianTests.FirstSides | tests/hungarian.rs:48 | `bipartite_undirected` splits the first test graph into s1..s5 (nodes 0-4) and t1..t5 (nodes 5-9) |
| HungarianTests.FirstFirstPass | tests/hungarian.rs:49-55 | the first sweep from the given matching finds the augmenting path s1-t2-s2-t1 |
| HungarianTests.FirstAugment | tests/hungarian.rs:49-55 | flipping it gives the matching {(0,6), (1,5), (2,7), (4,9)} |
| HungarianTests.FirstSecondPass | tests/hungarian.rs:49-55 | the second sweep stops without a path |
| HungarianTests.FirstSearch | tests/hungarian.rs:49-55 | the whole search augments exactly once |
| HungarianTests.FirstCover | tests/hungarian.rs:56 | the final colouring gives the cover [1, 4, 6, 7] |
| HungarianTests.FirstTest | tests/hungarian.rs:10-62 | the test's assertion: on its graph and matching the search returns cover [1, 4, 6, 7] |
| HungarianTests.SecondSides | tests/hungarian.rs:100 | `bipartite_undirected` splits the second test graph into s1..s5 and t1..t5 |
| HungarianTests.SecondFirstPass | tests/hungarian.rs:101-107 | the first sweep from the given matching finds the augmenting path s1-t3-s2-t1 |
| HungarianTests.SecondFirstAugment | tests/hungarian.rs:101-107 | flipping it gives the matching {(0,7), (1,5), (4,8)} |
| HungarianTests.SecondSecondPass | tests/hungarian.rs:101-107 | the second sweep finds the augmenting path s4-t1-s2-t2 |
| HungarianTests.SecondSecondAugment | tests/hungarian.rs:101-107 | flipping it gives the matching {(0,7), (1,6), (3,5), (4,8)} |
| HungarianTests.SecondThirdPass | tests/hungarian.rs:101-107 | the third sweep stops without a path |
| HungarianTests.SecondSearch | tests/hungarian.rs:101-107 | the whole search augments exactly twice and returns the four-edge matching |
| HungarianTests.SecondCover | tests/hungarian.rs:108 | the final colouring gives the cover [1, 3, 7, 8] |
| HungarianTests.SecondTest | tests/hungarian.rs:63-114 | the test's assertion: on its graph and matching the search returns cover [1, 3, 7, 8] |
| HungarianTests.ThirdSides | tests/hungarian.rs:144 | `bipartite_undirected` splits the third test graph into rows 0-3 and columns 4-7 |
| HungarianTests.ThirdFirstPass | tests/hungarian.rs:145-151 | the first sweep from the given matching finds the augmenting path 1-6 |
| HungarianTests.ThirdAugment | tests/hungarian.rs:145-151 | flipping it adds edge (1, 6) to the given matching |
| HungarianTests.ThirdSecondPass | tests/hungarian.rs:145-151 | the second sweep stops without a path |
| HungarianTests.ThirdSearch | tests/hungarian.rs:145-151 | the whole search augments exactly once, along 1-6 |
| HungarianTests.ThirdCover | tests/hungarian.rs:152 | the final colouring gives the cover [1, 3, 5] |
| HungarianTests.ThirdTest | tests/hungarian.rs:115-157 | the test's assertion: on its graph and matching the search returns cover [1, 3, 5] |
| Bipartite.Propagate | src/maths/graph_theory/bipartite.rs:93-112 | one neighbour step only adds colours: an uncoloured node whose neighbour is not blue turns blue; a blue node's uncoloured neighbour turns red; a red node or a blue neighbour changes nothing |
| Bipartite.Split | src/maths/graph_theory/bipartite.rs:116-122 | `nodes_u` is exactly the blue nodes and `nodes_v` the red nodes that are not blue, both in ascending order |
| Bipartite.BipartiteUndirected | src/maths/graph_theory/bipartite.rs:78-125 | the function always returns `Some` |
| Bipartite.BipartiteSplitIsDisjoint | src/maths/graph_theory/bipartite.rs:84-124 | the two lists are disjoint, hold no repeats, ascend, and name nodes of the graph |
| Bipartite.IsolatedNodeUncoloured | src/maths/graph_theory/bipartite.rs:92-122 | a node without neighbours is in neither list |
| Bipartite.SplitGraphSides | src/maths/graph_theory/bipartite.rs:78-125 | when every edge joins a node below n to one at or above n, `nodes_u` is exactly the nodes below n with a neighbour and `nodes_v` those from n on with a neighbour, whatever the order of the adjacency lists |
| Bipartite.SplitGraphLists | src/maths/graph_theory/bipartite.rs:78-125 | on such a graph the result is the pair of ascending lists with those members |
| Bipartite.BipartiteUndirectedLoop | src/maths/graph_theory/bipartite.rs:78-125 | the nested loops compute `BipartiteUndirected` |
| Bipartite.CheckStep | src/maths/graph_theory/bipartite.rs:44-71 | one step of the check fails exactly in the cases the match does not list; otherwise colours grow by at most the node and its neighbour, which end up one blue and one red |
| Bipartite.CheckStepDisjoint | src/maths/graph_theory/bipartite.rs:50-71 | a successful step keeps blue and red disjoint |
| Bipartite.CheckFromSound | src/maths/graph_theory/bipartite.rs:43-73 | if the check succeeds from some edge on, every edge from there on joins a blue node to a red one, and blue and red stay disjoint |
| Bipartite.IsBipartiteSound | src/maths/graph_theory/bipartite.rs:25-76 | on a graph without self-loops, `true` comes with a proper two-colouring, so the graph is bipartite |
| Bipartite.PathIsRejected | src/maths/graph_theory/bipartite.rs:25-76 | the path 0-1-2 is two-colourable, yet the check returns `false` |
| Bipartite.SelfLoopIsAccepted | src/maths/graph_theory/bipartite.rs:25-76 | a node with a self-loop has no two-colouring, yet the check returns `true` |
| Bipartite.IsBipartiteUndirectedLoop | src/maths/graph_theory/bipartite.rs:32-76 | the nested loops compute `IsBipartiteUndirected` |
| DualMatrices.Min | src/maths/comb_optimization/assignment_problem/assignment_problem.rs:244 | `min()` of a non-empty row is at most every entry and is one of them |
| DualMatrices.RowMinima | src/maths/comb_optimization/assignment_problem/assignment_problem.rs:242-246 | entry i is at most every entry of row i and occurs in it |
| DualMatrices.ColumnMinima | src/maths/comb_optimization/assignment_problem/assignment_problem.rs:269-273 | entry j is at most every entry of column j and occurs in it |
| DualMatrices.Repeat | src/maths/comb_optimization/assignment_problem/assignment_problem.rs:256 | `repeat(x).take(t)` is t copies of x |
| DualMatrices.RepeatEach | src/maths/comb_optimization/assignment_problem/assignment_problem.rs:248-260 | each entry of u repeated t times, in order: position i·t + k holds u[i] |
| DualMatrices.Cycle | src/maths/comb_optimization/assignment_problem/assignment_problem.rs:275 | `cycle().take(len)` has length len, and position i·\|v\| + k holds v[k] |
| DualMatrices.CycleEntry | src/maths/comb_optimization/assignment_problem/assignment_problem.rs:275 | position x of the cycled v holds v[x mod \|v\|] |
| DualMatrices.FromRowSlice | src/maths/comb_optimization/assignment_problem/assignment_problem.rs:261 | `from_row_slice` puts data[i·m + j] at row i, column j |
| DualMatrices.GenerateUMatrix | src/maths/comb_optimization/assignment_problem/assignment_problem.rs:237-262 | an n×n matrix whose row i holds u_i throughout, where u is the given vector or the row minima |
| DualMatrices.PushColumnMinima | src/maths/comb_optimization/assignment_problem/assignment_problem.rs:269-273 | the loop collects the column minima |
| DualMatrices.GenerateVMatrix | src/maths/comb_optimization/assignment_problem/assignment_problem.rs:264-278 | an n×n matrix whose entry (i, j) is entry (i·n + j) mod \|v\| of v, where v is the given vector or the column minima |
| DualMatrices.Sub | src/maths/comb_optimization/assignment_problem/assignment_problem.rs:76 | matrix subtraction is entrywise |
| DualMatrices.SubRows | src/maths/comb_optimization/assignment_problem/assignment_problem.rs:76 | subtracting the U matrix takes u_i from every entry of row i, and column 0 of U is u |
| DualMatrices.SubCycled | src/maths/comb_optimization/assignment_problem/assignment_problem.rs:79 | subtracting the V matrix takes the cycled v off entrywise, and row 0 of V is the cycled first row |
| DualMatrices.CycleInRows | src/maths/comb_optimization/assignment_problem/assignment_problem.rs:275 | when \|v\| = n, cycling puts v[j] in column j of every row |
| DualMatrices.ReducedCostEntries | src/maths/comb_optimization/assignment_problem/assignment_problem.rs:74-80 | with u empty or long enough and v empty or n long, each reduced cost is c_ij − u_i − v_j for the u and v the pass reads back |
| DualMatrices.IterationVIsDualV | src/maths/comb_optimization/assignment_problem/assignment_problem.rs:196-197 | the v the pass reads back is the dual vector of the row-reduced matrix |
| DualMatrices.RowReduction | src/maths/comb_optimization/assignment_problem/assignment_problem.rs:242-246 | subtracting the row minima leaves no negative entry and a zero in every row |
| DualMatrices.ColumnReduction | src/maths/comb_optimization/assignment_problem/assignment_problem.rs:269-273 | subtracting the column minima leaves no negative entry and a zero in every column, and keeps the zero of every row that had one |
| DualMatrices.FirstReduction | src/maths/comb_optimization/assignment_problem/assignment_problem.rs:28-29 | from empty u and v the reduced costs are non-negative, with a zero in every row and every column |
| DualMatrices.ReduceRows | src/maths/comb_optimization/assignment_problem/assignment_problem.rs:74-76 | the method returns c − U and the u read from U |
| DualMatrices.ReduceColumns | src/maths/comb_optimization/assignment_problem/assignment_problem.rs:78-79 | the method returns the column-reduced matrix and the v read from row 0 of V |
| DualMatrices.ReduceCosts | src/maths/comb_optimization/assignment_problem/assignment_problem.rs:74-80 | the method returns the reduced costs and the u and v the pass reads back |
| EqualityGraphs.Get | src/maths/comb_optimization/assignment_problem/assignment_problem.rs:181 | `get(k)` has a value exactly when k < n·n |
| EqualityGraphs.GetEntry | src/maths/comb_optimization/assignment_problem/assignment_problem.rs:116 | index (i mod n) + j·n reads row i, column j for j < n, and nothing past the last column |
| EqualityGraphs.ZeroColumnsMembers | src/maths/comb_optimization/assignment_problem/assignment_problem.rs:302-316 | a row's list holds exactly the column nodes of its zero entries |
| EqualityGraphs.ZeroRowsMembers | src/maths/comb_optimization/assignment_problem/assignment_problem.rs:302-316 | a column's list holds exactly the row nodes of its zero entries |
| EqualityGraphs.EqualityNeighbours | src/maths/comb_optimization/assignment_problem/assignment_problem.rs:280-319 | row a is joined to column node n + j exactly when r[a][j] = 0, and column node n + j to row i exactly when r[i][j] = 0 |
| EqualityGraphs.EqualityGraphEdges | src/maths/comb_optimization/assignment_problem/assignment_problem.rs:280-319 | the graph has 2n nodes and is undirected; every edge joins a row to a column, and row i meets column node n + j exactly when r[i][j] = 0 |
| EqualityGraphs.VisitEntry | src/maths/comb_optimization/assignment_problem/assignment_problem.rs:303-313 | a zero entry appends each end of its edge to the other's list; a non-zero entry changes nothing |
| EqualityGraphs.GenerateEqualityGraph | src/maths/comb_optimization/assignment_problem/assignment_problem.rs:280-319 | the method builds `EqualityGraph` |
| EqualityGraphs.VisitColumnOf | src/maths/comb_optimization/assignment_problem/assignment_problem.rs:302-316 | visiting the entries of one column in storage order |
| EqualityGraphs.VisitPosition | src/maths/comb_optimization/assignment_problem/assignment_problem.rs:303-313 | one storage position is row k mod n, column k div n |
| CoverSplits.Down | src/maths/comb_optimization/assignment_problem/assignment_problem.rs:152 | subtracting `ncols` keeps the length |
| CoverSplits.DownMembers | src/maths/comb_optimization/assignment_problem/assignment_problem.rs:152 | j is listed exactly when column node n + j was |
| CoverSplits.Retain | src/maths/comb_optimization/assignment_problem/assignment_problem.rs:161 | `retain` never lengthens the list |
| CoverSplits.RetainMembers | src/maths/comb_optimization/assignment_problem/assignment_problem.rs:161-166 | after `retain` the members are those of the list other than the value removed |
| CoverSplits.SplitCoverRows | src/maths/comb_optimization/assignment_problem/assignment_problem.rs:150-169 | the row list ends as exactly the rows of `nodes_u` that are not in the cover |
| CoverSplits.SplitCoverColumns | src/maths/comb_optimization/assignment_problem/assignment_problem.rs:150-169 | the column list ends as exactly the columns of `nodes_v` that are not cover nodes outside `nodes_u` |
| CoverSplits.SplitCoverRed | src/maths/comb_optimization/assignment_problem/assignment_problem.rs:150-169 | the red list holds exactly the cover nodes outside `nodes_u`, as columns |
| CoverSplits.SplitCoverStep | src/maths/comb_optimization/assignment_problem/assignment_problem.rs:156-169 | a cover row leaves the row list; a cover column leaves the column list and joins the red list |
| CoverSplits.SplitCoverLoop | src/maths/comb_optimization/assignment_problem/assignment_problem.rs:150-169 | the loop over the cover computes `SplitCover` |
| CoverSplits.SplitColumnNode | src/maths/comb_optimization/assignment_problem/assignment_problem.rs:156-169 | one more cover node outside `nodes_u` leaves the row list as it was, removes its column from the column list and appends it to the red list |
| Epsilons.RowCandidates | src/maths/comb_optimization/assignment_problem/assignment_problem.rs:180-184 | one row contributes at most one entry per listed column |
| Epsilons.RowCandidatePushed | src/maths/comb_optimization/assignment_problem/assignment_problem.rs:180-184 | the entry of every listed column in range is pushed |
| Epsilons.RowCandidateSource | src/maths/comb_optimization/assignment_problem/assignment_problem.rs:180-184 | every pushed value is the entry of a listed column in range |
| Epsilons.CandidatePushed | src/maths/comb_optimization/assignment_problem/assignment_problem.rs:179-185 | the entry of every listed row and column is pushed |
| Epsilons.CandidateSource | src/maths/comb_optimization/assignment_problem/assignment_problem.rs:179-185 | every pushed value is the entry of a listed row and column |
| Epsilons.EpsilonExists | src/maths/comb_optimization/assignment_problem/assignment_problem.rs:188 | `min().unwrap()` fails exactly when the row list or the column list is empty |
| Epsilons.EpsilonIsMinimum | src/maths/comb_optimization/assignment_problem/assignment_problem.rs:178-188 | epsilon is at most every reduced cost at a listed row and column, and equals one of them |
| Epsilons.RowCandidatesStep | src/maths/comb_optimization/assignment_problem/assignment_problem.rs:181-183 | one more column appends its entry, or nothing past the storage |
| Epsilons.CandidatesStep | src/maths/comb_optimization/assignment_problem/assignment_problem.rs:179-185 | one more row appends that row's candidates |
| Epsilons.PushRowCandidates | src/maths/comb_optimization/assignment_problem/assignment_problem.rs:180-184 | the inner loop pushes `RowCandidates` |
| Epsilons.EpsilonLoop | src/maths/comb_optimization/assignment_problem/assignment_problem.rs:178-188 | the nested loops and `min` compute `Epsilon` |
| DualUpdates.AddAt | src/maths/comb_optimization/assignment_problem/assignment_problem.rs:199-203 | same length; listed entries gain epsilon, the others are unchanged |
| DualUpdates.SubtractAt | src/maths/comb_optimization/assignment_problem/assignment_problem.rs:205-209 | same length; listed entries lose epsilon, the others are unchanged |
| DualUpdates.AddAtLoop | src/maths/comb_optimization/assignment_problem/assignment_problem.rs:199-203 | the loop computes `AddAt` |
| DualUpdates.SubtractAtLoop | src/maths/comb_optimization/assignment_problem/assignment_problem.rs:205-209 | the loop computes `SubtractAt` |
| AssignmentProblem.EqualityMatching | src/maths/comb_optimization/assignment_problem/assignment_problem.rs:89-98 | the maximum matching of the equality graph is a valid matching between the two sides `bipartite_undirected` returns, and every matched edge is a zero entry |
| AssignmentProblem.LookupCostEntry | src/maths/comb_optimization/assignment_problem/assignment_problem.rs:112-116 | the storage index read for a matched edge is the original cost at its row and column |
| AssignmentProblem.MatchingCostLoop | src/maths/comb_optimization/assignment_problem/assignment_problem.rs:109-119 | the loop adds up the original costs of the matched edges |
| AssignmentProblem.SplitPreconditions | src/maths/comb_optimization/assignment_problem/assignment_problem.rs:150-169 | every `nodes_v` entry and every cover node outside `nodes_u` is at least `ncols`, so `index() - ncols` does not underflow, with either search |
| AssignmentProblem.SearchCoverFacts | src/maths/comb_optimization/assignment_problem/assignment_problem.rs:139-140 | with either search the returned matching is a valid matching of the equality graph no larger than the given one; the cover has no repeats, its size, exactly one end of each matched edge, and only matched nodes of the two sides |
| AssignmentProblem.Iteration | src/maths/comb_optimization/assignment_problem/assignment_problem.rs:59-222 | with either search, one pass never reports running out, and a state it saves has n-entry u and v |
| AssignmentProblem.Improve | src/maths/comb_optimization/assignment_problem/assignment_problem.rs:139-221 | with either search, the second half of a pass ends only when epsilon is missing; otherwise the saved vectors keep their lengths |
| AssignmentProblem.IterateOnce | src/maths/comb_optimization/assignment_problem/assignment_problem.rs:59-222 | the method runs one pass, with the given search, as `Iteration` specifies |
| AssignmentProblem.IterationPerfect | src/maths/comb_optimization/assignment_problem/assignment_problem.rs:105-131 | a perfect matching ends the loop with the matching's original cost and the sum of the pass's u and v |
| AssignmentProblem.IterationImproves | src/maths/comb_optimization/assignment_problem/assignment_problem.rs:133-139 | an imperfect matching implies n > 0 and a maximum matching, and the pass goes on to the cover and epsilon |
| AssignmentProblem.ImproveOnce | src/maths/comb_optimization/assignment_problem/assignment_problem.rs:139-221 | the method runs the second half, with the given search, as `Improve` specifies |
| AssignmentProblem.ImproveMoves | src/maths/comb_optimization/assignment_problem/assignment_problem.rs:188-221 | with either search, when epsilon exists, the saved state is u raised on the uncovered rows and v lowered on the covered columns, with the reduced costs and the equality graph |
| AssignmentProblem.RepeatKeeps | src/maths/comb_optimization/assignment_problem/assignment_problem.rs:58-224 | a property every pass preserves, and whose finishing passes meet a verdict, holds when the loop ends unless it ran out |
| AssignmentProblem.RepeatEnds | src/maths/comb_optimization/assignment_problem/assignment_problem.rs:58-224 | a bound that every continuing pass lowers makes the loop end with the verdict |
| AssignmentProblem.RunFinishes | src/maths/comb_optimization/assignment_problem/assignment_problem.rs:105-131 | a finishing pass ends the loop and saves nothing |
| AssignmentProblem.RunContinues | src/maths/comb_optimization/assignment_problem/assignment_problem.rs:213-223 | a continuing pass saves its state, and the loop goes on from that state's u and v |
| AssignmentProblem.RunSaves | src/maths/comb_optimization/assignment_problem/assignment_problem.rs:213-223 | the rest of the loop, after the state is saved, is the rest of the loop from its vectors |
| AssignmentProblem.RunStuck | src/maths/comb_optimization/assignment_problem/assignment_problem.rs:58-224 | a pass that saves the state it starts from, once reached, makes every further pass save it again: the loop runs out of any number of passes, saving that state each time |
| AssignmentProblem.ImproveByZero | src/maths/comb_optimization/assignment_problem/assignment_problem.rs:188-221 | an epsilon of 0 leaves u and v as they were, so the pass saves its own vectors again |
| AssignmentProblem.OptimalSolution.constructor | src/maths/comb_optimization/assignment_problem/assignment_problem.rs:44-46 | `new` starts with no saved state |
| AssignmentProblem.OptimalSolution.Init | src/maths/comb_optimization/assignment_problem/assignment_problem.rs:48-56 | `init` appends the given u, v and costs, with no graph and no matching |
| AssignmentProblem.OptimalSolution.SavePass | src/maths/comb_optimization/assignment_problem/assignment_problem.rs:59-222 | one pass from the last saved vectors, with the search as written; its state is appended exactly when the pass continues |
| AssignmentProblem.OptimalSolution.FindOptimumCost | src/maths/comb_optimization/assignment_problem/assignment_problem.rs:58-224 | with no saved state it fails (the `unwrap`) and changes nothing; otherwise it ends as the loop with the search as written from the first saved costs and last saved vectors does, and appends the states that loop saves |
| AssignmentProblem.OptimalSolution.Loop | src/maths/comb_optimization/assignment_problem/assignment_problem.rs:59-223 | the loop, with the search as written, ends with the loop's outcome and its saved states appended |
| AssignmentProblem.OptimalSolution.Pass | src/maths/comb_optimization/assignment_problem/assignment_problem.rs:59-222 | one turn of the loop, with the search as written, keeps the saved list on course for the loop's outcome |
| Duality.AssignmentDualSum | src/maths/comb_optimization/assignment_problem/assignment_problem.rs:120 | over an assignment, u_i + v_j summed along the edges is the sum of u plus the sum of v |
| Duality.WeakDuality | src/maths/comb_optimization/assignment_problem/assignment_problem.rs:28-29 | if u_i + v_j ≤ c_ij everywhere, the sum of u and v is at most the cost of any assignment |
| Duality.TightCost | src/maths/comb_optimization/assignment_problem/assignment_problem.rs:120 | if u_i + v_j = c_ij on every edge of an assignment, its cost is the sum of u and v |
| Duality.PerfectIsAssignment | src/maths/comb_optimization/assignment_problem/assignment_problem.rs:105-108 | a perfect maximum matching of the equality graph is an assignment of zero reduced costs |
| Duality.PerfectPass | src/maths/comb_optimization/assignment_problem/assignment_problem.rs:105-124 | a pass that ends with an optimum had a usable u, matched an assignment of zeros, and reports its cost and the pass's dual sum |
| Duality.IterationTight | src/maths/comb_optimization/assignment_problem/assignment_problem.rs:120-124 | when v is empty or n long, the cost a pass reports equals the sum of the u and v it reduced by |
| Duality.TightPass | src/maths/comb_optimization/assignment_problem/assignment_problem.rs:109-124 | an assignment of zero reduced costs costs exactly the pass's dual sum |
| Duality.IterationOptimal | src/maths/comb_optimization/assignment_problem/assignment_problem.rs:120 | with non-negative reduced costs, the reported cost is at most the cost of every assignment |
| Duality.BelowEveryAssignment | src/maths/comb_optimization/assignment_problem/assignment_problem.rs:28-29 | non-negative reduced costs make the pass's dual sum a lower bound on every assignment's cost |
| Duality.MovedBalanced | src/maths/comb_optimization/assignment_problem/assignment_problem.rs:188-209 | taking epsilon off the doubly uncovered entries and adding it to the doubly covered ones keeps the costs non-negative with a zero in every row and column, given a cover that leaves every covered row and every covered column a zero outside the cover, and epsilon at most every doubly uncovered entry |
| Duality.MovedRowZero | src/maths/comb_optimization/assignment_problem/assignment_problem.rs:199-209 | every row keeps a zero after the move |
| Duality.MovedColumnZero | src/maths/comb_optimization/assignment_problem/assignment_problem.rs:199-209 | every column keeps a zero after the move |
| Duality.HungarianCoverFacts | src/maths/comb_optimization/assignment_problem/assignment_problem.rs:139-140 | with either search the cover the driver receives has no repeats and the size of the search's matching, which is no larger than the given one; every edge of that matching joins a row to a column at a zero and has exactly one end in the cover, and every cover node is matched |
| Duality.MatchedCoverIsTight | src/maths/comb_optimization/assignment_problem/assignment_problem.rs:139-149 | a cover that holds one end of each matched zero, and only matched nodes, leaves every covered row a zero in an uncovered column and every covered column a zero in an uncovered row |
| Duality.HungarianCoverMeetsZeros | src/maths/comb_optimization/assignment_problem/assignment_problem.rs:139-140 | with the corrected search, every zero entry has its row or its column in the cover |
| Duality.HungarianZeroCover | src/maths/comb_optimization/assignment_problem/assignment_problem.rs:139-149 | with the corrected search, the cover covers the zeros through a matching no larger than the given maximum one |
| Duality.ZeroCoverIsKonig | src/maths/comb_optimization/assignment_problem/assignment_problem.rs:144-149 | every covered row has a zero in an uncovered column, and every covered column a zero in an uncovered row |
| Duality.CoveredRowFree | src/maths/comb_optimization/assignment_problem/assignment_problem.rs:144-149 | a covered row has a zero in an uncovered column |
| Duality.CoveredColumnFree | src/maths/comb_optimization/assignment_problem/assignment_problem.rs:144-149 | a covered column has a zero in an uncovered row |
| Duality.SmallCoverLeavesSome | src/maths/comb_optimization/assignment_problem/assignment_problem.rs:178-188 | fewer than n distinct cover nodes leave some row and some column uncovered |
| Duality.ImperfectIsSmall | src/maths/comb_optimization/assignment_problem/assignment_problem.rs:105-108 | an imperfect maximum matching of the equality graph has fewer than n edges |
| Duality.BalancedSides | src/maths/comb_optimization/assignment_problem/assignment_problem.rs:89 | with a zero in every row and column, `nodes_u` is every row and `nodes_v` every column |
| Duality.NodeHasEdge | src/maths/comb_optimization/assignment_problem/assignment_problem.rs:302-316 | then every node of the equality graph has a neighbour |
| Duality.BalancedSplit | src/maths/comb_optimization/assignment_problem/assignment_problem.rs:150-169 | from balanced costs and a maximum matching of the equality graph, with either search, the driver's row list is the uncovered rows, its column list the uncovered columns, and its red list the covered columns |
| Duality.SplitMembers | src/maths/comb_optimization/assignment_problem/assignment_problem.rs:150-169 | the same, for any cover whose nodes lie on the two sides |
| Duality.UncoveredMinimum | src/maths/comb_optimization/assignment_problem/assignment_problem.rs:178-188 | for non-negative costs and any cover that leaves a row and a column free, epsilon exists, is at least 0, is one of the doubly uncovered entries and is at most each of them (positivity is `Duality.BalancedEpsilon`'s, for the corrected search only) |
| Duality.BalancedEpsilon | src/maths/comb_optimization/assignment_problem/assignment_problem.rs:177-188 | on an imperfect pass from balanced costs, `min().unwrap()` succeeds with an epsilon that is never negative, positive with the corrected search, and below every doubly uncovered reduced cost |
| Duality.MovedDuals | src/maths/comb_optimization/assignment_problem/assignment_problem.rs:193-221 | the updated u and v reduce the original costs to the moved matrix |
| Duality.MovedEntry | src/maths/comb_optimization/assignment_problem/assignment_problem.rs:193-209 | the same, entry by entry |
| Duality.MovedVectorsAt | src/maths/comb_optimization/assignment_problem/assignment_problem.rs:199-209 | u_i gains epsilon exactly at uncovered rows, and v_j loses it exactly at covered columns |
| Duality.ReducedCostAt | src/maths/comb_optimization/assignment_problem/assignment_problem.rs:74-80 | a reduced cost is c_ij − u_i − v_j for the pass's vectors |
| Duality.SavedDualsKept | src/maths/comb_optimization/assignment_problem/assignment_problem.rs:193-197 | n-long saved vectors are what the next pass reads back, unchanged |
| Duality.IterationKeepsBalance | src/maths/comb_optimization/assignment_problem/assignment_problem.rs:59-221 | with either search, from balanced costs a pass either ends with an optimum or saves n-long vectors whose reduced costs are balanced again |
| Duality.ImproveKeepsBalance | src/maths/comb_optimization/assignment_problem/assignment_problem.rs:139-221 | with either search, the update after an imperfect matching continues and keeps the reduced costs balanced |
| Duality.PassVerdict | src/maths/comb_optimization/assignment_problem/assignment_problem.rs:59-222 | with either search, from balanced costs, a pass ends with an optimum equal to its dual sum and below every assignment, or continues with balanced costs |
| Duality.RunOptimal | src/maths/comb_optimization/assignment_problem/assignment_problem.rs:58-224 | with either search, from balanced costs, the loop ends with an optimum (cost equals the sum of u and v, and no assignment costs less) or runs out of passes |
| Duality.RunFromMinima | src/maths/comb_optimization/assignment_problem/assignment_problem.rs:58-80 | the same from empty u and v, the start from the row and column minima, with either search |
| Progress.SumAddAt | src/maths/comb_optimization/assignment_problem/assignment_problem.rs:199-203 | raising the listed entries by d raises the sum by d for each listed index |
| Progress.SumSubtractAt | src/maths/comb_optimization/assignment_problem/assignment_problem.rs:205-209 | lowering the listed entries by d lowers the sum by d for each listed index |
| Progress.CoverCount | src/maths/comb_optimization/assignment_problem/assignment_problem.rs:150-169 | a cover with no repeats has at least as many nodes as covered rows plus covered columns |
| Progress.SplitCounts | src/maths/comb_optimization/assignment_problem/assignment_problem.rs:150-169 | the row list has n minus the covered rows, and the red list the covered columns |
| Progress.ImproveRaises | src/maths/comb_optimization/assignment_problem/assignment_problem.rs:188-209 | the update after an imperfect matching never lowers the sum of u and v, and with the corrected search strictly raises it |
| Progress.PassRaises | src/maths/comb_optimization/assignment_problem/assignment_problem.rs:59-221 | every pass from balanced costs that continues saves vectors summing to no less than the pass's u and v, and to more with the corrected search |
| Progress.PassStep | src/maths/comb_optimization/assignment_problem/assignment_problem.rs:59-221 | a pass ends with an optimum, or keeps the costs balanced with a dual sum no lower, and higher with the corrected search |
| Progress.RunEnds | src/maths/comb_optimization/assignment_problem/assignment_problem.rs:58-224 | with the corrected search and more passes allowed than the gap between some assignment's cost and the dual sum, the loop ends with an optimum |
| Progress.RunEndsFromMinima | src/maths/comb_optimization/assignment_problem/assignment_problem.rs:58-224 | with the corrected search, from empty u and v, more passes than the diagonal's cost less the dual sum of the minima always end the loop with an optimum |
| Progress.GapStep | src/maths/comb_optimization/assignment_problem/assignment_problem.rs:59-221 | with the corrected search, a pass with more passes left than the gap ends with an optimum or leaves balanced vectors with a gap below the passes then left |
| Progress.FreshNext | src/maths/comb_optimization/assignment_problem/assignment_problem.rs:59-221 | with the corrected search, a pass from vectors ahead of the gap ends with an optimum or leaves vectors still ahead with one pass less |
| Progress.DiagonalIsAssignment | src/maths/comb_optimization/assignment_problem/assignment_problem.rs:28-29 | every square cost matrix has an assignment, the diagonal, so the gap is always defined |
| PrintedSums.FirstPassDuals | src/maths/comb_optimization/assignment_problem/assignment_problem.rs:74-80 | on the costs [[5]] from the minima, the pass reduces by u = [5] and v = [0], leaving [[0]] |
| PrintedSums.OnlyEdgeMatched | src/maths/comb_optimization/assignment_problem/assignment_problem.rs:92-108 | a maximum matching of two joined nodes is that one edge, and it is perfect |
| PrintedSums.PrintedSumMisses | src/maths/comb_optimization/assignment_problem/assignment_problem.rs:120-124 | on [[5]] from the minima the loop finds the optimum 5 with dual sum 5, while the printed `uv_sum` is 0 |
| PrintedSums.PrintedOnFirstPass | src/maths/comb_optimization/assignment_problem/assignment_problem.rs:44-124 | `new`, `init` with empty u and v and costs [[5]], then `find_optimum_cost`: the outcome is the optimum 5, while the `uv_sum` read from the last saved state is 0 |
| StalledLoop.StallMatchingMaximum | src/maths/comb_optimization/assignment_problem/assignment_problem.rs:89-98 | the matching {(0,5), (1,6), (4,9)} is a maximum matching of the equality graph of the stall costs, and not perfect |
| StalledLoop.StallVertexCover | src/maths/comb_optimization/assignment_problem/assignment_problem.rs:89-98 | the nodes 4, 5, 6 cover every zero, so no matching has more than three edges |
| StalledLoop.StallPass | src/maths/comb_optimization/hungarian.rs:113-434 | the sweep from that matching stops without augmenting: rows 0 and 1 are matched and the trees of rows 2 and 3 find no path |
| StalledLoop.StallSearch | src/maths/comb_optimization/hungarian.rs:87-435 | the whole search as written keeps the matching and ends with rows 0, 2, 3 blue and column 0 red |
| StalledLoop.StallResult | src/maths/comb_optimization/hungarian.rs:20-451 | the search as written returns the cover [1, 4, 5] and the given matching; the zero at row 2, column 1 has no end in that cover |
| StalledLoop.StallHungarianRun | src/maths/comb_optimization/assignment_problem/assignment_problem.rs:139 | the driver's call of the search on the equality graph returns that cover and matching |
| StalledLoop.ZeroMinima | src/maths/comb_optimization/assignment_problem/assignment_problem.rs:237-278 | non-negative costs with a zero in every row and every column have zero row and column minima, so the first pass leaves the costs as they are |
| StalledLoop.ZeroDualsKept | src/maths/comb_optimization/assignment_problem/assignment_problem.rs:193-197 | saved zero vectors are read back unchanged and reduce nothing |
| StalledLoop.StallSplit | src/maths/comb_optimization/assignment_problem/assignment_problem.rs:150-169 | the driver splits [1, 4, 5] into uncovered rows [0, 2, 3], uncovered columns [1, 2, 3, 4] and red column [0] |
| StalledLoop.StallEpsilon | src/maths/comb_optimization/assignment_problem/assignment_problem.rs:178-188 | epsilon over those rows and columns is 0, the cost at row 2, column 1 |
| StalledLoop.StallImprove | src/maths/comb_optimization/assignment_problem/assignment_problem.rs:188-221 | moving the zero vectors by that epsilon saves the zero vectors again |
| StalledLoop.StallPassRepeats | src/maths/comb_optimization/assignment_problem/assignment_problem.rs:59-221 | the pass from the empty vectors and the pass from the zero vectors both save the same state |
| StalledLoop.StallRunFromMinima | src/maths/comb_optimization/assignment_problem/assignment_problem.rs:58-224 | from empty u and v, every number of passes runs out, each pass saving that same state |
| StalledLoop.StalledFindOptimumCost | src/maths/comb_optimization/assignment_problem/assignment_problem.rs:44-224 | `new`, `init(vec![], vec![], c)` and `find_optimum_cost` on the stall costs: whatever the number of passes allowed, the loop runs out of them, and every state it saves holds the zero vectors |

## Left out

- JSON serialisation of `states` and all printing (`println!`, the returned `String`): `FindOptimumCost` returns the outcome as a value instead. Its `Optimal` cost and dual sum are the pass's own; the sum the source prints is `PrintedSums.PrintedDualSum` of the last saved state (see "## Findings").
- The descriptive step maps of `hungarian_maximum_matching` (the `serde_json` maps, all commented out or write-only) do not affect the result.
- Node labels. The equality graph labels row i and column i both `s{i+1}`. The search reconstructs its augmenting path from a petgraph tree of labels (the `Dfs` search and the label lookups). The model keeps the tree as the chain of node ids from the root, which is what that reconstruction yields when labels are distinct. Repeated labels make the lookups ambiguous, and the model does not capture that.
- `maximum_matching` of petgraph is foreign code. It is the parameter `matcher`, assumed to return a maximum matching with edges written (smaller id, larger id).
- petgraph lists neighbours most recent first. The model keeps insertion order. `Bipartite.SplitGraphSides` shows the split of an equality graph does not depend on that order.
- i32 overflow and wrap-around: costs, u and v are unbounded integers.
- Non-square cost matrices: the model keeps every cost matrix n×n.
- `AssignmentProblem.OptimalSolution.FindOptimumCost`: the source loops until it finds a perfect matching. The model takes a bound `fuel` on the number of passes and reports `OutOfFuel` past it. With the corrected search `Progress.RunEndsFromMinima` gives a bound that is always enough; with the search as written no bound is enough on the costs of `StalledLoop`.
- `Hungarian.HungarianMaximumMatching` requires a non-empty graph. On a graph with no nodes the source loops for ever, because no node id reaches the `break`.
- Panics are outcomes: `Uninitialised` (no saved state), `ShortDual` (a u shorter than the rows, which `from_row_slice` rejects), `NoEpsilon` (`min().unwrap()` with no candidate).
- `Hungarian.HungarianCoverSize`: states |cover| = |matching| but not that the cover is a vertex cover, because as written it need not be (`HungarianFixtures.SixNodeCounterexample`).
- `Bipartite.IsBipartiteSound`: proves only that `true` means two-colourable, on graphs without self-loops. The converse fails (`Bipartite.PathIsRejected`), and a self-loop is accepted (`Bipartite.SelfLoopIsAccepted`). No corrected check is modelled, and nothing in the driver calls it.
- `Duality.RunOptimal`: stated for v empty or n long. A v of another length is cycled across the rows (`DualMatrices.GenerateVMatrix`), the reduced costs are then not c_ij − u_i − v_j, and no optimality is claimed for that start.
- `Progress.RunEnds`: stated for the corrected search only. With the search as written the loop can run for ever (`StalledLoop.StallRunFromMinima`), so no bound holds for it.
- `Progress.RunEndsFromMinima`: stated for the corrected search only, for the same reason.
- `Progress.GapStep`: stated for the corrected search only; with the search as written epsilon can be 0 and the gap need not shrink.
- `Progress.FreshNext`: stated for the corrected search only, for the same reason as `Progress.GapStep`.
- `Progress.ImproveRaises`: the strict rise of the dual sum is stated for the corrected search only; with the search as written the sum can stay put (`StalledLoop.StallImprove`).
- `Progress.PassRaises`: the strict rise is stated for the corrected search only, as for `Progress.ImproveRaises`.
- `Progress.PassStep`: the strict rise is stated for the corrected search only, as for `Progress.ImproveRaises`.
- `Duality.BalancedEpsilon`: epsilon is proved positive for the corrected search only; with the search as written it can be 0 (`StalledLoop.StallEpsilon`).
- `Duality.HungarianCoverMeetsZeros`: stated for the corrected search only; the cover of the search as written can leave a zero uncovered (`StalledLoop.StallResult`).
- `Duality.HungarianZeroCover`: stated for the corrected search only, for the same reason.

## Findings

| source | as written | input that shows it | evidently intended | confidence | as-written member | corrected member |
|---|---|---|---|---|---|---|
| src/maths/comb_optimization/hungarian.rs:372-410 | after colouring the first uncoloured, matched neighbour w of s red and its partner blue, `continue 'tree_building` abandons the rest of s's neighbours, and s is never queued again (`scanned` marks the root, not s) | U = {0, 1, 2}, V = {3, 4, 5}, edges 0-3, 0-4, 1-3, 2-4, 2-5, matching {(1, 3), (2, 4)}: the search returns cover [2, 3], which misses edge 0-4, and keeps the two-edge matching although {(0, 4), (1, 3), (2, 5)} has three | scan every neighbour of each blue vertex, so the returned cover is a vertex cover and the matching is maximum (the theorem cited at lines 32-33) | high; not executed | HungarianFixtures.SixNodeCounterexample | HungarianFixed.FixedHungarianIsMaximum |
| src/maths/comb_optimization/assignment_problem/assignment_problem.rs:120-124 | `uv_sum` adds up the last saved u and v, not the u and v the pass reduced the costs by; on the first pass these are the vectors given to `init` | costs [[5]] with `init` given empty u and v: the pass reduces by u = [5], v = [0], finds the perfect matching of cost 5, and prints `uv_sum` 0 | print the sum of the pass's own u and v (column 0 of U, row 0 of V), which equals the cost at the optimum | high; not executed | PrintedSums.PrintedOnFirstPass | Duality.IterationTight |
| src/maths/comb_optimization/assignment_problem/assignment_problem.rs:139-188 | the driver takes the cover of `hungarian_maximum_matching` as a minimum vertex cover of the zeros; as written the search can return a cover that misses a zero, and epsilon, the least cost the cover leaves, is then 0 | costs [[0,1,1,1,1],[1,0,1,1,1],[0,0,1,1,1],[0,1,1,1,1],[1,1,0,0,0]], `init` given empty u and v, and a maximum matching routine that returns {(0,5), (1,6), (4,9)} (the stall depends on which maximum matching the routine returns): the cover is [1, 4, 5], the zero at row 2, column 1 is uncovered, epsilon is 0, every pass saves the zero vectors again, and `find_optimum_cost` never returns | a cover that meets every zero, from a search that scans every neighbour, so that epsilon is positive and the dual sum rises each pass | high; not executed | StalledLoop.StalledFindOptimumCost | Progress.RunEndsFromMinima |
