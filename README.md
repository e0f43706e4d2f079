# MetroSolver solving engine in Dafny

This project models the solving engine of `MetroSolver`, a metro-network tool whose
graph is a set of stations joined by undirected edges. The engine answers two questions
about that graph. The first is the longest simple path, solved by exhaustive
backtracking, by branch and bound, by a greedy walk and by a two-sweep depth-first
heuristic. The second is a minimum dominating set, solved by exhaustive enumeration
of combinations, by branch and bound and by a greedy cover.

The graph is an adjacency sequence `adj: seq<seq<nat>>`:

- Vertices are `0 .. |adj|-1`, numbered in the order of their names (`sorted(graph.nodes())`).
  So in the two name-ordered routines `nodes_sorted[j] == j` and `index_map[u] == u`.
- `adj[v]` lists the neighbours of `v` in the order the graph reports them.
- `ValidGraph` requires:
  - neighbours are vertices;
  - there are no self-loops;
  - adjacency is symmetric;
  - no neighbour is listed twice.
- The stable degree-descending order and the `graph.nodes()` order are parameters, constrained only to be permutations of the vertices (`IsOrder`). Every result is proved for every such order.

The source updates state in place, and the model keeps that form:

- The two exact path searches are classes.
  - Their fields are the visited set, the path stack and the incumbent.
  - `explore_path` and `dfs_branch` are mutually recursive methods, paired with a method for the neighbour loop.
  - The brute-force search's `StopIteration` is a `stopped` flag, which makes every frame return at once.
- `dfs_dom` is a method of a class that holds the incumbent `best_size`/`best_set`. It passes fresh sets down its recursion, as the source does.
- `find_farthest_path` is a class holding:
  - `explored`;
  - the `parent_map` and `distance_map` dictionaries, as Dafny maps;
  - the insertion order of the distance keys, which is the order Python's `max` scans them.
- The greedy routines are `while` loops, each proved equal to a specification function (`GreedyWalk`, `GreedyDom`). The properties are then proved about those functions.

Module layout:

- `Graphs` and `Wrappers`: the graph and shared sequence and set facts.
- `Paths`: simple paths and the facts the exact path searches share.
- `Domination` and `Combinatorics`: dominating sets and `itertools.combinations`.
- One module per solver.

## Model

| member | source | states |
|---|---|---|
| Graphs.Outside | TrabalhoPAA/Main.py:202 | The filtered list keeps exactly the neighbours outside the visited set and is no longer than the neighbour list |
| Graphs.OutsideKeepsOrder | TrabalhoPAA/Main.py:202 | The filtered list is a subsequence of the neighbour list: the comprehension keeps the order |
| Graphs.CountOutsideIsLength | TrabalhoPAA/Main.py:390-393 | The counting loop counts exactly the elements the filter keeps, no more than the list has |
| Graphs.FreeDegreeCounts | TrabalhoPAA/Main.py:337 | `sum(1 for w in adjacency[u] if w not in visited_local)` is the length of the neighbour list filtered by the visited set, at most the degree |
| Graphs.FreeNeighbours | TrabalhoPAA/Main.py:330 | The candidates are exactly the neighbours of the current vertex that are not yet visited, each a vertex of the graph |
| Graphs.FirstMaxFree | TrabalhoPAA/Main.py:334-340 | The chosen index has the greatest free-neighbour count among the candidates and every earlier candidate has a strictly smaller one |
| Graphs.FirstMaxFreeUnique | TrabalhoPAA/Main.py:336-340 | Only one index is the first maximum, so the scan's choice is determined |
| Graphs.FirstMax | TrabalhoPAA/Main.py:431 | The index of a greatest score, with every earlier score strictly smaller (the key Python's `max` returns first) |
| Graphs.OrderCovers | TrabalhoPAA/Main.py:89 | A reordering of the vertices contains every vertex, so every start vertex is tried |
| Graphs.SubsetCard | TrabalhoPAA/Main.py:104 | A set of vertices has at most N elements, so `N - len(visited)` is never negative |
| Paths.SimplePathLength | TrabalhoPAA/Main.py:115 | No simple path has more vertices than the graph |
| Paths.OptimisticLengthIsVertexCount | TrabalhoPAA/Main.py:101-105 | While the visited set is the set of path vertices, `len(path) == len(visited)` and the optimistic length `len(path) + (N - len(visited))` equals N |
| Paths.OptimisticLengthAdmissible | TrabalhoPAA/Main.py:104-105 | Every simple path that extends the current path is no longer than the optimistic length |
| Paths.PruneIsSound | TrabalhoPAA/Main.py:105-108 | When the optimistic length does not beat the incumbent, no extension of the current path beats it |
| Paths.ExtendPath | TrabalhoPAA/Main.py:110-112 | Appending an unvisited neighbour of the last vertex keeps the path simple |
| Paths.NextVertex | TrabalhoPAA/Main.py:110-112 | A longer simple path through the current one continues through an unvisited neighbour of its last vertex |
| Paths.MaximalHasNoExtension | TrabalhoPAA/Main.py:203-206 | A path whose last vertex has no free neighbour extends only to itself |
| Paths.ExtensionsThroughNeighbours | TrabalhoPAA/Main.py:110-116 | If every extension through a free neighbour fits a bound and the path itself fits it, every extension of the path fits it |
| Paths.EveryStartBounded | TrabalhoPAA/Main.py:122-132 | When the extensions of every one-vertex start of the order fit a bound, every non-empty simple path of the graph fits it |
| BruteForcePath.Search.constructor | TrabalhoPAA/Main.py:90 | The incumbent starts empty and the search is not stopped |
| BruteForcePath.Search.Explore | TrabalhoPAA/Main.py:99-120 | Unless the search stopped, visited set and path are restored and no simple path through the extended path is longer than the incumbent; the incumbent stays simple, never shrinks, and stops the search exactly when it covers N vertices |
| BruteForcePath.Search.ExploreNeighbours | TrabalhoPAA/Main.py:110-112 | Unless the search stopped, every extension through each unvisited neighbour is bounded by the incumbent and the state is restored |
| BruteForcePath.Search.Record | TrabalhoPAA/Main.py:113-116 | The incumbent becomes the current path exactly when that is longer, the search stops exactly when the new incumbent covers all N vertices, and afterwards the current path is no longer than the incumbent |
| BruteForcePath.Search.Leave | TrabalhoPAA/Main.py:113-120 | After the incumbent update, unless the search stopped, the vertex is removed from the visited set and popped from the path, and every extension of the path it was pushed onto is bounded by the incumbent |
| BruteForcePath.PruneNeverFires | TrabalhoPAA/Main.py:104-108 | While the search runs, the optimistic length of the current path is greater than the incumbent's length, so the prune is never taken |
| BruteForcePath.BruteForceLongestPath | TrabalhoPAA/Main.py:88-137 | Fails exactly on an empty graph (the closing report divides by `N_start`); otherwise the result is a non-empty simple path that no simple path of the graph is longer than |
| Domination.Cover | TrabalhoPAA/Main.py:161-163 | A vertex is covered exactly when it lies in the closed neighbourhood of some chosen vertex |
| Domination.Closed | TrabalhoPAA/Main.py:141 | `neighborhood_closure[v]` holds exactly `v` and its neighbours |
| Domination.CoverAdd | TrabalhoPAA/Main.py:163 | Adding a vertex adds exactly its closed neighbourhood to the covered set |
| Domination.CoverSingleton | TrabalhoPAA/Main.py:290-291 | The covered set of one vertex is its closed neighbourhood, `v` and its neighbours |
| Domination.CoverUnion | TrabalhoPAA/Main.py:161-163 | The cover of a union is the union of the covers |
| Domination.DominatesMono | TrabalhoPAA/Main.py:164-167 | A superset of a dominating set dominates, so a prefix that covers everything makes the whole candidate dominating |
| Domination.DominatesIffFull | TrabalhoPAA/Main.py:164 | A set dominates exactly when its covered set has N vertices (both directions) |
| Domination.AllVerticesDominate | TrabalhoPAA/Main.py:245-246 | The initial incumbent `set(nodes_sorted)` dominates the graph |
| Domination.ClosedCard | TrabalhoPAA/Main.py:244 | A closed neighbourhood has degree plus one vertices |
| Domination.TimesIsProduct | TrabalhoPAA/Main.py:172 | Repeated addition is the product `count * max_coverage` used by the bound |
| Domination.TimesMono | TrabalhoPAA/Main.py:172 | The product grows with the count |
| Domination.CoverCardBound | TrabalhoPAA/Main.py:171-172 | Vertices whose closed neighbourhoods have at most `mc` vertices each cover at most `count * mc` vertices |
| Combinatorics.BinomialEdges | TrabalhoPAA/Main.py:147 | `math.comb(n, k)`, written by Pascal's rule, is 0 for more elements than there are and 1 for all of them |
| Combinatorics.CombinationsFrom | TrabalhoPAA/Main.py:153 | The combinations from position `lo` on number `math.comb(len(s) - lo, k)` |
| Combinatorics.Combinations | TrabalhoPAA/Main.py:146-153 | `itertools.combinations(node_list, size)` yields exactly `math.comb(N, size)` candidates, the count `total_combinations` adds up |
| Combinatorics.TakeFirst | TrabalhoPAA/Main.py:153 | In `itertools.combinations` order, the combinations from position `lo` that take `s[lo]` come first, in the order of the combinations of the rest |
| Combinatorics.SkipFirst | TrabalhoPAA/Main.py:153 | The combinations that skip `s[lo]` follow them, in their own order |
| Combinatorics.PrependIndex | TrabalhoPAA/Main.py:153 | Prefixing keeps the number and order of combinations and puts the element in front of each |
| Combinatorics.CombinationsSound | TrabalhoPAA/Main.py:153 | Every k-combination has k elements, all from the list, none repeated when the list has none |
| Combinatorics.CombinationsComplete | TrabalhoPAA/Main.py:153 | Every k-element set of list elements is the element set of some k-combination |
| BruteForceDominating.MaxClosedFrom | TrabalhoPAA/Main.py:169-171 | The largest closed-neighbourhood size among the remaining vertices: an upper bound on each and attained by one |
| BruteForceDominating.PrefixStep | TrabalhoPAA/Main.py:162-164 | After each union with a closed neighbourhood the covered set is the cover of the prefix, full exactly when the prefix dominates |
| BruteForceDominating.AbandonIsSound | TrabalhoPAA/Main.py:169-173 | When the coverage bound falls short of N the whole candidate does not dominate, so the break never abandons a dominating subset |
| BruteForceDominating.CoverSplitCard | TrabalhoPAA/Main.py:161-163 | The vertices covered by a whole candidate number at most those covered by its taken part plus those covered by its remaining part |
| BruteForceDominating.RestCoverBound | TrabalhoPAA/Main.py:171-172 | The remaining vertices, each covering at most `max_cov` vertices, cover at most `len(remaining_vertices) * max_cov` together |
| BruteForceDominating.BreakIsSound | TrabalhoPAA/Main.py:169-173 | When the break test holds at position `idx`, the candidate does not dominate |
| BruteForceDominating.ProductBound | TrabalhoPAA/Main.py:172 | The break test written with `*` is the same test written with repeated addition |
| BruteForceDominating.CannotComplete | TrabalhoPAA/Main.py:169-173 | The break is taken exactly when vertices remain and the bound falls short of N, and then the candidate does not dominate |
| BruteForceDominating.TestCandidate | TrabalhoPAA/Main.py:161-173 | A candidate is returned exactly when it is non-empty and dominates |
| BruteForceDominating.SearchSizes | TrabalhoPAA/Main.py:148-176 | For sizes that are not negative, a result is a distinct, dominating list sized within `[min_size, min(max_size, N)]`, the first dominating combination of its size, with no smaller dominating set in the window; `None` exactly when no non-empty set in the window dominates |
| BruteForceDominating.BruteForceDominatingSet | TrabalhoPAA/Main.py:139-147 | With the default sizes 17 and 21, fails exactly when `min_size` is negative and the size range is not empty (`math.comb` raises `ValueError`); otherwise `None` exactly when no non-empty set sized in the window dominates, and a result is a distinct dominating list sized in the window, the first dominating combination of its size in `itertools.combinations` order, with no smaller dominating set in it |
| BranchBoundPath.Search.constructor | TrabalhoPAA/Main.py:183-192 | Empty visited set and stack, `best_len == 0` and an empty incumbent |
| BranchBoundPath.Search.DfsBranch | TrabalhoPAA/Main.py:196-214 | Leaves the shared `visited` and `path_stack` as it found them, never lowers `best_len`, keeps `best_len == len(best_path)` with `best_path` simple and ending at a vertex without free neighbour, and bounds every simple path through the extended stack by `best_len` |
| BranchBoundPath.Search.BranchOver | TrabalhoPAA/Main.py:210-211 | After the loop every simple path through each free neighbour is bounded by `best_len`, with the shared state restored |
| BranchBoundPath.LeafIsMaximal | TrabalhoPAA/Main.py:202-206 | At a vertex with no free neighbour the stack is maximal and no simple path through it is longer |
| BranchBoundPath.FreeNeighboursBound | TrabalhoPAA/Main.py:207-211 | Bounds on the paths through each free neighbour bound every path through the current stack |
| BranchBoundPath.BoundFailsOnlyAtN | TrabalhoPAA/Main.py:208-209 | The bound `len(path_stack) + remaining > best_len` holds exactly when `best_len < N`, so it cuts a branch only once a path through all N vertices is recorded |
| BranchBoundPath.BranchBoundLongestPath | TrabalhoPAA/Main.py:182-237 | Fails exactly on an empty graph (the closing report divides by `N_start`); otherwise `best_len == len(best_path)` and the path is non-empty, simple, maximal and no simple path is longer |
| BranchBoundDominating.MaxDegree | TrabalhoPAA/Main.py:244 | The largest degree: no vertex has more neighbours and some vertex has that many |
| BranchBoundDominating.Above | TrabalhoPAA/Main.py:273 | The filtered neighbour list keeps exactly the neighbours with index above the start |
| BranchBoundDominating.BranchCandidates | TrabalhoPAA/Main.py:273 | The candidate list starts with the target and holds exactly the target and its neighbours with index above `start_i`, all vertices |
| BranchBoundDominating.DomBoundIsSound | TrabalhoPAA/Main.py:261-264 | Every dominating superset of `current_set` has at least `len(current_set) + ceil(remaining / max_cover)` vertices |
| BranchBoundDominating.RestBound | TrabalhoPAA/Main.py:261-262 | The added vertices, at most `max_cover` covered each, must cover the `remaining_undom` vertices |
| BranchBoundDominating.RestCovers | TrabalhoPAA/Main.py:261 | The vertices of a dominating superset outside `current_set` cover at least the undominated ones |
| BranchBoundDominating.CeilDivIsQuotient | TrabalhoPAA/Main.py:262 | The rounded-up quotient equals the source's `(remaining + max_cover - 1) // max_cover` |
| BranchBoundDominating.CeilDiv | TrabalhoPAA/Main.py:262 | The rounded-up quotient: 0 when nothing remains, otherwise the least count whose `count * max_cover` reaches the remaining vertices |
| BranchBoundDominating.CeilBound | TrabalhoPAA/Main.py:262-263 | Covering r vertices at most `mc` at a time needs at least `ceil(r / mc)` vertices |
| BranchBoundDominating.FindTarget | TrabalhoPAA/Main.py:265-272 | `None` exactly when every index from `next_idx` is dominated; otherwise the first undominated index from `next_idx` |
| BranchBoundDominating.SizeOneDominator | TrabalhoPAA/Main.py:283-284 | A dominating set of at most one vertex in a non-empty graph is a single dominating vertex |
| BranchBoundDominating.SizeOneIffAlone | TrabalhoPAA/Main.py:282-292 | Once every start has been tried or `best_size == 1`, the size lies in `1..N` and is one exactly when some single vertex dominates the graph |
| BranchBoundDominating.DomSearch.constructor | TrabalhoPAA/Main.py:244-246 | `max_cover` is the maximum degree plus one, and the incumbent is the whole vertex set with `best_size == N` |
| BranchBoundDominating.DomSearch.DfsDom | TrabalhoPAA/Main.py:253-278 | Keeps the incumbent a dominating set with `best_size == len(best_set)`, never increases `best_size`, and records any dominating `current_set` smaller than the incumbent; called with `dominated_set` equal to the cover of `current_set`; each call is one vertex deeper, so recursion ends within N levels |
| BranchBoundDominating.DomSearch.TryCandidates | TrabalhoPAA/Main.py:274-278 | Each recursive call receives the cover of the enlarged set, and the incumbent stays valid and never grows |
| BranchBoundDominating.DomSearch.Improve | TrabalhoPAA/Main.py:256-260 | A dominating `current_set` replaces the incumbent exactly when it is smaller; afterwards the incumbent is no larger than it and still valid |
| BranchBoundDominating.DomSearch.StartFrom | TrabalhoPAA/Main.py:290-292 | One start keeps the incumbent valid, never raises `best_size`, and reaches size one when the start vertex alone dominates |
| BranchBoundDominating.DomSearch.TryStarts | TrabalhoPAA/Main.py:282-292 | The start loop keeps the incumbent valid and never raises `best_size`; it ends with size one, or with size at most one for every vertex that dominates alone |
| BranchBoundDominating.BranchBoundDominatingSet | TrabalhoPAA/Main.py:239-300 | Fails exactly on an empty graph (the `max` over no vertices); otherwise a dominating set with `best_size == len(best_set)` in `1..N`, of size one exactly when a single vertex dominates |
| GreedyPath.Candidates | TrabalhoPAA/Main.py:330 | Every candidate is an off-path neighbour of the current vertex |
| GreedyPath.GreedyExtend | TrabalhoPAA/Main.py:329-344 | The continued walk is a simple path that starts with the given one |
| GreedyPath.GreedyExtendMaximal | TrabalhoPAA/Main.py:330-332 | The walk stops only at a vertex with no free neighbour |
| GreedyPath.GreedyExtendSteps | TrabalhoPAA/Main.py:334-344 | Every vertex the walk adds is the greedy choice after the vertices before it |
| GreedyPath.GreedyWalk | TrabalhoPAA/Main.py:325-345 | `path_local` from `v` is a simple path from `v` of at most N vertices (so at most N-1 steps) ending at a vertex with no free neighbour |
| GreedyPath.GreedyWalkIsGreedy | TrabalhoPAA/Main.py:334-343 | Each step of the walk from `v` is the greedy choice |
| GreedyPath.GreedyExtendIsUnique | TrabalhoPAA/Main.py:329-344 | Any maximal simple path that takes the greedy choice at every step is the greedy walk |
| GreedyPath.ChooseNext | TrabalhoPAA/Main.py:334-340 | The scan returns the first candidate with the most unvisited neighbours |
| GreedyPath.WalkFrom | TrabalhoPAA/Main.py:325-345 | The inner loop builds exactly the greedy walk from the start |
| GreedyPath.GreedyLongestPath | TrabalhoPAA/Main.py:302-357 | Fails exactly on an empty graph (the closing report divides by `N_start`); otherwise `best_len == len(best_path)` and the result is a simple maximal path, the longest per-start walk over the order with the earliest start winning ties |
| GreedyDominating.PickBelow | TrabalhoPAA/Main.py:386-396 | `None` exactly when every vertex below n is dominated; otherwise the greedy pick among them |
| GreedyDominating.SomeUndominated | TrabalhoPAA/Main.py:384-389 | While fewer than N vertices are dominated the scan finds a candidate |
| GreedyDominating.GreedyPick | TrabalhoPAA/Main.py:386-396 | The pick is undominated, has the most undominated neighbours, and every undominated vertex before it has fewer |
| GreedyDominating.GreedyDomFrom | TrabalhoPAA/Main.py:384-399 | Growing a set greedily gives a dominating superset of it |
| GreedyDominating.GreedyStepGrows | TrabalhoPAA/Main.py:397-398 | Adding the picked undominated vertex keeps the set inside the graph and strictly grows the dominated set, so the loop ends |
| GreedyDominating.GreedyDom | TrabalhoPAA/Main.py:382-399 | `current_set` of start `v` contains `v` and dominates the graph, with at most N vertices |
| GreedyDominating.GreedyDomFromSize | TrabalhoPAA/Main.py:384-399 | The loop adds at most `N - len(dominated)` vertices, since each pick dominates at least one more vertex |
| GreedyDominating.GreedyDomSize | TrabalhoPAA/Main.py:382-399 | The set built from `v` has at most `N - degree(v)` vertices |
| GreedyDominating.CountUndominated | TrabalhoPAA/Main.py:390-393 | `cover` is the number of neighbours of `u` not yet dominated |
| GreedyDominating.PickUndominated | TrabalhoPAA/Main.py:386-396 | The scan over `nodes_sorted` returns the greedy pick |
| GreedyDominating.GreedyDomStart | TrabalhoPAA/Main.py:382-399 | The `while len(dominated) < N` loop builds exactly the greedy set of the start |
| GreedyDominating.KeptInit | TrabalhoPAA/Main.py:367-368 | The initial incumbent `set(nodes_sorted)` with `best_size == N` is a dominating set |
| GreedyDominating.KeptSetStep | TrabalhoPAA/Main.py:401-403 | Whether or not start `v` replaces it, the incumbent stays a dominating set of at most N vertices built by a start or the whole vertex set |
| GreedyDominating.KeptMinStep | TrabalhoPAA/Main.py:401-403 | The strict test keeps the incumbent size the least size seen, with every earlier start strictly larger |
| GreedyDominating.KeptEnd | TrabalhoPAA/Main.py:375-403 | After all starts the incumbent is the set of the earliest start of least size |
| GreedyDominating.FirstStartIsWhole | TrabalhoPAA/Main.py:367-368 | When no start beats N vertices, the first start builds the whole vertex set, which is the kept initial incumbent |
| GreedyDominating.GreedyDominatingSet | TrabalhoPAA/Main.py:359-411 | Fails exactly on an empty graph (the closing report divides by `N_start`); otherwise `best_size == len(best_set) <= N` and the result dominates and is the smallest per-start set, the earliest start in name order winning ties |
| TwoSweep.SettledContainsWalk | TrabalhoPAA/Main.py:419-425 | A set that holds the start of an unblocked walk and whose vertices all had their neighbours searched holds the whole walk |
| TwoSweep.TreeAdd | TrabalhoPAA/Main.py:420-421 | Exploring a vertex at its parent's depth plus one keeps the DFS tree invariant |
| TwoSweep.TreeSetParent | TrabalhoPAA/Main.py:423-424 | Setting the parent of an unexplored vertex keeps the DFS tree invariant |
| TwoSweep.FarthestSearch.constructor | TrabalhoPAA/Main.py:415-417 | Empty `explored`, `parent_map` and `distance_map` |
| TwoSweep.FarthestSearch.DepthSearch | TrabalhoPAA/Main.py:419-425 | The vertex is explored at the given depth, earlier depths are unchanged, the DFS tree invariant holds and every newly explored vertex has had its neighbours searched |
| TwoSweep.FarthestSearch.SearchNeighbours | TrabalhoPAA/Main.py:422-425 | After the loop every neighbour of the vertex is explored or blocked |
| TwoSweep.FarthestSearch.Sweep | TrabalhoPAA/Main.py:427 | Every vertex reachable from the start without entering a blocked vertex is explored |
| TwoSweep.FarthestSearch.Deepest | TrabalhoPAA/Main.py:431 | The farthest vertex has the greatest depth, and every key inserted before it has a strictly smaller one |
| TwoSweep.Depths | TrabalhoPAA/Main.py:431 | Definition of the `max` key: `distance_map.get` over the keys in insertion order; what it yields is proved in `Deepest` |
| TwoSweep.FarthestSearch.ClimbToStart | TrabalhoPAA/Main.py:432-438 | The walk up `parent_map` lists the target, then each parent in turn, ending at the start, position i at depth `dist[target] - i` |
| TwoSweep.FarthestSearch.PathFromStart | TrabalhoPAA/Main.py:432-439 | The reconstruction runs from the start to the target along parent links, position i at depth i; it is a simple path off the blocked set |
| TwoSweep.Reverse | TrabalhoPAA/Main.py:439 | Definition of `list.reverse()`: element `len - 1 - i` at position i; what the reversed climb is, is proved in `PathFromStart` |
| TwoSweep.FarthestSearch.Farthest | TrabalhoPAA/Main.py:427-441 | The path runs from the start to the first-discovered vertex of maximal depth along tree edges; it is simple and enters no blocked vertex |
| TwoSweep.FarthestSearch.TreePathIsSimple | TrabalhoPAA/Main.py:432-439 | A chain of tree edges with increasing depths is a simple path avoiding the blocked set |
| TwoSweep.FindFarthestPath | TrabalhoPAA/Main.py:414-441 | A non-empty simple path from the start to the returned vertex along the DFS tree, position i at distance i, entering no blocked vertex after the start; every vertex reachable around the blocked set is in `distance_map`, and the returned vertex is the first key of greatest distance |
| TwoSweep.FirstLeafFrom | TrabalhoPAA/Main.py:443 | The position of the first degree-one vertex from `lo` on, or the list length |
| TwoSweep.InitialVertex | TrabalhoPAA/Main.py:443-444 | The first degree-one vertex of `graph.nodes()` when there is one, otherwise the first vertex |
| TwoSweep.JoinPaths | TrabalhoPAA/Main.py:452-453 | Two simple paths sharing the endpoint and nothing else join into a simple path |
| TwoSweep.Stitch | TrabalhoPAA/Main.py:452-455 | The result is simple and is `first_path + second_path[1:]` exactly when the second path has more than one vertex, so the edge test always passes |
| TwoSweep.TwoSweepPath | TrabalhoPAA/Main.py:413-455 | Fails exactly on an empty graph (`list(nodes)[0]`); otherwise `complete_path` is a non-empty simple path starting at the initial vertex |

## Left out

- Console menu and dispatch (`execute_menu`, `_get_problem_selection`, `_display_algorithm_menu`, `_run_*`): interactive `input` and `print`.
- File output: the truncating `open` calls, `_write_path_result`, `_write_dominating_result` and the result writes. Only the returned values are modelled. `apply_greedy_approximation` returns nothing, so its `complete_path` is the modelled result.
- Progress reporting: `update_progress`, `percent` and the thresholds. These use floating-point division and serve reporting only. The one effect they have on results is kept: the closing report of four solvers divides by `N_start`, so on an empty graph those solvers end in `ZeroDivisionError`, modelled as an `Err` result.
- The `search_count` and `start_count` counters are not modelled. They have no part in correctness, so `BruteForceLongestPath` does not return the source's second result, `search_count`.
- `GraphBuilder`, `GraphVisualizer`, the helper wrappers, the Flask application, `_serialize_result` and the front-end files. These cover file parsing, drawing, HTTP and JSON, none of which the solvers use.
- networkx is not modelled.
  - The adjacency is the given sequence.
  - Vertices are their name-order indices.
  - The degree-descending order and the `graph.nodes()` order are parameters. The model does not reproduce the sort.
- BranchBoundDominating.BranchBoundDominatingSet: does not claim a minimum dominating set. The target scan starts at `next_idx` and gives up at line 271-272, so undominated vertices before it can end a branch without a solution.
- BranchBoundDominating.DomSearch.DfsDom: states that the incumbent is valid and never grows, but not which branches the bound discards. DomBoundIsSound states separately that a pruned branch holds no smaller dominating superset.
- TwoSweep.TwoSweepPath: does not claim the stitched path is long, since the source promises nothing about its length. The `return [], None` branch of `find_farthest_path` is never taken, because the start is always put in `distance_map`. FindFarthestPath therefore has no empty-path result.
- The brute-force dominating set tests no candidate of size 0, because its inner loop runs no iteration. A `min_size` of 0 therefore starts effectively at 1, and an empty graph gives `None`.
- BruteForcePath.Search.Explore: models the prune at lines 105-108 as written. `BruteForcePath.PruneNeverFires` shows that the prune is never taken while the search runs. The method does not call it, because that would leave the branch dead.
- BranchBoundPath.Search.DfsBranch: models the bound at lines 208-209 as written. `BranchBoundPath.BoundFailsOnlyAtN` shows that the bound cuts a branch only once `best_len == N`.
- Recursion depth: `explore_path`, `dfs_branch`, `dfs_dom` and `depth_search` recurse once per vertex of the current path or tree branch, so past Python's default limit of 1000 frames they raise `RecursionError`. The model has no recursion limit.
