# Verified model of the algorithm exercises and the Tetris board

This project is a Dafny model of the sequential core of a small Java
repository of algorithm exercises:

- the egg-drop table (`Q1a.java`);
- the k-th smallest pairwise product (`Q1b.java`);
- the two-pass reward assignment (`Q2a.java`);
- the lexicographically first closest pair under Manhattan distance (`Q2b.java`);
- the union-find and Kruskal selection that connects devices through a
  virtual hub (`Q3a.java`);
- the package-collection depth-first search (`PackageCollection.java`);
- the network graph of the network visualiser: nodes, edges, Kruskal's
  minimum spanning tree over its disjoint set, Dijkstra's path search and
  the cost and latency totals (`NetworkVisualizer.java`);
- the board logic of the Tetris panel (`TetrisGame.java`).

Each imperative routine is a Dafny `method` with the source's loops and
in-place updates. The arrays stay `array`s, the union-find structures are
classes over `parent`/`rank` arrays, and the Tetris panel is a class whose
board is an `array2<int>`. Every method is proved against a specification
function. Lemmas then prove what the source promises about those functions.

The modules are:

| Module | File | Contents |
|---|---|---|
| `EggDrop` | `egg_drop.dfy` | the egg-drop table |
| `KthProduct` | `kth_product.dfy` | the k-th smallest product |
| `Rewards` | `rewards.dfy` | the reward assignment |
| `ClosestPair` | `closest_pair.dfy` | the closest pair |
| `DeviceNetwork` | `device_network.dfy` | the union-find and hub Kruskal |
| `PackageCollection` | `package_collection.dfy` | the package-collection search |
| `Network` | `network_graph.dfy` | the network graph, its disjoint set, Kruskal and Dijkstra |
| `TetrisRules` | `tetris_rules.dfy` | the game as a value, with its rules as functions |
| `Tetris` | `tetris.dfy` | the `TetrisGame` class |

Three modules are shared helpers:

| Module | File | Contents |
|---|---|---|
| `Sorting` | `sorting.dfy` | a stable sort by an integer key, which models `Collections.sort`, `Arrays.sort` and `List.sort` |
| `Partition` | `partition.dfy` | a labelling of elements into classes, and Kruskal's selection stated on labels |
| `ParentForest` | `parent_forest.dfy` | parent-pointer forests with ranks: roots, path compression and linking |

## Model

| member | source | states |
|---|---|---|
| EggDrop.MinMeasurements | Q1a.java:23-45 | the result is the least number of attempts whose table entry `dp[k][attempts]` reaches n, and it is at most n |
| EggDrop.LevelsAtLeastAttempts | Q1a.java:30-39 | with at least one sample, the levels covered by `a` attempts are at least `a` (so the loop stops by `attempts == n` and stays inside the table) |
| EggDrop.OneSampleLevels | Q1a.java:39 | with one sample the table row is `dp[1][a] == a` |
| EggDrop.LevelsMonotone | Q1a.java:34-40 | table entries grow with the number of attempts |
| EggDrop.LeastAttemptsUnique | Q1a.java:30-44 | the least sufficient number of attempts is unique |
| EggDrop.OneSampleNeedsN | Q1a.java:30-44 | with one sample the answer is exactly n |
| EggDrop.Examples | Q1a.java:50-52 | (1, 2) needs 2 attempts, (2, 6) needs 3, (3, 14) needs 4 |
| KthProduct.Row | Q1b.java:39-42 | one pass of the inner loop appends `x * b[j]` for every `j`, in order |
| KthProduct.KthLowestCombinedReturn | Q1b.java:32-55 | there are `|returns1| * |returns2|` products; too large a k is the IllegalArgumentException case, and k < 1 is the index error; otherwise the result is element k-1 of the sorted products, is some `returns1[i] * returns2[j]`, fewer than k products are below it and at least k are at most it |
| KthProduct.ProductsLength | Q1b.java:37-43 | the products list has one entry per index pair |
| KthProduct.ProductsAt | Q1b.java:37-43 | entry `i * |b| + j` of the list is `a[i] * b[j]` |
| KthProduct.ProductsAreProducts | Q1b.java:41 | every entry is a product of one element of each array |
| KthProduct.KthIsAProduct | Q1b.java:51-54 | the returned element is such a product |
| KthProduct.CountSortBy | Q1b.java:51 | sorting keeps the number of entries below or at most any value |
| KthProduct.KthRank | Q1b.java:51-54 | element k-1 of the sorted list has fewer than k entries below it and at least k at most it |
| KthProduct.KthUnique | Q1b.java:51-54 | only one value has that rank |
| KthProduct.KthFromCounts | Q1b.java:51-54 | a value with that rank is element k-1 of the sorted list |
| KthProduct.ExampleSmall | Q1b.java:59-62 | `[2, 5]`, `[3, 4]`, k = 2 gives 8 |
| KthProduct.ExampleSigned | Q1b.java:64-67 | `[-4, -2, 0, 3]`, `[2, 4]`, k = 6 gives 0 |
| Rewards.MinRewards | Q2a.java:24-57 | the total is the sum of the two-pass assignment, at least the number of employees, and no larger than the sum of any assignment that meets both neighbour rules; empty ratings give 0 |
| Rewards.Passes | Q2a.java:29-48 | the array after the initial fill and the two passes is the reference assignment `Optimal` |
| Rewards.Total | Q2a.java:51-56 | the accumulator loop returns the sum of the array |
| Rewards.OptimalIsFair | Q2a.java:37-48 | every reward is at least 1, and a higher rating than either neighbour gets more than that neighbour |
| Rewards.OptimalIsMinimal | Q2a.java:4-11 | every fair assignment has a total at least that of the two-pass assignment |
| Rewards.TotalAtLeastCount | Q2a.java:32-34 | a fair assignment totals at least the number of employees |
| Rewards.FairAtLeastRise | Q2a.java:37-41 | in a fair assignment each reward is at least the length of the rising run ending there |
| Rewards.FairAtLeastFall | Q2a.java:44-48 | in a fair assignment each reward is at least the length of the falling run starting there |
| Rewards.Examples | Q2a.java:61-66 | `[1, 0, 2]` gets `[2, 1, 2]` (5) and `[1, 2, 2]` gets `[1, 2, 1]` (4) |
| ClosestPair.FindClosestPair | Q2b.java:23-54 | with fewer than two points the result is (0, 0); otherwise `first < second` are indices whose distance is the minimum over all pairs, and no pair at that distance is lexicographically smaller |
| ClosestPair.ClosestPairUnique | Q2b.java:36-47 | the closest pair under that tie-break is unique |
| ClosestPair.Example | Q2b.java:58-62 | the worked example yields (0, 3) |
| DeviceNetwork.UnionFind.constructor | Q3a.java:41-47 | every element is its own parent with rank 0, so each is its own class |
| DeviceNetwork.UnionFind.Find | Q3a.java:50-55 | returns the root of x; afterwards `parent[x]` is that root, and no element changes class |
| DeviceNetwork.UnionFind.Union | Q3a.java:58-72 | exactly the classes of x and y merge, under the root of higher rank; a rank grows by one only when two equal-rank roots are joined |
| DeviceNetwork.AllEdges | Q3a.java:78-89 | `connections.length + n` edges: each connection shifted to 0-based devices, then device i to hub n at cost `modules[i]` |
| DeviceNetwork.BuildEdges | Q3a.java:78-89 | the edge array holds exactly those edges |
| DeviceNetwork.JoinIfApart | Q3a.java:102-106 | the two finds and the union join u and v exactly when they were in different classes |
| DeviceNetwork.JoinInOrder | Q3a.java:97-117 | the loop over sorted edges returns the cost of the edges Kruskal's selection accepts, stopping after n |
| DeviceNetwork.MinCostToConnectDevices | Q3a.java:76-118 | the accepted edges are increasing positions in the sorted edge list, the result is the sum of their costs, and no other selection of sorted edges that joins every device and the hub costs less (`Rival`: n edges, or any number when no cost is negative) |
| DeviceNetwork.PlanIsCheapest | Q3a.java:7-8 | Kruskal's plan costs no more than any `Rival` selection: the minimum the goal asks for |
| DeviceNetwork.PickedCostEarlier | Q3a.java:92 | over edges sorted by cost, a selection whose positions are each no later than another's costs no more |
| Partition.KruskalDominates | Q3a.java:101-115 | Kruskal's selection has no more edges than any ordered selection joining all nodes, and its j-th edge is no later than the partner position in that selection (the exchange argument behind minimality) |
| Partition.RankBound | Q3a.java:105-108 | a selection joining all nodes keeps, after the positions already passed, at least as many edges as classes still to be joined |
| DeviceNetwork.PlanConnectsAll | Q3a.java:101-115 | exactly n edges are accepted, and they put every device in the hub's class |
| DeviceNetwork.HubEdgeSorted | Q3a.java:87-92 | every device's hub edge is still in the sorted list |
| DeviceNetwork.PlanExample | Q3a.java:122-125 | the worked example accepts three edges of total cost 3 |
| ParentForest.Root | Q3a.java:50-55 | following parents from x ends in a root, of higher rank unless x is itself the root |
| ParentForest.CompressRoots | Q3a.java:52 | pointing x straight at its root keeps the forest ranked and changes no element's root |
| ParentForest.UnionByRank | Q3a.java:62-71 | linking two distinct roots by rank keeps the forest ranked, and the elements of both classes end under the winner |
| ParentForest.UnionRoots | Q3a.java:58-72 | union by rank merges exactly the two classes |
| ParentForest.Hang | NetworkVisualizer.java:174-181 | hanging root a under root b merges exactly the two classes |
| Partition.MergeJoins | Q3a.java:105-106 | after merging, two elements share a class iff they did before or one was in each merged class |
| Partition.MergeClasses | Q3a.java:105-108 | merging two distinct classes removes exactly one class |
| Partition.KruskalSpanningForest | NetworkVisualizer.java:83-92 | the accepted edges are increasing positions, classes plus accepted edges equal the element count (no cycle), fewer than n edges are accepted, and every edge ends inside one class unless the count limit stopped the scan |
| Sorting.SortByOrdered | NetworkVisualizer.java:77 | the sorted list is ordered by the key |
| Sorting.SortByPermutes | NetworkVisualizer.java:77 | the sorted list is a permutation of the input |
| Sorting.SortByStable | NetworkVisualizer.java:77 | elements of equal key keep their relative order |
| Network.DisjointSet.constructor | NetworkVisualizer.java:162-165 | every parent is -1, so each element is its own class |
| Network.DisjointSet.Find | NetworkVisualizer.java:167-172 | returns the root of i: an element whose parent is -1 |
| Network.DisjointSet.Union | NetworkVisualizer.java:174-181 | exactly the classes of i and j merge |
| Network.HangLinked | NetworkVisualizer.java:178-180 | `parent[root1] = root2` keeps the pointer structure acyclic and merges the two classes |
| Network.NetworkGraph.constructor | NetworkVisualizer.java:56-57 | a graph starts with no nodes and no edges |
| Network.NetworkGraph.AddNode | NetworkVisualizer.java:59-61 | appends exactly the node and leaves the edges alone |
| Network.NetworkGraph.AddEdge | NetworkVisualizer.java:63-65 | appends exactly the new edge and leaves the nodes alone; the cost total grows by its cost and the latency total by its bandwidth |
| Network.NetworkGraph.TotalCost | NetworkVisualizer.java:150-152 | the sum of the edge costs, the same over the edges in any order (here: sorted by cost) |
| Network.NetworkGraph.TotalLatency | NetworkVisualizer.java:154-156 | the sum of the edge bandwidths, the same over the edges in any order (here: sorted by cost) |
| Network.KeepJoining | NetworkVisualizer.java:80-93 | the loop returns, in order, the edges Kruskal's selection accepts |
| Network.NetworkGraph.GetMST | NetworkVisualizer.java:76-94 | sorts the graph's own edge list by cost in place, keeps both totals, and returns the minimum spanning forest of the old edges |
| Network.MstEdges | NetworkVisualizer.java:83-93 | the returned edges are drawn from the graph's edges, each at most as often as it occurs there (a sub-multiset), in cost order |
| Network.ChosenWithin | NetworkVisualizer.java:83-92 | the edges accepted before a position are a sub-multiset of the edges scanned before it |
| Network.MstForest | NetworkVisualizer.java:83-93 | the returned edges form a forest with fewer edges than nodes, and every graph edge ends inside one of its trees |
| Network.SumOfAppend | NetworkVisualizer.java:150-156 | a total grows by exactly the value of an appended edge |
| Network.SumOfSortBy | NetworkVisualizer.java:150-156 | reordering the edges keeps each total |
| Network.Lightest | NetworkVisualizer.java:100-112 | the polled node has the least tentative distance in the queue |
| Network.RelaxEdge | NetworkVisualizer.java:119-134 | relaxing one edge keeps the predecessor links a tree of shortest-so-far distances and makes progress |
| Network.Relax | NetworkVisualizer.java:119-135 | the scan of all edges keeps that tree and every edge at the current node is settled |
| Network.Explore | NetworkVisualizer.java:103-136 | the search ends with the destination reached or every edge settled |
| Network.Trace | NetworkVisualizer.java:139-146 | the reconstructed path ends at the destination, follows edges, and starts at the source unless it is `[destination]` with the destination unreached |
| Network.NetworkGraph.Dijkstra | NetworkVisualizer.java:97-147 | the path ends at the destination and follows edges; it starts at the source iff the destination is reachable, and is `[destination]` otherwise |
| PackageCollection.Graph | PackageCollection.java:28-36 | one adjacency list per location |
| PackageCollection.NeighboursMeaning | PackageCollection.java:33-36 | w is a neighbour of v iff some road joins them, in either direction |
| PackageCollection.BuildGraph | PackageCollection.java:28-36 | the loops build exactly those adjacency lists |
| PackageCollection.Dfs | PackageCollection.java:45-61 | the recursive search with the shared `visited` array returns and marks what `Explore` describes |
| PackageCollection.VisitNeighbor | PackageCollection.java:50-57 | one neighbour step: an unvisited child is explored and counted only if its subtree has roads or it holds a package |
| PackageCollection.ExploreGrows | PackageCollection.java:46-51 | a location once visited stays visited, so each is entered at most once |
| PackageCollection.ExploreBound | PackageCollection.java:47-54 | the result is non-negative and at most twice the number of newly visited locations beyond the start |
| PackageCollection.ExploreEven | PackageCollection.java:47-60 | the result is even |
| PackageCollection.ExploreZero | PackageCollection.java:48-60 | the result is 0 iff no newly visited location other than the start holds a package |
| PackageCollection.ExploreSound | PackageCollection.java:50-52 | every newly visited location is reachable from the start |
| PackageCollection.MinRoadsToCollectPackages | PackageCollection.java:24-43 | the result is non-negative, even, bounded by twice the locations reached, exactly the reachable locations are visited, and it is 0 iff no reachable location other than 0 holds a package; when the roads form a forest it is exactly twice the number of locations other than 0 that lie on every route from 0 to some package |
| PackageCollection.Collected | PackageCollection.java:39-60 | the same facts about the search from location 0 |
| PackageCollection.GraphSymmetric | PackageCollection.java:33-36 | every road is entered in both directions, so the adjacency lists are symmetric |
| PackageCollection.RegionBehind | PackageCollection.java:45-58 | on a forest, what `dfs` newly visits from a fresh node is reachable from 0 and lies behind the node (every route from 0 to it passes the node) |
| PackageCollection.BehindInRegion | PackageCollection.java:45-58 | on a forest, every reachable location behind a fresh node is newly visited by `dfs` from it |
| PackageCollection.ExploreServed | PackageCollection.java:45-61 | on a forest, `dfs` returns twice the number of newly visited locations other than its node that lie on the way to a package, and its caller keeps it exactly when a package lies among what it visited |
| PackageCollection.ChildrenServed | PackageCollection.java:50-58 | the loop adds twice the number of newly visited locations on the way to a package, and finds a package exactly when one lies among them |
| PackageCollection.ChildServes | PackageCollection.java:51-56 | an unvisited neighbour adds its roads plus 2 exactly when a package lies behind it, and nothing otherwise |
| PackageCollection.CollectedOnForest | PackageCollection.java:38-43 | on a forest, the search from 0 returns exactly twice the number of locations other than 0 that lie on every route from 0 to some package |
| PackageCollection.Examples | PackageCollection.java:64-70 | the path example gives 10 and the tree example gives 12 |
| TetrisRules.Stamp | TetrisGame.java:115-128 | exactly the cells under filled cells of the piece are set to 1 |
| TetrisRules.FitsWithin | TetrisGame.java:104-106 | a piece that fits lies between the walls and above the bottom |
| TetrisRules.FitsTPiece | TetrisGame.java:99-113 | where the T-piece fits, cell by cell |
| TetrisRules.StampBlocks | TetrisGame.java:106 | after placing, the piece no longer fits in the same place |
| TetrisRules.Kept | TetrisGame.java:136-152 | the rows that survive clearing are the non-full rows of the board, in order |
| TetrisRules.KeepStep | TetrisGame.java:136-143 | skipping a non-full row keeps the clearing invariant |
| TetrisRules.ClearStep | TetrisGame.java:144-150 | shifting down over a full row keeps the clearing invariant and removes one full row |
| TetrisRules.CleanShape | TetrisGame.java:134-152 | after clearing the board is 20 by 10, no row is full and cells stay 0 or 1 |
| TetrisRules.CleanSettled | TetrisGame.java:134-152 | a board without a full row is left unchanged |
| TetrisRules.Faster | TetrisGame.java:159-165 | the delay is at least 100 and never increases |
| TetrisRules.Spawn | TetrisGame.java:86-97 | the new T-piece fits at the top unless the game is over |
| TetrisRules.LandingFits | TetrisGame.java:178-181 | a hard drop ends on a row where the piece fits and from which it cannot go lower, and it fits on every row on the way |
| TetrisRules.ResetRestores | TetrisGame.java:187-199 | a reset gives the initial state: an empty board, score 0, delay 500, not over, T-piece at the top |
| TetrisRules.PlaceGood | TetrisGame.java:115-132 | placing keeps the board well formed with no full row |
| TetrisRules.InputGood | TetrisGame.java:167-185 | every key press keeps the game in a good state |
| TetrisRules.TickGood | TetrisGame.java:201-210 | every timer tick keeps the game in a good state |
| TetrisRules.InputMonotone | TetrisGame.java:153-165 | between resets the score never decreases and the delay never increases |
| Tetris.TetrisGame.constructor | TetrisGame.java:61-84 | the game starts in the initial state |
| Tetris.TetrisGame.GenerateBlock | TetrisGame.java:86-97 | the state becomes `Spawn` of the old state |
| Tetris.TetrisGame.CanMove | TetrisGame.java:99-113 | false once the game is over, otherwise true iff every filled cell of the piece is above the bottom, between the walls and, on the board, over an empty cell |
| Tetris.TetrisGame.PlaceBlock | TetrisGame.java:115-132 | the state becomes `Place` of the old state: over with the board untouched if the piece reaches above the top, else stamped, cleared and with a new piece |
| Tetris.TetrisGame.StampRow | TetrisGame.java:117-127 | one row of the piece is written, or the scan stops at a cell above the top with nothing written |
| Tetris.TetrisGame.CheckRows | TetrisGame.java:134-157 | the state becomes `Clear` of the old state: full rows removed, 100 points each, speed adjusted if any went |
| Tetris.TetrisGame.RowFull | TetrisGame.java:137-143 | true iff the row has no empty cell |
| Tetris.TetrisGame.ShiftDown | TetrisGame.java:146-149 | row r is dropped, the rows above move down one and the top row is empty |
| Tetris.TetrisGame.AdjustSpeed | TetrisGame.java:159-165 | the delay becomes `Faster` of the old delay and the score |
| Tetris.TetrisGame.HandleInput | TetrisGame.java:167-185 | the state becomes `Input` of the old state, and stays good |
| Tetris.TetrisGame.HardDrop | TetrisGame.java:178-183 | the piece goes to its landing row and is placed |
| Tetris.TetrisGame.DropDown | TetrisGame.java:179-181 | the loop leaves the piece on its landing row |
| Tetris.TetrisGame.ResetGame | TetrisGame.java:187-199 | the state becomes the initial state on a fresh board |
| Tetris.TetrisGame.ActionPerformed | TetrisGame.java:201-210 | the state becomes `Tick` of the old state, and stays good |

## Left out

- Java `int` overflow is not modelled: integers are unbounded. This covers:
  - `num1 * num2` in `Q1b.java`;
  - the reward and cost sums;
  - `Integer.MAX_VALUE + bandwidth` in `dijkstra`;
  - the `a.cost - b.cost` comparator in `Q3a.java`;
  - `score` in the Tetris panel.
- Dijkstra's unreached distance is a separate `Infinite` value rather than `Integer.MAX_VALUE`.
- ClosestPair.FindClosestPair: requires every pair distance to be below `Integer.MAX_VALUE`. At that distance the source would never record the first pair.
- ClosestPair.FindClosestPair: requires `y_coords` to have at least as many entries as `x_coords` when there are two or more points. Otherwise the source throws `ArrayIndexOutOfBoundsException` at `y_coords[j]`, which is not modelled.
- EggDrop.MinMeasurements: requires `k >= 1` unless `n == 0`. With no samples and `n > 0`, the source runs off the end of its table.
- EggDrop.MinMeasurements: takes `k` and `n` as natural numbers. On negative arguments the source throws (a negative array size, or an index error on the table), which is not modelled.
- PackageCollection.MinRoadsToCollectPackages: requires at least one location. On an empty array the source fails at `visited[0]`.
- PackageCollection.MinRoadsToCollectPackages: requires both ends of every road to be a location. Otherwise `graph.get` throws `IndexOutOfBoundsException`, which is not modelled.
- PackageCollection.MinRoadsToCollectPackages: the exact count is proved only when the roads form a forest (parallel roads and loops allowed). On a graph with cycles only the bounds, evenness and the zero case are proved.
- DeviceNetwork.MinCostToConnectDevices: requires `modules` to have at least `n` entries. Otherwise the source throws `ArrayIndexOutOfBoundsException` at `modules[i]`, which is not modelled.
- DeviceNetwork.MinCostToConnectDevices: requires every connection's devices to lie in 1 .. n. Otherwise `find` throws `ArrayIndexOutOfBoundsException`, which is not modelled.
- DeviceNetwork.MinCostToConnectDevices: minimality is proved against selections of sorted edges that join everything. With negative costs it is proved only against selections of exactly n edges, since extra negative edges would lower any sum.
- `java.util.List.sort`, `Collections.sort` and `Arrays.sort` are modelled by one stable sort by key (`Sorting.SortBy`), not by the library's merge sort.
- Network.NetworkGraph.GetMST: the result is proved to be a spanning forest in cost order. That it has the least total cost (the optimality of Kruskal's algorithm) is not proved.
- Network.NetworkGraph.Dijkstra: the path is proved to connect source and destination along edges. That it is a cheapest path is not proved.
- The `PriorityQueue` of `dijkstra` is modelled as a pick of a queued node with the least distance. Its heap layout and stale entries are not modelled.
- The `HashMap`s of `dijkstra` are sequences indexed by node.
- A `Node` is its index in `nodes`. `nodes.indexOf` on duplicate or absent nodes is not modelled.
- The `Node` and `Edge` getters are plain field reads.
- `Q6a.java` (a wait/notify thread exercise) is not part of this model.
- `Q6b.java` (a multi-threaded web crawler) is not part of this model.
- The Swing frames, `paintComponent`, the key listener, `repaint`, and `main` with its printing are not modelled. The worked examples from `main` are lemmas.
- The Tetris `Timer` is not modelled. `timer.stop`, `timer.start` and `timer.setDelay` are no-ops, and `speed` is plain state.
- The Tetris `blockQueue` is not modelled. Each `generateBlock` adds one T-piece and polls it straight back, so the current piece is always the T-piece.
- The Tetris `random` field is unused by the source.
- `board[0] = new int[COLS]` in `checkRows` allocates a fresh row. The model empties row 0 of the same two-dimensional array instead.
