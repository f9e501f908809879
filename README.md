# Programming-For-Developers: algorithm exercises in Dafny

This project models the algorithm exercises of the Java repository
Programming-For-Developers and proves properties of the models. There is one
Dafny module per exercise:

- `KthSmallestProduct`: the k-th smallest product of two return lists. A min-heap starts at column 0 of every row and moves right.
- `CriticalTemperature`: the dynamic-programming table of `minMeasurement(k, n)`, the egg-drop problem.
- `RewardDistribution`: the two-pass minimum reward allocation.
- `ClosestPair`: the lexicographically smallest closest pair under Manhattan distance.
- `NetworkConnection`: a union-find with path compression and union by rank. It is used by Kruskal's algorithm over "module" edges, each from a super node 0 to a device, plus the direct connections.
- `NetworkOptimizer`: the adjacency-list `Graph`, `kruskalMST` over the `Subset[]` union-find, and `shortestPath`. The latter is Dijkstra's algorithm with bandwidths as edge lengths.
- `NetworkOptimization`: the `NetworkGraph` of the second GUI. Its `findShortestPath` is a maximum-bottleneck ("widest path") search. The model also covers `calculateTotalCost` and `calculateTotalLatency`.
- `PackageCollection`: the `Solution` class. Its depth-first search collects every package within two roads of a visited location. It uses a breadth-first `shortestPath`, `buildGraph` and `countPackages`.
- `TrendingHashtags`: counts the `#\w+` tags of February-2024 tweets, then takes the top three by count and then by tag.
- `Tetris`: the board logic of the Tetris game. It covers the block moves and rotation, collision, placing, row clearing, scoring, the speed rule, the next-block hand-off and restart.
- `CrawlerFileName`: the file name a crawler thread derives from its URL.
- `StableSort`: the `List.sort(Comparator.comparingInt(...))` calls behind Kruskal. It is modelled as a stable insertion sort.

Code that works on arrays or updates objects is modelled imperatively:

- Java classes whose fields change become Dafny classes with `modifies` frames: `UnionFind`, `Graph`, `NetworkGraph`, `Solution`, `Block` and `TetrisGame`.
- The loops become `while` loops with invariants.
- Each method is proved against a specification function on values, and the properties are proved about that function.

Java `int` is 32 bits wide. The model uses mathematical integers, except where overflow is part of the behaviour (see "Left out").

## Model

| member | source | states |
|---|---|---|
| KthSmallestProduct.FindKthSmallestProduct | KthSmallestProduct1b.java:32-60 | The pops are a heap run of the as-written walk: every pop is a least entry of the heap, and its successor in returns2 is pushed. The result is 0 when k <= 0; otherwise it is the k-th pop and is some product returns1[i]*returns2[j]. When returns2 is ascending and every returns1 value is non-negative, the result is the k-th smallest product with multiplicity. |
| KthSmallestProduct.FindKthSmallestProductSignAware | KthSmallestProduct1b.java:39-56 | Corrected walk: a row with a negative returns1 factor starts at the last column and moves left. For every ascending returns2 the result is the k-th smallest product. |
| KthSmallestProduct.HeapWalk | KthSmallestProduct1b.java:34-59 | Builds the first heap, then polls k times. The run of pops and heap fronts matches the chosen walk, and the result is the last pop. |
| KthSmallestProduct.PollTimes | KthSmallestProduct1b.java:47-57 | After k polls the pops form a valid run of length k and the result is the k-th pop's product. |
| KthSmallestProduct.PollOnce | KthSmallestProduct1b.java:48-56 | One poll removes a least entry and pushes the next cell of its row if there is one. The heap invariant is kept. |
| KthSmallestProduct.StartHeap | KthSmallestProduct1b.java:39-42 | The first heap holds one entry per row, at the row's first column of the walk. |
| KthSmallestProduct.RunFindsKth | KthSmallestProduct1b.java:11-16 | If every row's products ascend along the walk, the k-th pop of a run is the k-th smallest product. |
| KthSmallestProduct.RunOrdered | KthSmallestProduct1b.java:47-49 | When rows ascend, a later pop is never smaller than an earlier one. |
| KthSmallestProduct.PopsNondecreasing | KthSmallestProduct1b.java:47-49 | The popped products never decrease along a run over ascending rows. |
| KthSmallestProduct.PopsDistinct | KthSmallestProduct1b.java:48-56 | A cell (i, j) is popped at most once in a run. |
| KthSmallestProduct.FrontsGrow | KthSmallestProduct1b.java:54-56 | Each row's front only moves forward along the walk. |
| KthSmallestProduct.KthUnique | KthSmallestProduct1b.java:11-16 | The k-th smallest product is a single number. |
| KthSmallestProduct.LiveBound | KthSmallestProduct1b.java:23-24 | The heap never holds more entries than returns1 has elements. |
| KthSmallestProduct.AsWrittenRowsSorted | KthSmallestProduct1b.java:39-56 | With a non-negative returns1 factor and an ascending returns2, every row of the as-written walk ascends. |
| KthSmallestProduct.SignAwareRowsSorted | KthSmallestProduct1b.java:39-56 | With an ascending returns2, every row of the sign-aware walk ascends. |
| KthSmallestProduct.ExampleOne | KthSmallestProduct1b.java:74-86 | The 2nd smallest product of [2,5] and [3,4] is 8. |
| KthSmallestProduct.ExampleTwo | KthSmallestProduct1b.java:88-104 | The 6th smallest product of [-4,-2,0,3] and [2,4] is 0. This is proved through the sign-aware walk. |
| KthSmallestProduct.SecondExampleRanks | KthSmallestProduct1b.java:95-101 | 0 is the 6th smallest product of the second example. |
| KthSmallestProduct.AsWrittenFirstPoll | KthSmallestProduct1b.java:39-49 | On [-4,-2,0,3] and [2,4], the first as-written pop is -8, although -16 is the least product. |
| KthSmallestProduct.AsWrittenMissesMinimum | KthSmallestProduct1b.java:32-60 | The as-written call with k = 1 on that input returns -8. |
| KthSmallestProduct.SignAwareFindsMinimum | KthSmallestProduct1b.java:39-56 | The corrected walk with k = 1 on that input returns -16. |
| CriticalTemperature.MinMeasurement | CriticalTemperature1a.java:30-51 | The result is the table entry dp[k][n] that the three loops fill. It is 0 for one sample and for 0 levels. For k >= 2 and n >= 1 it lies between 1 and n. |
| CriticalTemperature.FillRow | CriticalTemperature1a.java:43-49 | The `j` loop for one sample count i sets dp[i][j] to the table value for every level and leaves every other row as it was. |
| CriticalTemperature.FillCell | CriticalTemperature1a.java:44-48 | The `x` loop sets dp[i][j] to the least worst case over every first drop level, and no other cell changes. |
| CriticalTemperature.TableBounds | CriticalTemperature1a.java:42-50 | With two or more samples, 1 <= dp[i][j] <= j. |
| CriticalTemperature.TableRecurrence | CriticalTemperature1a.java:45-48 | dp[i][j] is at most 1 + max(dp[i-1][x-1], dp[i][j-x]) for every first drop level x. |
| CriticalTemperature.BestDropAtMost | CriticalTemperature1a.java:45-48 | The running minimum of the innermost loop is at most every candidate seen. |
| CriticalTemperature.BestDropAttained | CriticalTemperature1a.java:45-48 | Some first drop level attains the minimum. |
| CriticalTemperature.TableNonNegative | CriticalTemperature1a.java:33-50 | Every table entry is non-negative. |
| CriticalTemperature.TableLevels | CriticalTemperature1a.java:38-46 | Only entry dp[1][n] depends on where the base loop stops. Every other entry is the same for a larger table. |
| CriticalTemperature.Measurements | CriticalTemperature1a.java:15 | Corrected table, with the base loop running through level n: one sample needs n measurements. With two or more samples the value equals the code's answer. |
| CriticalTemperature.AsWrittenOneSample | CriticalTemperature1a.java:38-41 | minMeasurement(1, n) yields 0 for every n, while the corrected value is n. |
| CriticalTemperature.ExampleTwoSix | CriticalTemperature1a.java:58 | minMeasurement(2, 6) is 3. |
| RewardDistribution.MinRewards | RewardDistribution2a.java:55-89 | The total is the sum of the allocation the two passes produce. It is 0 for no employee and 1 for one. |
| RewardDistribution.LeftPass | RewardDistribution2a.java:67-72 | Afterwards each reward is the length of the strictly increasing run of ratings that ends there. |
| RewardDistribution.RightPass | RewardDistribution2a.java:75-80 | Afterwards the rewards are the allocation: the maximum of the left run and the right run. |
| RewardDistribution.SumOf | RewardDistribution2a.java:83-86 | The total is the sum of the rewards. |
| RewardDistribution.AllocationIsFair | RewardDistribution2a.java:45 | Every employee gets at least one reward. An employee rated higher than a neighbour gets more rewards than that neighbour. |
| RewardDistribution.AllocationIsLeast | RewardDistribution2a.java:45 | Every fair assignment gives each employee at least the allocated reward. |
| RewardDistribution.AllocationIsMinimal | RewardDistribution2a.java:45 | The allocated total is minimal among fair assignments. |
| RewardDistribution.ExampleOne | RewardDistribution2a.java:29-35 | Ratings [1,0,2] need 5 rewards. |
| RewardDistribution.ExampleTwo | RewardDistribution2a.java:37-43 | Ratings [1,2,2] need 4 rewards. |
| RewardDistribution.AllEqualRatings | RewardDistribution2a.java:26 | Equal ratings need one reward per employee. |
| ClosestPair.FindClosestPair | ClosestPair2b.java:26-47 | With fewer than 2 points the result is [0,0]. Otherwise it is a pair i < j of minimal Manhattan distance, and the lexicographically smallest such pair. |
| NetworkConnection.UnionFind.constructor | NetworkConnection3a.java:63-70 | Every node is its own parent with rank 0, so every node is alone in its set. |
| NetworkConnection.UnionFind.Find | NetworkConnection3a.java:73-78 | Returns x's representative, which is its own parent. Ranks are unchanged. Path compression only repoints links at their node's representative. |
| NetworkConnection.UnionFind.Union | NetworkConnection3a.java:81-95 | Afterwards x and y share a representative. Nothing changes if they already did. Otherwise exactly their two sets merge and the number of sets drops by one. |
| NetworkConnection.UnionFind.LinkRoots | NetworkConnection3a.java:86-93 | The representative of lower rank goes under the other. On equal ranks rootY goes under rootX, whose rank grows by one. |
| NetworkConnection.Compress | NetworkConnection3a.java:74-76 | Pointing a node straight at its representative keeps the union-find forest well formed. |
| NetworkConnection.Link | NetworkConnection3a.java:86-93 | Linking a lower-rank representative under another keeps the forest, and ranks keep increasing towards the representative. |
| NetworkConnection.RelabelMerged | NetworkConnection3a.java:84-93 | Relabelling one representative as the other merges exactly the sets of x and y. |
| NetworkConnection.MinCost | NetworkConnection3a.java:99-141 | The total is the cost of the edges a Kruskal run over the stably sorted candidates accepts. The run stops at the n-th accepted edge. At most n edges are used. Every node 0..n ends in one set. |
| NetworkConnection.AddEdges | NetworkConnection3a.java:103-110 | The candidates are the module edges (0, i+1, modules[i]) followed by the connections, in order. |
| NetworkConnection.Kruskal | NetworkConnection3a.java:116-138 | An edge is taken exactly when its ends lie in different sets, and the loop stops after n taken edges. The total is the taken cost. Unless it stopped early, every edge ends with both ends in one set. |
| NetworkConnection.Connect | NetworkConnection3a.java:128-129 | Joins the two sets exactly when they differ, and reports whether it did. |
| NetworkConnection.KruskalEnd | NetworkConnection3a.java:134-137 | n taken edges leave all n+1 nodes in one set. |
| NetworkConnection.ModuleEdgesSorted | NetworkConnection3a.java:103-105 | Once all sorted candidates are joined, every device is joined to the super node. |
| NetworkConnection.ExampleRun | NetworkConnection3a.java:41-48 | In the example, the first three sorted edges are taken, at total cost 3. |
| NetworkConnection.Example | NetworkConnection3a.java:143-157 | minCost(3, [1,2,2], [[1,2,1],[2,3,1]]) is 3. |
| StableSort.SortBy | NetworkConnection3a.java:113 | The sorted list is a permutation of the input and its keys are non-decreasing. |
| StableSort.InsertBy | NetworkConnection3a.java:113 | Insertion adds exactly one element and keeps a sorted list sorted. |
| StableSort.InsertByWithKey | NetworkConnection3a.java:113 | Insertion puts the new element first among those of its key and keeps the order of every key's elements. |
| StableSort.SortByStable | NetworkConnection3a.java:113 | The sort is stable: for every key, its elements come out in the order they went in. |
| StableSort.SortSorted | NetworkOptimizerGUI5.java:86 | An already sorted list is returned unchanged. |
| NetworkOptimizer.Graph.constructor | NetworkOptimizerGUI5.java:40-46 | V nodes, each with an empty list. |
| NetworkOptimizer.Graph.AddEdge | NetworkOptimizerGUI5.java:48-52 | The same edge is appended to the lists of both ends, twice to one list for a loop. Other lists are unchanged. |
| NetworkOptimizer.FlattenMembers | NetworkOptimizerGUI5.java:83-85 | The collected candidates are exactly the edges of the lists. |
| NetworkOptimizer.Union | NetworkOptimizerGUI5.java:67-78 | Afterwards x and y share a representative. If they already did, only that representative's rank grows. Otherwise exactly their two sets merge. |
| NetworkOptimizer.FindBoth | NetworkOptimizerGUI5.java:68-69 | The two opening find calls return the representatives of x and y and change neither a representative nor a rank. |
| NetworkOptimizer.RaiseRank | NetworkOptimizerGUI5.java:74-76 | The equal-ranks branch with equal roots raises only that root's rank. |
| NetworkOptimizer.KruskalMST | NetworkOptimizerGUI5.java:80-101 | The scan is a Kruskal trace over the sorted candidates. It starts from singletons, and an edge is taken exactly when its ends lie in different sets, which it then merges. The result is exactly the taken edges, in order, no edge twice, with costs non-decreasing. Result size plus number of sets equals V, so with V >= 1 at most V-1 edges. Every list edge ends with its ends in one set. |
| NetworkOptimizer.ScanEdges | NetworkOptimizerGUI5.java:87-101 | After the scan the trace covers every edge and ends at the final partition. Each taken edge merged the two different sets of its ends, each skipped edge already had its ends in one set, and every scanned edge has both ends in one set. |
| NetworkOptimizer.TakenStaysJoined | NetworkOptimizerGUI5.java:94-101 | Once an edge is taken, its ends stay in one set of every later partition. |
| NetworkOptimizer.NoCycle | NetworkOptimizerGUI5.java:94-101 | The ends of a taken edge are joined by no path of earlier taken edges, so the result never closes a cycle. |
| NetworkOptimizer.PickedSorted | NetworkOptimizerGUI5.java:94-100 | Edges picked in order from a sorted list are sorted. |
| NetworkOptimizer.ShortestPath | NetworkOptimizerGUI5.java:111-130 | dist[src] is 0 and every distance lies in 0..Integer.MAX_VALUE. Each finite distance is the total bandwidth of some walk from src. No walk from src to t is shorter than dist[t]. |
| NetworkOptimizer.RelaxEdges | NetworkOptimizerGUI5.java:122-129 | Relaxing the polled node's edges keeps the search invariant. Either nothing changes or the total of the distances falls. |
| NetworkOptimizer.Relax | NetworkOptimizerGUI5.java:123-128 | One edge lowers the far end to dist[u] + weight and queues it exactly when that is shorter. Otherwise nothing changes. |
| NetworkOptimizer.WalkBound | NetworkOptimizerGUI5.java:118-130 | Once every reached node is relaxed, no walk from src is shorter than the distance of its end. |
| NetworkOptimizer.MinEntry | NetworkOptimizerGUI5.java:115-119 | A non-empty queue has an entry of least distance for poll to return. |
| NetworkOptimizer.TotalBelow | NetworkOptimizerGUI5.java:125-127 | Lowering some distances and raising none lowers their total, which bounds the number of queue pushes. |
| NetworkOptimization.Node.constructor | NetworkOptimizationGUI.java:102-106 | A node holds its id and coordinates. |
| NetworkOptimization.NetworkGraph.constructor | NetworkOptimizationGUI.java:122-124 | A new graph has no nodes and no edges. |
| NetworkOptimization.NetworkGraph.AddNode | NetworkOptimizationGUI.java:126-128 | Appends the node and leaves the edges unchanged. |
| NetworkOptimization.NetworkGraph.AddEdge | NetworkOptimizationGUI.java:130-132 | Appends the edge, so the total cost grows by exactly its cost. |
| NetworkOptimization.NetworkGraph.CalculateTotalCost | NetworkOptimizationGUI.java:171-177 | The total is the sum of the edge costs. |
| NetworkOptimization.NetworkGraph.CalculateTotalLatency | NetworkOptimizationGUI.java:180-186 | The total is the sum of 1000 / bandwidth over the edges, with Java's truncating division. |
| NetworkOptimization.Latency | NetworkOptimizationGUI.java:183 | For a positive bandwidth bw, the latency l satisfies l*bw <= 1000 < (l+1)*bw. For a negative one it rounds toward zero as Java does. |
| NetworkOptimization.LatencyBounds | NetworkOptimizationGUI.java:180-186 | With positive bandwidths, the total latency is between 0 and 1000 times the number of edges. |
| NetworkOptimization.CostAppend | NetworkOptimizationGUI.java:171-177 | The total cost of two edge lists one after the other is the sum of their totals. |
| NetworkOptimization.NetworkGraph.FindShortestPath | NetworkOptimizationGUI.java:135-168 | Bandwidths are kept for the nodes and start, with start at Integer.MAX_VALUE. Every edge is relaxed and no walk from start has a larger bottleneck than the bandwidth of its end. The path ends with end and is [end] when end was not reached. Otherwise it starts at start and follows edges in their direction, each of bandwidth at least end's. |
| NetworkOptimization.NetworkGraph.Search | NetworkOptimizationGUI.java:140-159 | The polling loop ends with every edge from a reached node relaxed, and each reached node's bandwidth is a bottleneck recorded through its predecessor. |
| NetworkOptimization.NetworkGraph.RelaxFrom | NetworkOptimizationGUI.java:148-158 | Scanning the edges of the polled node raises a destination, records the predecessor and queues it exactly when min(bandwidth of current, edge bandwidth) is larger. |
| NetworkOptimization.NetworkGraph.Reconstruct | NetworkOptimizationGUI.java:162-167 | Following predecessors from end and reversing gives a path ending with end, starting at start when end was reached. |
| NetworkOptimization.WalkBound | NetworkOptimizationGUI.java:146-159 | Once every edge is relaxed, no walk from start beats the recorded bandwidth of its end. |
| NetworkOptimization.PotentialFalls | NetworkOptimizationGUI.java:152-155 | Every raise lowers a finite potential, so the search loop ends. |
| PackageCollection.Solution.PackageCollection | Packagecollection4a.java:15-28 | The graph is symmetric, and it lists b for a once per road joining them. The result is what the specification function Starts gives: the least recorded round trip over every start, or Integer.MAX_VALUE. With no package and at least one location the result is 0. |
| PackageCollection.Solution.SearchFromEach | Packagecollection4a.java:23-25 | Runs dfs(i, i, 0, {}) for every location i in turn. minRoads ends at Starts. |
| PackageCollection.Solution.Dfs | Packagecollection4a.java:30-56 | The visited marks are restored on return. minRoads becomes Visit of the call and never rises. |
| PackageCollection.Solution.CollectNear | Packagecollection4a.java:41-45 | Adds exactly the packages at most two roads from current. |
| PackageCollection.Solution.BuildGraph | Packagecollection4a.java:58-70 | n lists, in which b appears for a once per road a-b or b-a. The lists are symmetric. |
| PackageCollection.Solution.AddRoad | Packagecollection4a.java:65-68 | After one road the neighbour counts equal the road counts of the roads so far. |
| PackageCollection.Solution.ShortestPath | Packagecollection4a.java:72-97 | The breadth-first search returns the fewest roads from `from` to `to`, or Integer.MAX_VALUE when `to` is unreachable. |
| PackageCollection.Solution.PushNeighbors | Packagecollection4a.java:87-93 | Every unvisited neighbour is marked, given the next distance and queued, and the search invariant is kept. |
| PackageCollection.Solution.CountPackages | Packagecollection4a.java:99-106 | The count is the number of entries equal to 1. |
| PackageCollection.Solution.constructor | Packagecollection4a.java:9-13 | A new solution has no graph, no packages and minRoads 0. |
| PackageCollection.Add32 | Packagecollection4a.java:34 | `roads + shortestPath(...)` with 32-bit wrap-around: the exact sum when it fits, and congruent to it modulo 2^32. |
| PackageCollection.RoadCountSymmetric | Packagecollection4a.java:65-68 | A road a-b counts for a's list exactly as often as for b's. |
| PackageCollection.DistIsShortest | Packagecollection4a.java:72-97 | Dist is reached by a walk of that many roads, and no walk is shorter. An unreachable target has distance Integer.MAX_VALUE. |
| PackageCollection.DistSymmetric | Packagecollection4a.java:64-68 | On the undirected roads, the distance from a to b equals the distance from b to a. |
| PackageCollection.DistSelf | Packagecollection4a.java:79-85 | A location is zero roads from itself. |
| PackageCollection.DistLayer | Packagecollection4a.java:83-96 | Dist is the first breadth-first layer that holds the target. |
| PackageCollection.CountIsSize | Packagecollection4a.java:99-106 | The package count is the number of package locations. |
| PackageCollection.NearUpToMembers | Packagecollection4a.java:41-45 | After the first i locations, exactly the package locations below i within two roads are collected. |
| PackageCollection.NoPackages | Packagecollection4a.java:32-35 | With no packages, every start records 0 roads at once. |
| PackageCollection.AsWrittenSingleLocation | Packagecollection4a.java:30-45 | One location holding the only package gives Integer.MAX_VALUE. |
| PackageCollection.CorrectedSingleLocation | Packagecollection4a.java:30-45 | With the test after collecting, the single location gives 0. |
| PackageCollection.CorrectedNearAll | Packagecollection4a.java:30-45 | With the test after collecting, a location that sees every package within two roads gives a result of at most 0. |
| TrendingHashtags.FindTopTrendingHashtags | TrendingHashtags4b.java:20-41 | The count keys are exactly the tags of the February-2024 tweets, each counted with its multiplicity. The top list is the first three of the ranking by count, then by tag. |
| TrendingHashtags.Tally | TrendingHashtags4b.java:27-30 | After one tweet's tags the map counts all tags seen so far. |
| TrendingHashtags.WordEnd | TrendingHashtags4b.java:22 | The greedy `\w+` run ends at the first non-word character or at the end of the text. |
| TrendingHashtags.SpansWellFormed | TrendingHashtags4b.java:26-28 | Successive find calls return maximal `#\w+` matches, left to right, without overlap. |
| TrendingHashtags.SpansComplete | TrendingHashtags4b.java:26-28 | A match is returned at exactly the positions where `#\w+` can start. |
| TrendingHashtags.HashtagShape | TrendingHashtags4b.java:28 | Every extracted tag is '#' followed by one or more word characters. |
| TrendingHashtags.PrecedesTransitive | TrendingHashtags4b.java:37-39 | The comparator's order is transitive. |
| TrendingHashtags.StrLessTotal | TrendingHashtags4b.java:38 | Two different tags are always ordered one way or the other by compareTo. |
| TrendingHashtags.FirstUnique | TrendingHashtags4b.java:37-39 | The comparator's first tag is unique, so the ranking is determined. |
| TrendingHashtags.Sorted | TrendingHashtags4b.java:35-39 | The sorted entries list every counted tag once, strictly in the comparator's order. |
| TrendingHashtags.TopThreeRanking | TrendingHashtags4b.java:35-41 | The top list has min(count size, 3) entries from the map, in the comparator's order. Every tag left out comes after the third. |
| TrendingHashtags.CountsAppend | TrendingHashtags4b.java:29 | `put(h, getOrDefault(h, 0) + 1)` counts one more occurrence of h. |
| CrawlerFileName.Sanitize | WebCrawler6b.java:73 | Same length. ASCII letters and digits are kept and every other character becomes '_'. |
| CrawlerFileName.FileName | WebCrawler6b.java:117 | The name is the sanitised URL followed by ".txt", and its stem has only letters, digits and '_'. |
| CrawlerFileName.SanitizeIdempotent | WebCrawler6b.java:73 | Sanitising twice is sanitising once. |
| CrawlerFileName.FileNameCollision | WebCrawler6b.java:73 | URLs that differ only in non-alphanumeric characters map to the same file. |
| Tetris.Rotated | TetrisGame3b.java:243-251 | An r-by-c shape becomes a c-by-r shape. |
| Tetris.RotatedCells | TetrisGame3b.java:247 | Cell (i, j) moves to (j, r-1-i). |
| Tetris.FourRotations | TetrisGame3b.java:284-291 | Four quarter turns give back the shape, so three more rotations undo one. |
| Tetris.FourTurns | TetrisGame3b.java:286-289 | The rotate method applied four times restores the shape. |
| Tetris.TwoRotations | TetrisGame3b.java:243-251 | Two quarter turns are a half turn. |
| Tetris.NoCollisionInBounds | TetrisGame3b.java:307-318 | A position that does not collide keeps every block cell on the board, over an empty cell. |
| Tetris.PlacedCollides | TetrisGame3b.java:320-329 | After a block is placed, the same block at the same position collides. |
| Tetris.Cleared | TetrisGame3b.java:331-351 | After clearing, the board has the same number of rows and none of them is full. |
| Tetris.ClearedFilled | TetrisGame3b.java:331-351 | Clearing removes exactly Width filled cells per cleared row. |
| Tetris.KeptFilled | TetrisGame3b.java:331-351 | The filled cells are those of the kept rows plus Width per full row. |
| Tetris.NextSpeed | TetrisGame3b.java:363-367 | The speed is unchanged, or 50 lower when the score is a multiple of 500 and the speed is above 100. It never drops below 100. |
| Tetris.ShapesFit | TetrisGame3b.java:256-263 | Each of the three shapes fits on the board at the spawn position. |
| Tetris.Block.constructor | TetrisGame3b.java:209-213 | A new block starts at column 10/2 - width/2 in row 0. |
| Tetris.Block.MoveDown | TetrisGame3b.java:227-229 | y grows by one and nothing else changes. |
| Tetris.Block.MoveUp | TetrisGame3b.java:239-241 | y drops by one and nothing else changes. |
| Tetris.Block.MoveLeft | TetrisGame3b.java:231-233 | x drops by one and nothing else changes. |
| Tetris.Block.MoveRight | TetrisGame3b.java:235-237 | x grows by one and nothing else changes. |
| Tetris.Block.Rotate | TetrisGame3b.java:243-251 | The shape becomes its quarter turn and the position is unchanged. |
| Tetris.TetrisGame.constructor | TetrisGame3b.java:117-123 | Empty 20-by-10 board, score 0, speed 500. The first block is current, the queue is empty and there is no next block. |
| Tetris.TetrisGame.GenerateNewBlock | TetrisGame3b.java:255-268 | Queues a block of the chosen shape, which moves to current only when there is none. |
| Tetris.TetrisGame.Poll | TetrisGame3b.java:302 | Returns the head of the queue, or null when the queue is empty. |
| Tetris.TetrisGame.IsCollision | TetrisGame3b.java:307-318 | True exactly when a nonzero cell lands below the board, beside it or on a filled cell. |
| Tetris.TetrisGame.MoveLeft | TetrisGame3b.java:270-275 | The block moves one column left unless that collides, in which case it stays. |
| Tetris.TetrisGame.MoveRight | TetrisGame3b.java:277-282 | The block moves one column right unless that collides, in which case it stays. |
| Tetris.TetrisGame.Rotate | TetrisGame3b.java:284-291 | The shape becomes its quarter turn unless that collides, in which case it is unchanged. |
| Tetris.TetrisGame.MoveDown | TetrisGame3b.java:293-305 | The block moves down when free, and nothing else changes. Otherwise it is placed, full rows are cleared and the score rises by 100 per cleared row. Then the old next block (or, when there is none, a new block) becomes current, next becomes the old queue head, and a new block is queued exactly when an old next block existed. |
| Tetris.TetrisGame.StepDown | TetrisGame3b.java:294-296 | Reports whether one row down collides, and moves the block only if it does not. |
| Tetris.TetrisGame.Land | TetrisGame3b.java:297-303 | The board becomes the cleared placed board and the score grows by 100 times the full rows. Then the blocks are handed on as HandOff states. |
| Tetris.TetrisGame.HandOff | TetrisGame3b.java:301-303 | The next block becomes current, or a new block when there is none. Next becomes the old queue head, or null. The queue then holds the new block when the old next block existed, and is empty otherwise. The board and score are unchanged. |
| Tetris.TetrisGame.PlaceBlock | TetrisGame3b.java:320-329 | The board becomes the board with every cell under the block set to 1. |
| Tetris.TetrisGame.ClearRows | TetrisGame3b.java:331-351 | The board becomes the cleared board, and the count is the number of full rows. |
| Tetris.TetrisGame.ShiftDown | TetrisGame3b.java:343-346 | Row i is removed, the rows above move down one and an empty row enters at the top. |
| Tetris.TetrisGame.IsGameOver | TetrisGame3b.java:353-361 | True exactly when the top row has a filled cell. |
| Tetris.TetrisGame.AdjustSpeed | TetrisGame3b.java:363-367 | The speed becomes NextSpeed of the old speed and the score. |
| Tetris.TetrisGame.RestartGame | TetrisGame3b.java:370-379 | Empty board, score 0 and speed 500. The falling block is kept, the new block becomes next and the queue is empty. |
| Tetris.TetrisGame.Tick | TetrisGame3b.java:191-199 | One timer tick. The moveDown step has its full effect on block, board, score, next block and queue, as MoveDown states. The result is the game-over test of the new board, and the speed becomes NextSpeed of the old speed and the new score. |

## Left out

- The Swing user interfaces are not modelled: painting, buttons, dialogs, labels, the `JTextArea` output and the `Timer` object. Each timer tick is `Tetris.TetrisGame.Tick`. The node lookup by id before `findShortestPath` is not modelled either.
- The "Optimize Network" button of the second network GUI is not modelled: its handler is a placeholder that only shows a message.
- `WebCrawler6b` threads, URL streams and file writing are not modelled, because they are concurrency and I/O. Only the file-name rule is modelled. `WebCrawler.java` and `Main6a.java` are not part of this model.
- Printing in the `main` methods and the printed hashtag table are not modelled. The `main` inputs appear as example lemmas and methods.
- `Math.random()` in `generateNewBlock` becomes the `pick` parameter.
- Priority queues are modelled as multisets. `NetworkOptimizer` and `KthSmallestProduct` poll a least entry. `NetworkOptimization.NetworkGraph.Search` polls any queued node. Its key `-bandwidths.get(node)` changes while the node sits in the heap, so `poll()` need not return the node of largest bandwidth. Ties between equal entries are not fixed.
- `HashMap` and `HashSet` become maps and sets. The order of the map entries before sorting is not modelled.
- `List.sort` becomes the stable insertion sort `StableSort.SortBy`, matching the stability the Java documentation guarantees.
- Java `int` overflow is not modelled in these places: totals, costs and sums; products in KthSmallestProduct; `dist[u] + weight` in NetworkOptimizer; `1 + worstCase`; and `b.getValue() - a.getValue()` in the hashtag comparator. All are mathematical integers. The exception is `roads + shortestPath(...)` in PackageCollection, which wraps as in Java (`PackageCollection.Add32`).
- ClosestPair.FindClosestPair: requires every pair distance to be below `Integer.MAX_VALUE`. It also requires `xs.Length <= ys.Length`. Java throws exactly when there are at least two x-coordinates and fewer y-coordinates, because the pair loop then reads `y_coords` out of range. With fewer than two x-coordinates it reads no y-coordinate and returns `[0, 0]` for any `y_coords`, for example `xs = [1]`, `ys = []`. The precondition excludes those inputs on purpose.
- NetworkOptimizer.ShortestPath: requires non-negative bandwidths. With a negative bandwidth cycle, the Java loop does not end.
- KthSmallestProduct.FindKthSmallestProduct: requires `k <= |returns1| * |returns2|` and a non-empty `returns2` when `returns1` is non-empty. Java throws in the other cases, from `poll()` returning null or from `returns2[0]`.
- KthSmallestProduct.FindKthSmallestProduct: the k-th smallest property is stated only for non-negative `returns1` values. For negative factors, a finding below gives a counterexample.
- KthSmallestProduct.ExampleTwo: the result 0 is proved through the sign-aware walk. The exact six-poll run of the as-written code on that input is not stated.
- NetworkConnection.MinCost: requires `0 <= n <= |modules|` and connection endpoints in `0..n`. Java always throws for `n > |modules|`, when it reads `modules[i]`. It throws on a bad endpoint only when `find` reaches that edge before the `edgesUsed == n` break. The precondition also excludes, on purpose, inputs where Java returns normally: a bad endpoint in an edge after the break (`minCost(1, [1], [[5, 6, 100]])` returns 1), and `n = -1` with no connections (which returns 0). For `n <= -2`, `new UnionFind(n + 1)` throws. Minimality of the spanning tree is not proved; the model proves that the run is Kruskal's choice over the sorted edges.
- NetworkOptimizer.KruskalMST: minimality of the spanning tree is not proved.
- NetworkOptimizer.Graph.constructor: requires `V >= 0`. For a negative V, `new LinkedList[V]` throws `NegativeArraySizeException`.
- NetworkOptimizer.Graph.AddEdge: requires both ends to be nodes. Otherwise `adjList[src]` or `adjList[dest]` throws. A valid `src` with an invalid `dest` leaves the edge in `src`'s list before the throw; that partial update is not modelled.
- NetworkOptimization.NetworkGraph.FindShortestPath: requires every edge destination to be a node or start, where Java unboxes a missing map entry and throws. It also requires bandwidths within `int` range.
- NetworkOptimization.NetworkGraph.CalculateTotalLatency: requires non-zero bandwidths. Java throws `ArithmeticException` on a zero bandwidth.
- PackageCollection.Solution.PackageCollection: requires `packages.Length <= Integer.MAX_VALUE` and roads with two endpoints in range. Java throws on a road out of range.
- PackageCollection.Solution.Dfs: requires the `roads` argument to equal the number of locations marked as visited. Every call from `PackageCollection` meets this. The distance `Dist` is stated through breadth-first layers below the number of locations.
- PackageCollection.Solution: the `Set<Integer>` copy passed to each recursive call is a value, so aliasing is not modelled.
- CriticalTemperature.MinMeasurement: takes non-negative `k` and `n`, and requires `k >= 1` unless `n == 0`. For k = 0 and n > 0 the base loop writes `dp[1]`, which does not exist. A negative k or n makes Java throw, either for a negative array size or for the index -1 in `dp[k][n]`.
- CriticalTemperature.ExampleTwoSix: takes the level count as a parameter fixed to 6, so the table can be unfolded row by row. The third example, `minMeasurement(3, 14)`, is not proved.
- CriticalTemperature: the header comment of `CriticalTemperature1a.java` describes a different table, the levels checkable with m moves. The model follows the code's table over first drop levels.
- TrendingHashtags: `String.compareTo` compares UTF-16 code units. The model compares characters, which agree for the ASCII tags `\w` matches.
- Tetris: the timer in the code keeps its first delay, and `gameSpeed` is only a field that `adjustSpeed` lowers. The model keeps it as that field. Because the score is 0 at the start, `adjustSpeed` lowers the speed on every early tick; the model states that as written.
- Several Java methods are split into helper methods that each prove one loop: `HeapWalk`/`PollTimes`/`PollOnce`, `Search`/`RelaxFrom`/`Reconstruct`, `Union`/`FindBoth`/`RaiseRank`, `StepDown`/`Land`/`HandOff`, `ShiftDown` and `FillRow`/`FillCell`. Each helper is still a method over the same objects.

## Findings

| source | as written | input that shows it | evidently intended | confidence | as-written member | corrected member |
|---|---|---|---|---|---|---|
| KthSmallestProduct1b.java:39-56 | every row starts at `returns2[0]` and moves right, so a row with a negative factor yields its products in descending order | `returns1 = [-4,-2,0,3]`, `returns2 = [2,4]`, `k = 1` returns -8 | the k-th smallest product, -16 here, as the example in the header comment lists | high, not executed | KthSmallestProduct.AsWrittenMissesMinimum | KthSmallestProduct.SignAwareFindsMinimum |
| Packagecollection4a.java:32-45 | the "all collected" test runs only on entry to `dfs`, before the packages near the current location are collected | `packages = [1]`, `roads = []` returns `Integer.MAX_VALUE` | 0: the only package is at the start | high, not executed | PackageCollection.AsWrittenSingleLocation | PackageCollection.CorrectedSingleLocation |
| CriticalTemperature1a.java:38-41 | the base loop fills `dp[1][j] = j` only for `j < n`, so `dp[1][n]` stays 0 | `minMeasurement(1, 2)` returns 0 | n measurements for one sample, as the comment at line 15 says | medium, not executed | CriticalTemperature.AsWrittenOneSample | CriticalTemperature.Measurements |
