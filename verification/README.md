# CSE 373 data structures and algorithms, modelled in Dafny

This project models the core of a course repository of Java data structures
and the algorithms built on them:

- an indexed binary min-heap, `ArrayHeapMinPQ`, whose items are found
  through a separately chained hash table;
- the A* shortest-paths solver, `AStarSolver`, which runs on that queue;
- seam carving, which finds a horizontal or vertical seam of least energy
  by running A* on a graph of picture cells;
- autocomplete: `Term` and its three orders, and two `allMatches`
  implementations over terms sorted by query (binary and linear search);
- a sentinel-linked deque and the recursive palindrome checks that use it;
- a 2-d tree point set with a pruned nearest-point search, checked against a
  linear scan.

Each source file becomes one Dafny module:

| file | module |
|---|---|
| `wrappers.dfy` | `Wrappers` (Option and Result) |
| `min_pq.dfy` | `MinPQ` |
| `java_hash.dfy` | `JavaHash` (the queue's bucket index in 32-bit arithmetic) |
| `astar.dfy` | `AStar` |
| `seam_carving.dfy` | `SeamCarving` |
| `term.dfy` | `Terms` |
| `autocomplete.dfy` | `Autocomplete` (the parts both range searches share) |
| `binary_range_search.dfy` | `BinaryRanges` |
| `linear_range_search.dfy` | `LinearRanges` |
| `range_search_agreement.dfy` | `RangeSearchAgreement` |
| `linked_deque.dfy` | `Deques` |
| `palindrome.dfy` | `Palindromes` |
| `kd_point.dfy` | `KDPoints` |
| `kdtree.dfy` | `KDTrees` |
| `naive_point_set.dfy` | `NaivePoints` |

Where the source updates state in place, the model does too:

- The priority queue, the solver, the deque and both point sets are classes
  whose methods update fields.
- The queue's helpers are methods on the values of those fields:
  - `swim` and `sink` are loops proved to restore heap order;
  - `resizeKey` is a loop;
  - `addAllKey` rebuilds the chains of an array of buckets.
- The A* constructor's loop lives in `AStar.Search`:
  - its invariant is that the records of seen vertices form a tree rooted
    at the start;
  - every vertex taken from the fringe has been expanded;
  - the goal has not yet been taken;
  - every fringe priority is the recorded distance plus the heuristic;
  - with a zero heuristic, every vertex taken from the fringe is recorded
    at the weight of a shortest path (Dijkstra's invariant), so the solution
    is a shortest path.
- Seam carving proves that the seam a solved search reads off has the
  least energy of all seams: every source-to-sink path weighs the energy of
  the seam it spells, and every seam is spelled by such a path.
- The pure parts are functions with lemmas about them:
  - the term comparisons;
  - `matchesFirst`/`matchesLast`;
  - the 2-d tree's insertion and search.

Java values become:

- `double` becomes `real`.
- `long` weights become `nat`.
- `String` becomes `seq<char>`.
- `null` becomes `Option`.
- Exceptions become `Result` failures.

## Model

| member | source | states |
|---|---|---|
| MinPQ.BucketHoldsItem | heap/ArrayHeapMinPQ.java:191-203 | in a well-formed table an item is queued exactly when the one chain its hash selects holds it, so `contains` need search no other chain |
| MinPQ.AncestorBound | heap/ArrayHeapMinPQ.java:122-141 | in a heap-ordered array the root's priority is at most that of every slot |
| MinPQ.SwimStep | heap/ArrayHeapMinPQ.java:123-126 | swapping a slot smaller than its parent moves the only order violation one level up |
| MinPQ.SwimDone | heap/ArrayHeapMinPQ.java:123 | when swim stops (at the root or under a parent no larger) the heap is ordered |
| MinPQ.SinkStep | heap/ArrayHeapMinPQ.java:130-139 | swapping a slot with its smaller child, when that child is smaller, moves the violation one level down |
| MinPQ.SinkDone | heap/ArrayHeapMinPQ.java:135-137 | when sink stops (no child is smaller) order holds everywhere except possibly above the starting slot |
| MinPQ.RemoveRootKeepsAround | heap/ArrayHeapMinPQ.java:230-232 | moving the last slot to the root leaves order intact except at the root, ready for sink(1) |
| MinPQ.AppendKeepsOrder | heap/ArrayHeapMinPQ.java:181-183 | appending a node leaves order intact except at the new slot, ready for swim |
| MinPQ.ChangeKeepsAround | heap/ArrayHeapMinPQ.java:263-265 | changing one priority breaks order only around that slot, which sink then swim repair |
| MinPQ.SwapShape | heap/ArrayHeapMinPQ.java:146-152 | after a swap each node still records its own slot and no priority changes |
| MinPQ.AppendShape | heap/ArrayHeapMinPQ.java:181-182 | an appended node records the new last slot |
| MinPQ.PopShape | heap/ArrayHeapMinPQ.java:231 | dropping the last slot drops exactly its node |
| MinPQ.NodeCount | heap/ArrayHeapMinPQ.java:273-275 | the number of nodes is the heap length minus the unused slot 0 |
| MinPQ.ReprioritizeShape | heap/ArrayHeapMinPQ.java:263 | setting a node's priority keeps every node at its recorded slot |
| MinPQ.RootIsMinimal | heap/ArrayHeapMinPQ.java:211-216 | the item in slot 1 is queued and has the least priority of all queued items |
| MinPQ.SmallerChild | heap/ArrayHeapMinPQ.java:131-134 | the chosen child is a child of the slot and no larger than its sibling |
| MinPQ.Swap | heap/ArrayHeapMinPQ.java:146-152 | exchanges two slots and both nodes' loc, keeping every priority |
| MinPQ.Swim | heap/ArrayHeapMinPQ.java:122-127 | from a heap ordered except at slot k, produces a heap-ordered array with the same node priorities |
| MinPQ.Sink | heap/ArrayHeapMinPQ.java:129-141 | from a heap ordered except below slot k, produces one ordered except possibly above k, fully ordered whenever it moved the node |
| MinPQ.RemoveRoot | heap/ArrayHeapMinPQ.java:228-232 | takes the root's item, removes exactly its node and leaves the heap ordered |
| MinPQ.Append | heap/ArrayHeapMinPQ.java:181-183 | adds exactly one node for the item with its priority and leaves the heap ordered |
| MinPQ.Reprioritize | heap/ArrayHeapMinPQ.java:263-265 | gives the item its new priority, keeps the same items and leaves the heap ordered |
| MinPQ.TableAdd | heap/ArrayHeapMinPQ.java:177-180 | pushing the item onto the front of its bucket's chain gives a table of exactly the old items plus it |
| MinPQ.TableRemove | heap/ArrayHeapMinPQ.java:234-243 | cutting the item out of its chain gives a table of exactly the other items |
| MinPQ.Unlink | heap/ArrayHeapMinPQ.java:234-244 | the chain walk finds the item in its bucket and unlinks it, keeping the table size |
| MinPQ.Detach | heap/ArrayHeapMinPQ.java:224-244 | removes the root item from heap and table; the queue holds the old contents minus it |
| MinPQ.InsertNode | heap/ArrayHeapMinPQ.java:177-183 | inserts a new item into table and heap; the contents gain it with its priority |
| MinPQ.ChangeNode | heap/ArrayHeapMinPQ.java:259-266 | the contents map the item to the new priority and the queue invariant holds again |
| MinPQ.ArrayHeapMinPQ.constructor | heap/ArrayHeapMinPQ.java:75-87 | an empty queue with four buckets, 2^2, the power of two the table size always is |
| MinPQ.ArrayHeapMinPQ.ResizeKey | heap/ArrayHeapMinPQ.java:98-108 | a table of the new size whose chains hold exactly the queued items, each in the bucket its hash selects |
| MinPQ.ArrayHeapMinPQ.AddAllKey | heap/ArrayHeapMinPQ.java:110-117 | every item of the old chain is pushed into the bucket it hashes to in the new table, and nothing else is added |
| MinPQ.ArrayHeapMinPQ.Add | heap/ArrayHeapMinPQ.java:166-184 | IllegalArgumentException exactly when the item is already queued (contents unchanged); otherwise the contents gain the item with its priority; doubling a crowded table keeps its size a power of two |
| MinPQ.ArrayHeapMinPQ.Contains | heap/ArrayHeapMinPQ.java:191-203 | true exactly when the item is queued, and then goalNode is that item's node |
| MinPQ.ArrayHeapMinPQ.Size | heap/ArrayHeapMinPQ.java:273-275 | the number of queued items |
| MinPQ.ArrayHeapMinPQ.GetSmallest | heap/ArrayHeapMinPQ.java:211-216 | NoSuchElementException exactly when empty; otherwise a queued item of least priority |
| MinPQ.ArrayHeapMinPQ.RemoveSmallest | heap/ArrayHeapMinPQ.java:224-251 | NoSuchElementException on an empty queue; otherwise returns an item of least priority and removes exactly it |
| MinPQ.ArrayHeapMinPQ.MaybeShrink | heap/ArrayHeapMinPQ.java:247-249 | the optional shrink of the table keeps the queue valid, its table size a power of two of at least 4, and its contents unchanged |
| MinPQ.ArrayHeapMinPQ.JavaBucket | heap/ArrayHeapMinPQ.java:178 | in a valid queue whose table has at most 2^31 buckets, `hashCode() % hashSize` in 32-bit arithmetic is an index of the table, even for the item hash Integer.MIN_VALUE |
| MinPQ.ArrayHeapMinPQ.ChangePriority | heap/ArrayHeapMinPQ.java:259-266 | NoSuchElementException exactly when the item is absent (contents unchanged); otherwise the item gets the new priority |
| JavaHash.Negate | heap/ArrayHeapMinPQ.java:67-68 | Java's int negation: the negative value for every int except Integer.MIN_VALUE, which it leaves unchanged |
| JavaHash.Rem | heap/ArrayHeapMinPQ.java:178 | Java's %: a remainder in 0..n-1 for a non-negative dividend and in -(n-1)..0 for a negative one |
| JavaHash.NodeHash | heap/ArrayHeapMinPQ.java:65-71 | the node hash is non-negative exactly when the item's hash is not Integer.MIN_VALUE |
| JavaHash.Pow2DividesMinInt | heap/ArrayHeapMinPQ.java:178 | every power of two up to 2^31 divides 2^31; the queue's table size is always such a power (`ArrayHeapMinPQ.Valid` keeps it 2^HashExp), so Integer.MIN_VALUE falls in bucket 0 |
| JavaHash.Bucket | heap/ArrayHeapMinPQ.java:178 | for a power-of-two table size the bucket index is a valid index even for the hash left negative |
| JavaHash.BucketNegativeForOtherSizes | heap/ArrayHeapMinPQ.java:178 | the same index is negative (-2) for Integer.MIN_VALUE with a table of size 3 |
| AStar.NegativeEdgeMakesCycle | astar/AStarSolver.java:93-96 | a negative edge back to a removed vertex relinks it, so two records point at each other and the walk back at lines 62-66 would never end |
| AStar.RelaxRecordFacts | astar/AStarSolver.java:91-106 | relax records an unseen vertex, replaces a record only when the new distance is strictly smaller, and never raises a recorded distance |
| AStar.RelaxFringeFacts | astar/AStarSolver.java:91-106 | relax queues an unseen vertex with priority weight + h, and reprioritises a seen one only when it improves and is still queued |
| AStar.ChangeIfQueued | astar/AStarSolver.java:97-99 | changes the priority of a vertex still in the fringe and leaves the fringe alone otherwise |
| AStar.Relax | astar/AStarSolver.java:91-106 | the new records and the new fringe are those the two relax rules give |
| AStar.RelaxEdgesUnfold | astar/AStarSolver.java:77-79 | relaxing j edges is relaxing j-1 edges and then the j-th with distance distTo + weight |
| AStar.RelaxEdgesKeys | astar/AStarSolver.java:76-79 | after relaxing the edges every fringe vertex has a record and every edge target is seen |
| AStar.RelaxEdgesSettled | astar/AStarSolver.java:97-104 | a vertex out of the fringe after relaxing was already seen and out of it before (settled vertices are never re-queued) |
| AStar.RelaxEdgesNext | astar/AStarSolver.java:77-79 | one more relax step extends the fold over the neighbour list by one edge |
| AStar.RelaxEdgesPriorities | astar/AStarSolver.java:91-105 | relaxing the edges keeps every fringe priority the vertex's recorded distance plus its heuristic |
| AStar.RelaxEdgesBounds | astar/AStarSolver.java:77-79 | after relaxing, no recorded distance has grown and every neighbour is recorded at most distTo(cur) + the edge's weight |
| AStar.RelaxEdgesKeepsNearer | astar/AStarSolver.java:94 | records no farther than the expanded vertex are left untouched, because relax only replaces a record by a strictly smaller distance |
| AStar.RelaxEdgesFringeFarther | astar/AStarSolver.java:77-79 | when the fringe held nothing nearer than the expanded vertex, neither does the fringe after relaxing its edges |
| AStar.RelaxNeighbors | astar/AStarSolver.java:76-79 | records and fringe afterwards are the fold of relax over the neighbour list in order |
| AStar.RelaxKeepsLinks | astar/AStarSolver.java:94-96 | with non-negative weights a relax keeps the records a tree rooted at the start whose predecessor links strictly decrease |
| AStar.Cheapest | astar/AStarSolver.java:76-78 | the least weight among the listed edges to a vertex: none exactly when there is no such edge, else the weight of one of them and no more than any |
| AStar.EdgeCostFacts | astar/AStarSolver.java:76-78 | the cost of an edge used by a path is the weight of one listed edge, no more than any parallel edge, and non-negative under non-negative weights |
| AStar.PathWeightPrefix | astar/AStarSolver.java:78 | with non-negative weights a prefix of a path weighs between 0 and the whole path's weight |
| AStar.PrependPredecessor | astar/AStarSolver.java:62-65 | prepending a vertex's recorded predecessor to a predecessor path gives a predecessor path |
| AStar.WalkBackStep | astar/AStarSolver.java:62-66 | each step of the walk back reaches a vertex not walked yet and extends the path |
| AStar.WalkBack | astar/AStarSolver.java:60-66 | the solution built by following edgeTo from the goal leads from the start to the goal along graph edges, each vertex the recorded predecessor of the next |
| AStar.PredecessorPathWeight | astar/AStarSolver.java:60-66 | the path followed back through edgeTo weighs at most the goal's recorded distance |
| AStar.RelaxEdgesLinks | astar/AStarSolver.java:76-79 | relaxing all edges of a seen vertex keeps the records a tree rooted at the start and leaves that vertex's record unchanged |
| AStar.ExpandKeepsSearching | astar/AStarSolver.java:53-79 | one iteration of the search loop keeps the search invariant |
| AStar.SettleShortest | astar/AStarSolver.java:53-79 | settling a vertex at a shortest distance, while settled records stay as they were, keeps every settled distance a shortest one |
| AStar.SettleRelaxed | astar/AStarSolver.java:53-79 | once the expanded vertex's edges are relaxed and no distance grew, every edge out of a settled vertex stays relaxed |
| AStar.SettleNearer | astar/AStarSolver.java:53-79 | when the new fringe is no nearer than the expanded vertex, no settled vertex is farther than a fringe vertex |
| AStar.PathMeetsFringe | astar/AStarSolver.java:53-56 | every path from the start to a vertex not yet settled passes a fringe vertex recorded no farther than the path weighs |
| AStar.SmallestIsShortest | astar/AStarSolver.java:55-60 | with a zero heuristic the vertex removeSmallest returns is recorded at the weight of a shortest path to it |
| AStar.ExpandKeepsSettled | astar/AStarSolver.java:53-79 | with a zero heuristic, taking the smallest vertex and relaxing its edges keeps every settled distance a shortest one |
| AStar.ExpandStep | astar/AStarSolver.java:53-79 | one pass of the loop that misses the goal keeps the search invariant, fringe priorities distance + heuristic, and with a zero heuristic the settled distances shortest |
| AStar.PathStaysInside | astar/AStarSolver.java:83-84 | a path from inside a set closed under edges never leaves it |
| AStar.ClosedSetBlocksPaths | astar/AStarSolver.java:83-84 | when every seen vertex is expanded and the goal is unseen, no path leads from the start to the goal |
| AStar.SearchOk | astar/AStarSolver.java:82-88 | the three ways the loop ends give the promised outcome |
| AStar.Search | astar/AStarSolver.java:38-89 | the search ends SOLVED with a predecessor path weighing at most the recorded weight (exactly it, and no path shorter, with a zero heuristic), UNSOLVABLE with an empty fringe, or TIMEOUT with the budget spent |
| AStar.AStarSolver.constructor | astar/AStarSolver.java:38-89 | SOLVED: the solution is a predecessor path from start to end weighing at most solutionWeight, and with a zero heuristic exactly it, with no shorter path; UNSOLVABLE: no path leads from start to end |
| AStar.AStarSolver.Outcome | astar/AStarSolver.java:109-111 | UNSOLVABLE means the fringe is empty and no path leads from start to goal; TIMEOUT means the budget was spent with vertices left |
| AStar.AStarSolver.Solution | astar/AStarSolver.java:114-116 | when solved, a path from start to goal in which each vertex is the recorded predecessor of the next; empty otherwise |
| AStar.AStarSolver.SolutionWeight | astar/AStarSolver.java:119-121 | when solved, the goal's recorded distance (non-negative), no less than the solution's weight, and with a zero heuristic equal to it and to the shortest path's weight; 0 otherwise |
| AStar.AStarSolver.NumStatesExplored | astar/AStarSolver.java:123-127 | the removals from the fringe, minus the goal's own removal when solved |
| SeamCarving.SamePoint | seamcarving/AStarSeamCarver.java:204-215 | point equality compares x and y only, which is full equality among points of one direction |
| SeamCarving.Wrap | seamcarving/AStarSeamCarver.java:52-67 | the wrapped neighbour columns and rows are x-1, x+1, y-1, y+1 modulo the size, always in range |
| SeamCarving.Energy | seamcarving/AStarSeamCarver.java:44-79 | an exception exactly when x or y is outside the picture (x checked first); otherwise the gradient at the wrapped neighbours |
| SeamCarving.Neighbors | seamcarving/AStarSeamCarver.java:119-171 | the edge list the loops build is the specified neighbour list, or the energy exception |
| SeamCarving.AddEdges | seamcarving/AStarSeamCarver.java:145-147 | the loop adds one edge per index from start to end, weighted by the target's energy |
| SeamCarving.SeamGraph | seamcarving/AStarSeamCarver.java:117-176 | the seam graph meets what optimal A* search needs: no edge weight is negative and the heuristic is zero towards every goal |
| SeamCarving.EdgesUpToFacts | seamcarving/AStarSeamCarver.java:145-147 | the edge loop succeeds exactly when every target has an energy, and its k-th edge leads to the k-th target with that energy |
| SeamCarving.NeighborsKeepDirection | seamcarving/AStarSeamCarver.java:119-171 | every edge leaves the given point, keeps its direction and has a non-negative weight |
| SeamCarving.NeighborRange | seamcarving/AStarSeamCarver.java:127-165 | outside the last line the targets are the whole first line from the source, or the clamped range of the three adjacent cells |
| SeamCarving.LastLineReachesSink | seamcarving/AStarSeamCarver.java:124-126 | a point on the last column (or row) has exactly one edge, of weight 0, to the sink |
| SeamCarving.SourceReachesFirstLine | seamcarving/AStarSeamCarver.java:128-131 | the source has one edge to each cell of the first column (or row), weighted by that cell's energy |
| SeamCarving.InnerCellReachesNextLine | seamcarving/AStarSeamCarver.java:133-147 | an inner cell has 1 to 3 edges, to the adjacent in-picture cells of the next line, weighted by their energy |
| SeamCarving.NeighborsOfCells | seamcarving/AStarSeamCarver.java:119-171 | the neighbour list of the source or of any cell never hits the energy exception |
| SeamCarving.SinkIsADeadEnd | seamcarving/AStarSeamCarver.java:119-171 | the sink has no usable edges (its would-be targets lie outside the picture) |
| SeamCarving.PathShape | seamcarving/AStarSeamCarver.java:119-171 | a path from the source visits one cell per line in order, moving at most one step across, and then the sink |
| SeamCarving.SeamPathLength | seamcarving/AStarSeamCarver.java:87-91 | a path from source to sink has exactly length + 2 vertices |
| SeamCarving.PathGivesSeam | seamcarving/AStarSeamCarver.java:88-92 | reading the across coordinate of the inner path vertices gives a seam: in range, neighbouring entries differ by at most 1 |
| SeamCarving.EdgeWeightIsEnergy | seamcarving/AStarSeamCarver.java:145-147 | every listed edge weighs the energy of its target cell, and 0 into the sink |
| SeamCarving.EdgeCostIsEnergy | seamcarving/AStarSeamCarver.java:119-171 | the cost of any edge of the seam graph is the energy of its target cell (0 into the sink), and it keeps the direction |
| SeamCarving.WeightIsEnergy | seamcarving/AStarSeamCarver.java:145-147 | a path whose edges each cost the energy of the cell they enter weighs the energy of the seam those cells spell |
| SeamCarving.PathPrefixWeight | seamcarving/AStarSeamCarver.java:119-171 | up to each line, a path from the source weighs the energy of the seam its cells spell |
| SeamCarving.SeamPathWeight | seamcarving/AStarSeamCarver.java:119-171 | a path from source to sink weighs exactly the energy of the seam it spells |
| SeamCarving.SeamPathIsPath | seamcarving/AStarSeamCarver.java:119-171 | every seam of the picture is spelled by a path of the seam graph from source to sink |
| SeamCarving.ShortestPathIsLeastEnergySeam | seamcarving/AStarSeamCarver.java:81-115 | the seam spelled by a shortest source-to-sink path has no more energy than any seam |
| SeamCarving.SinkReachable | seamcarving/AStarSeamCarver.java:119-171 | when there is a row (column) to cross, some path leads from the source to the sink |
| SeamCarving.SolutionSpellsSeam | seamcarving/AStarSeamCarver.java:87-92 | the across coordinates of a shortest path's inner vertices form a seam of least energy |
| SeamCarving.CopyAcross | seamcarving/AStarSeamCarver.java:88-92 | entry i of the new array is the across coordinate of path element i + 1 |
| SeamCarving.SeamOfPath | seamcarving/AStarSeamCarver.java:87-92 | the seam read off a least-weight path from source to sink has one entry per line, is a seam and has least energy |
| SeamCarving.FindSeam | seamcarving/AStarSeamCarver.java:81-115 | runs the solver on the seam graph from source to sink; null exactly when it did not solve, which with a row (column) to cross means a timeout; otherwise the seam read off the solution, of least energy among all seams |
| SeamCarving.FindHorizontalSeam | seamcarving/AStarSeamCarver.java:81-97 | null exactly when unsolved, only on a timeout when the picture has a row; otherwise width entries, each a row, neighbouring ones at most 1 apart, of least energy among all such seams |
| SeamCarving.FindVerticalSeam | seamcarving/AStarSeamCarver.java:99-115 | null exactly when unsolved, only on a timeout when the picture has a column; otherwise height entries, each a column, neighbouring ones at most 1 apart, of least energy among all such seams |
| Terms.NewTerm | autocomplete/Term.java:13-21 | a term exactly when the query is present and the weight non-negative; a null query is refused first |
| Terms.CompareStringsZero | autocomplete/Term.java:31 | String.compareTo is 0 exactly for equal strings |
| Terms.CompareStringsMeaning | autocomplete/Term.java:31 | String.compareTo is negative exactly when the first string comes first lexicographically (a proper prefix first) |
| Terms.CompareStringsAntisymmetric | autocomplete/Term.java:31 | swapping the strings negates the comparison |
| Terms.CompareStringsTransitive | autocomplete/Term.java:31 | the comparison is transitive |
| Terms.CompareStringsStrict | autocomplete/Term.java:31 | a chain with one strict step is strict |
| Terms.CompareTo | autocomplete/Term.java:27-32 | negative exactly when this query comes lexicographically first, zero exactly when the queries are equal |
| Terms.CompareToByReverseWeightOrder | autocomplete/Term.java:35-46 | negative iff this weight is larger, zero iff equal, positive iff smaller |
| Terms.QueryPrefix | autocomplete/Term.java:79-87 | an exception exactly when r < 0; otherwise a prefix of the query of length min(r, length) |
| Terms.CompareToByPrefixOrder | autocomplete/Term.java:54-67 | an exception exactly when r < 0; otherwise it compares the first min(r, both lengths) characters: zero iff they agree, negative iff this one comes first |
| Terms.Equals | autocomplete/Term.java:95-105 | true exactly when query and weight are equal |
| Autocomplete.CompareTotal | autocomplete/BinaryRangeSearch.java:24 | both sort orders are total: a > b implies b < a |
| Autocomplete.CompareTransitive | autocomplete/BinaryRangeSearch.java:24 | both sort orders are transitive |
| Autocomplete.Insert | autocomplete/BinaryRangeSearch.java:24 | insertion adds exactly the one term |
| Autocomplete.InsertSorted | autocomplete/BinaryRangeSearch.java:24 | insertion into a sorted sequence keeps it sorted |
| Autocomplete.Sort | autocomplete/BinaryRangeSearch.java:23-24 | the sorted copy is sorted and a permutation of the input |
| Autocomplete.CompareTie | autocomplete/BinaryRangeSearch.java:24 | the order compares two terms equal exactly when they have the same query (the same weight) |
| Autocomplete.InsertTies | autocomplete/BinaryRangeSearch.java:24 | an inserted term lands before every term it ties with |
| Autocomplete.SortStable | autocomplete/BinaryRangeSearch.java:23-24 | the sort is stable: the terms tying with any term keep their relative order |
| Autocomplete.MatchesMeaning | autocomplete/BinaryRangeSearch.java:41-45 | a term matches when its query truncated to the prefix length compares equal, which is exactly when the prefix is a prefix of its query |
| Autocomplete.PrefixMonotone | autocomplete/BinaryRangeSearch.java:38-41 | truncating both strings to r characters keeps their order |
| Autocomplete.PrefixCompareMonotone | autocomplete/BinaryRangeSearch.java:39-45 | for terms in query order, below the prefix propagates down and above the prefix propagates up |
| Autocomplete.SortedPrefixCompare | autocomplete/BinaryRangeSearch.java:39-45 | in the sorted array, the terms below the prefix come first, then the matches, then the terms above |
| Autocomplete.Filter | autocomplete/BinaryRangeSearch.java:27-31 | exactly the terms that match the prefix |
| Autocomplete.MatchesByWeight | autocomplete/BinaryRangeSearch.java:27-56 | the answer allMatches promises: null iff no term matches; otherwise the matches sorted heaviest first |
| Autocomplete.FilterOfRun | autocomplete/BinaryRangeSearch.java:49 | when the matches are the contiguous block first..last, copying that block gives exactly the matches |
| Autocomplete.Unwrap | autocomplete/BinaryRangeSearch.java:23 | the copy holds the non-null terms in order |
| Autocomplete.ValidateTerms | autocomplete/BinaryRangeSearch.java:15-23 | a null array, then a null element, is refused; otherwise the terms themselves |
| BinaryRanges.BinaryRangeSearch.constructor | autocomplete/BinaryRangeSearch.java:23-24 | the stored terms are the input sorted by query |
| BinaryRanges.BinaryRangeSearch.MatchesFirst | autocomplete/BinaryRangeSearch.java:58-70 | the first index in low..high+1 whose truncated query is not below the prefix |
| BinaryRanges.BinaryRangeSearch.MatchesLast | autocomplete/BinaryRangeSearch.java:72-86 | the first index in low..high+1 whose truncated query is above the prefix |
| BinaryRanges.BinaryRangeSearch.AllMatches | autocomplete/BinaryRangeSearch.java:31-56 | exception on a null prefix; otherwise null iff nothing matches, else every match sorted heaviest first |
| BinaryRanges.NewBinaryRangeSearch | autocomplete/BinaryRangeSearch.java:14-25 | refuses a null array or element; otherwise a search over the terms sorted by query |
| LinearRanges.LinearRangeSearch.constructor | autocomplete/LinearRangeSearch.java:23-24 | the stored terms are the input sorted by query |
| LinearRanges.LinearRangeSearch.AllMatches | autocomplete/LinearRangeSearch.java:31-53 | exception on a null prefix; index out of bounds on no terms; otherwise null iff nothing matches, else every match sorted heaviest first |
| LinearRanges.LinearRangeSearch.AllMatchesChecked | autocomplete/LinearRangeSearch.java:36-44 | with the bounds test first, the answer allMatches promises for every array, the empty one included |
| LinearRanges.LinearRangeSearch.Block | autocomplete/LinearRangeSearch.java:45-52 | from the first match, the run of matches is every match, and the result is it sorted heaviest first |
| LinearRanges.NewLinearRangeSearch | autocomplete/LinearRangeSearch.java:14-25 | refuses a null array or element; otherwise a search over the terms sorted by query |
| RangeSearchAgreement.SearchesAgree | autocomplete/BinaryRangeSearchTest.java:101-103 | over the same non-empty terms both searches answer the same; on no terms only the linear one fails |
| Deques.LinkedDeque.constructor | deques/LinkedDeque.java:7-12 | a new deque is empty |
| Deques.LinkedDeque.AddFirst | deques/LinkedDeque.java:30-35 | prepends the item and counts it |
| Deques.LinkedDeque.AddLast | deques/LinkedDeque.java:37-42 | appends the item and counts it |
| Deques.LinkedDeque.RemoveFirst | deques/LinkedDeque.java:44-56 | null on an empty deque (unchanged); otherwise returns and drops the front item |
| Deques.LinkedDeque.RemoveLast | deques/LinkedDeque.java:58-70 | null on an empty deque (unchanged); otherwise returns and drops the back item |
| Deques.LinkedDeque.Get | deques/LinkedDeque.java:72-81 | item i for 0 <= i < size; null otherwise, i == size included (the sentinel's null) |
| Deques.LinkedDeque.Size | deques/LinkedDeque.java:83-85 | the number of stored items |
| Palindromes.WordToDeque | deques/palindrome/Palindrome.java:7-13 | a new deque holding the word's characters front to back |
| Palindromes.PalindromeByPairs | deques/palindrome/Palindrome.java:37-47 | the outside-in recursion accepts exactly when each character pairs with its mirror image |
| Palindromes.Reverse | deques/palindrome/Palindrome.java:15-30 | the reverse of a word: same length, character i is the mirror of i |
| Palindromes.PalindromeIsReverse | deques/palindrome/Palindrome.java:20-30 | with plain equality the recursion accepts exactly the words equal to their reverse |
| Palindromes.ShortWordsPass | deques/palindrome/Palindrome.java:21-23 | words of at most one character pass under any comparator |
| Palindromes.PalindromeHelper | deques/palindrome/Palindrome.java:37-47 | the recursive check leaves the deque as it found it and answers the outside-in recursion |
| Palindromes.IsPalindrome | deques/palindrome/Palindrome.java:15-18 | true exactly when the word equals its reverse (case-sensitive) |
| Palindromes.IsPalindromeBy | deques/palindrome/Palindrome.java:32-35 | true exactly when the comparator pairs every character with its mirror image |
| Palindromes.OffByOneSymmetric | deques/palindrome/OffByOneTest.java:14-30 | the off-by-one comparator is symmetric and never pairs a character with itself |
| KDPoints.SquareGrowsAway | kdtree/KDTreePointSet.java:112-120 | the square grows with the distance from zero on either side |
| KDPoints.DistanceSquaredTo | kdtree/KDTreePointSet.java:46 | the squared distance is non-negative |
| KDTrees.NewNode | kdtree/KDTreePointSet.java:84-96 | a new node is an ordered tree of exactly its one point; it alternates correctly at every depth whose parity is its split, and a split above 1 becomes 0, so it fits at every even depth; the parent's split + 1 may thus be passed without reducing it |
| KDTrees.MinPossibleDis | kdtree/KDTreePointSet.java:112-120 | the squared gap on the split coordinate is non-negative |
| KDTrees.MinPossibleDisBound | kdtree/KDTreePointSet.java:65-72 | a point on the other side of the split from the query is at least minPossibleDis away |
| KDTrees.AddNode | kdtree/KDTreePointSet.java:23-37 | inserting keeps the root and adds exactly the one point |
| KDTrees.GrowRightOrdered | kdtree/KDTreePointSet.java:24-29 | growing the right subtree by a point above the split keeps the tree ordered |
| KDTrees.GrowLeftOrdered | kdtree/KDTreePointSet.java:30-35 | growing the left subtree by a point not above the split keeps the tree ordered |
| KDTrees.AddNodeOrdered | kdtree/KDTreePointSet.java:23-37 | insertion keeps search-tree order: going right when `rightTop` finds the coordinate strictly greater puts right subtrees strictly above each split and left ones not above |
| KDTrees.AddNodeAlternates | kdtree/KDTreePointSet.java:26-32 | insertion keeps the splits alternating x, y, x, ... with depth |
| KDTrees.FromPoints | kdtree/KDTreePointSet.java:16-21 | the first point is the root with split x, and the tree holds exactly the input points |
| KDTrees.FromPointsValid | kdtree/KDTreePointSet.java:16-21 | the built tree is ordered and its splits alternate from x at the root |
| KDTrees.NearSide | kdtree/KDTreePointSet.java:63-69 | the subtree searched first is one of the two children |
| KDTrees.FarSide | kdtree/KDTreePointSet.java:65-71 | the subtree searched second is the other child |
| KDTrees.FarSideBound | kdtree/KDTreePointSet.java:65-71 | every point of the far subtree is at least minPossibleDis from the query |
| KDTrees.CoversNode | kdtree/KDTreePointSet.java:51-75 | a bound under the node's own distance and both subtrees' points bounds all the tree's points |
| KDTrees.FindNearest | kdtree/KDTreePointSet.java:51-75 | the best distance never grows, and a new candidate is a tree point at exactly that distance |
| KDTrees.FindNearestMinimal | kdtree/KDTreePointSet.java:51-75 | despite the pruning and the stop at 0, no tree point is closer than the distance returned |
| KDTrees.NearestOf | kdtree/KDTreePointSet.java:44-48 | the answer is a point of the tree |
| KDTrees.NearestIsNearest | kdtree/KDTreePointSet.java:44-75 | no point of the tree is closer to the query than the answer |
| KDTrees.Build | kdtree/KDTreePointSet.java:16-21 | the insertion loop builds the tree of the points in order |
| KDTrees.KDTreePointSet.constructor | kdtree/KDTreePointSet.java:16-21 | the root holds the tree of the points |
| KDTrees.KDTreePointSet.Nearest | kdtree/KDTreePointSet.java:44-49 | returns and stores a point of the tree no farther from the query than any other point of it, leaving the tree alone |
| NaivePoints.EarliestNearest | kdtree/NaivePointSet.java:29-44 | the first position of least squared distance: no point is closer, every earlier one is strictly farther |
| NaivePoints.EarliestNearestUnique | kdtree/NaivePointSet.java:35-37 | that position is the only one with both properties (ties go to the earliest) |
| NaivePoints.ScanStep | kdtree/NaivePointSet.java:34-37 | the next point takes over only when strictly closer |
| NaivePoints.ScanStopsAtZero | kdtree/NaivePointSet.java:38-40 | stopping at distance 0 does not change the answer |
| NaivePoints.NaivePointSet.constructor | kdtree/NaivePointSet.java:19-22 | the set holds its own copy of the points |
| NaivePoints.NaivePointSet.Nearest | kdtree/NaivePointSet.java:29-44 | the first point of least squared distance |
| NaivePoints.NearestAgrees | kdtree/KDTreePointSetTest.java:31-33 | the 2-d tree and the scan answer points at the same distance, and the same point when no other point ties |

## Left out

- Java's `hashCode` is a parameter `hash: T -> nat` of the queue, so the
  chains the model walks use a non-negative hash. The overflow of `-h` at
  `Integer.MIN_VALUE` is analysed in `JavaHash`. The queue keeps its table
  size a power of two (`hashSize == 2^HashExp` in `ArrayHeapMinPQ.Valid`),
  and `ArrayHeapMinPQ.JavaBucket` shows the 32-bit bucket index is then in
  range.
- MinPQ.ArrayHeapMinPQ.JavaBucket: requires a table of at most 2^31
  buckets. The model does not bound the number of queued items, so it
  does not derive this bound itself.
- Node objects of the priority queue are values: the heap slots and the
  hash chains name a node by its item. Aliasing between the heap and the
  chains is not modelled, nor are `loc` and `next` as object fields.
- MinPQ.ArrayHeapMinPQ.constructor: the private `ArrayHeapMinPQ(int num)`
  is only modelled through the public one, with four buckets.
- `getItem` of the queue is not modelled: it returns `goalNode.item` after
  `contains`, which `Contains`' contract already describes.
- `Double.compare` of priorities, weights and coordinates is `real`
  comparison. NaN, -0.0 and rounding are not modelled; nor is `Math.pow`
  rounding in `minPossibleDis`.
- The stopwatch and the timeout of `AStarSolver` are a budget of fringe
  removals. `explorationTime` and `timeSpent` are not modelled, and the
  seam finders take the budget as a parameter in place of 30 seconds.
- AStar.Search: that the solution is a shortest path is proved only for a
  zero heuristic, which is the seam graph's. For any other heuristic only
  the bound "the solution weighs at most `solutionWeight`" is proved.
  Optimality under a consistent heuristic is not.
- AStar.AStarSolver.constructor: the same restriction, for the same reason.
- AStar.AStarSolver.SolutionWeight: the same restriction, for the same reason.
- SeamCarving.FindSeam: the solver is a ghost out-parameter, so the
  contract can name its outcome and solution. The Java method keeps the
  solver in a local variable.
- AStar.Search: edge weights are required to be non-negative, which A*
  needs and the seam graph satisfies (`SeamGraph`). Negative weights are
  not modelled, because the Java solver does not handle them either:
  `relax` (AStarSolver.java:93-96) relinks a vertex already removed from
  the fringe, so with edges S→A of weight 1, A→S of weight -5 and A→G of
  weight 1 and a zero heuristic, S and A end up as each other's `edgeTo`
  and the walk back from G (lines 62-66) never ends
  (`NegativeEdgeMakesCycle`).
- The graph interface (`AStarGraph`, `WeightedEdge`) is a datatype of two
  functions. The seam graph's neighbour function can throw from `energy`,
  so the solver is given a total version that maps the exception to no
  edges; `NeighborsOfCells` shows that it is never thrown for the source or a cell.
- SeamCarving.Energy: the colour arithmetic (`Math.sqrt` of the summed
  squared colour differences) and `Picture` are a non-negative function of
  the cell and its wrapped neighbours.
- The `AStarSeamCarver` constructor, `picture`, `setPicture`, `width`,
  `height` and `get` are plain accessors of the picture and are not
  modelled; `Point.hashCode` is not modelled either.
- AStar.AStarSolver.NumStatesExplored: follows the code, which does not
  count the goal's removal. The doc comment of `numStatesExplored` says it
  counts every removal.
- `Arrays.sort` with the natural order and with
  `TermComparators.byReverseWeightOrder` is a stable insertion sort over a
  `seq`. `TermComparators` is not part of this model; its order is
  `compareToByReverseWeightOrder`.
- Java `char` is Dafny `char`. The UTF-16 code-unit details of
  `String.compareTo` are not modelled.
- Term weights are `long` in the source and `nat` here; 64-bit limits are
  not modelled.
- Null `that` arguments of the `Term` comparisons are not modelled: a
  `Term` value is never null here.
- `toString` and `hashCode` of `Term` and the test classes are not modelled.
- The deque's circular sentinel-linked nodes are a sequence `items`
  beside the `size` counter. The node walk in `get` and null items are
  not modelled.
- `deques.ArrayDeque`, which `Palindrome` instantiates, is not part of this
  model. The palindrome checks run over the `LinkedDeque` model, which
  offers the same deque operations.
- `OffByOne` and `CharacterComparator` are not part of this model. A
  comparator is a function `(char, char) -> bool`, and the off-by-one one
  is the predicate its test describes.
- The 2-d tree is a datatype value: `addNode`'s in-place relinking of
  `left`/`right` is a rebuilt tree, and `findNearest`'s write of the
  `result` field is a returned candidate.
- The copies of `kdtree.Point` the tree makes are not modelled, because
  points are values.
- `huskymaps/server/logic/Rasterer.java` is not part of this model.

## Findings

| source | as written | input that shows it | evidently intended | confidence | as-written member | corrected member |
|---|---|---|---|---|---|---|
| autocomplete/LinearRangeSearch.java:37-39 | `terms[first]` is read before `first` is compared with `end` | an empty term array and any non-null prefix: the first read is out of bounds | no match, so `null`, as the binary search answers | not executed | LinearRanges.LinearRangeSearch.AllMatches | LinearRanges.LinearRangeSearch.AllMatchesChecked |
