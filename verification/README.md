# Dijkstra and A* on an embedded graph — a Dafny model

This project models the core of `AlgorithmsComparison/Graph.cs`. It proves properties of that model.

The system builds a weighted undirected graph whose vertices are points on a canvas, in one of two ways:
- the random constructor places vertices at random positions and draws random edges;
- the grid constructor lays points on a 20-pixel grid and joins each point to its right and bottom neighbours.

Two path-finding engines then search that graph from a source vertex to a destination vertex:
- `Dejkstra` is label-setting with a visited table. It has at most n-1 selection rounds, and it returns the moment the destination's label first improves.
- `AStar` is best-first over an unsorted priority queue, ordered by distance plus the straight-line estimate to the destination. It has no closed set, and it returns the moment the destination is extracted from the queue.

Both engines return a per-vertex path table. Each time a vertex's path improves they raise a "path changed" notification carrying that path.

Modules, one concept each:
- `Paths` (`paths.dfy`): adjacency matrices, paths, walks, path cost and reachability. Also the distance label `Dist`, whose `Infinite` stands for the `double.MaxValue` sentinel.
- `PriorityQueue` (`priority_queue.dfy`): the list-backed queue, with `Enqueue` and `Dequeue`; `Count` is the sequence length.
- `Graphs` (`graph.dfy`): the `Graph` record, the matrix operations both constructors share, and the edge set of a matrix.
- `RandomGraph` (`random_graph.dfy`): the random constructor.
- `GridGraph` (`grid_graph.dfy`): the grid constructor.
- `Search` (`search.dfy`): what both engines keep true of their distance table, path table and notification stream, and the relaxation step both perform.
- `DijkstraInvariant` and `DijkstraSearch` (`dijkstra_invariant.dfy`, `dijkstra.dfy`): the `Dejkstra` engine.
- `AStarInvariant` and `AStarSearch` (`astar_invariant.dfy`, `astar.dfy`): the `AStar` engine and its heuristic.

How the system's environment appears in the model:
- Notifications: an engine returns, next to its path table, the sequence `trace` of the paths it notified, in order.
- Randomness: the random constructor takes its draws from a caller-supplied finite stream `random: seq<nat>`. `random.Next(bound)` is `Next(raw, bound) = raw % bound`.
- Distances: an edge weight, and the heuristic, is the value of a caller-supplied function `w: (Point, Point) -> real` on the two end points. Where a proof needs more, `IsEuclidean(w)` states that `w` is non-negative, symmetric and zero exactly on equal points.
- Numbers: weights are exact reals.

## Model

| member | source | states |
|---|---|---|
| PriorityQueue.Enqueue | AlgorithmsComparison/Graph.cs:11-16 | Enqueue appends exactly one (item, priority) pair at the end. The count grows by one and every earlier entry is unchanged. |
| PriorityQueue.Dequeue | AlgorithmsComparison/Graph.cs:18-32 | On a non-empty queue, the returned item sits at a position whose priority is at most every queued priority and strictly below every earlier entry's. The remaining queue is the old one with exactly that entry removed, order preserved. |
| PriorityQueue.FirstMinUnique | AlgorithmsComparison/Graph.cs:20-27 | Only one position can be the first minimum, so the extracted entry is determined by the queue. |
| PriorityQueue.EnqueueFirstMin | AlgorithmsComparison/Graph.cs:13-27 | An appended pair is extracted next only if its priority is strictly below the current minimum. On a tie the earlier entry still wins. |
| PriorityQueue.RemovedEntry | AlgorithmsComparison/Graph.cs:29-30 | Extraction loses exactly the extracted entry: the multisets agree and every other entry is still queued. |
| Graphs.Zeros | AlgorithmsComparison/Graph.cs:63 | The fresh n-by-n matrix is square with every entry 0. |
| Graphs.Link | AlgorithmsComparison/Graph.cs:76-77 | Writing an edge sets both [u][v] and [v][u] to the weight and leaves every other entry unchanged. |
| Graphs.AllPairsSize | AlgorithmsComparison/Graph.cs:47 | There are exactly n*(n-1)/2 unordered pairs of distinct vertices, the bound the edge-count guard uses. |
| Graphs.EdgeSetBound | AlgorithmsComparison/Graph.cs:47-50 | No matrix over n vertices has more undirected edges than n*(n-1)/2, so every edge count the guard rejects is unreachable. |
| Graphs.LinkAddsEdge | AlgorithmsComparison/Graph.cs:74-78 | Linking a pair that had no edge with a nonzero weight adds exactly one undirected edge. |
| RandomGraph.PlaceVertices | AlgorithmsComparison/Graph.cs:56-59 | Vertex i is placed at (Next(width), Next(height)) from draws 2i and 2i+1. Every coordinate lies in [0, bound), or is 0 when its bound is 0. Placement succeeds exactly when the stream holds 2n draws. |
| RandomGraph.DrawEdge | AlgorithmsComparison/Graph.cs:67-72 | An edge draw takes a source, then redraws the destination until it differs from the source. Every draw in between repeated the source. When the two draws at the cursor name different vertices, the edge draw succeeds and takes exactly those two. |
| RandomGraph.ScheduleStep | AlgorithmsComparison/Graph.cs:65-82 | On a stream of fresh pairs, one round of the edge loop takes exactly the next two draws, finds that entry empty, counts the draw, and leaves every later pair of the stream without an edge. |
| RandomGraph.CountedDraw | AlgorithmsComparison/Graph.cs:74-82 | Linking a counted draw on an empty entry keeps the matrix symmetric, non-negative and zero on the diagonal, with entries 0 or the distance of their end points. It adds one edge, or none when both end points share a position, and in that case two vertices coincide. |
| RandomGraph.DrawEdges | AlgorithmsComparison/Graph.cs:63-83 | The edge loop stops only once numberOfEdges draws have been counted, or when the stream is used up. Its matrix is symmetric, non-negative and zero on the diagonal, with entries 0 or the distance of their end points. The undirected edges plus the counted draws that left no edge add up to numberOfEdges (0 if negative), and such lost draws occur only when two vertices share a position. When the next numberOfEdges pairs of draws each join two different vertices and no two name the same unordered pair, the loop succeeds after exactly two draws per edge. |
| RandomGraph.BuildRandomGraph | AlgorithmsComparison/Graph.cs:45-86 | The constructor fails with the out-of-range error exactly when numberOfEdges > n*(n-1)/2, before drawing anything. It runs out of draws only when the stream cannot place the vertices or is used up entirely, and it always builds when no edges are requested and the vertices can be placed. A built graph has every vertex inside the canvas and a symmetric, non-negative, zero-diagonal matrix whose entries are 0 or the distance of their end points. Its edges plus its lost draws add up to numberOfEdges, and lost draws need two vertices at one position, so without coincident positions the edge count is exact. When the count is allowed, the vertices can be placed, and the draws after them form numberOfEdges fresh pairs of distinct vertices, the graph is built from exactly 2n + 2*numberOfEdges draws. Coordinates lie in [0, bound), or are 0 for a zero bound. |
| RandomGraph.CoincidentDrawIsLost | AlgorithmsComparison/Graph.cs:74-82 | A draw between two vertices at the same position finds an empty entry and writes weight 0 into it. The matrix and its edge set stay as they were, and because the entry was empty the draw is not retried, so it counts toward numberOfEdges. |
| GridGraph.LayPoints | AlgorithmsComparison/Graph.cs:90-110 | The points are laid line by line: point a is at (5+20*(a mod rows), 5+20*(a div rows)), and there are cols*rows of them, with rows the points per line. |
| GridGraph.LinkCell | AlgorithmsComparison/Graph.cs:118-136 | Processing cell (i, j) links it to its right and bottom neighbours. The matrix then holds every grid edge whose lower index is at most i*rows+j, and nothing else. |
| GridGraph.BuildGridGraph | AlgorithmsComparison/Graph.cs:88-141 | The grid graph has cols*rows vertices, index i*rows+j at (5+20j, 5+20i). Entry [a][b] is the distance of the two points when a and b are horizontal or vertical grid neighbours, and 0 otherwise. |
| GridGraph.GridWellFormed | AlgorithmsComparison/Graph.cs:114-138 | The grid matrix is symmetric, non-negative and zero on the diagonal. It is nonzero exactly between points 20 pixels apart horizontally or vertically. |
| GridGraph.NeighboursAreAdjacent | AlgorithmsComparison/Graph.cs:118-132 | Index i*rows+j's right neighbour (j+1 < rows) and bottom neighbour (+rows) are exactly the pairs of grid points one step apart. |
| Search.InitialPaths | AlgorithmsComparison/Graph.cs:145-152 | The initial path table has n entries: [source] for the source and [] elsewhere. |
| Search.InitialDist | AlgorithmsComparison/Graph.cs:157-172 | The initial distance table is 0 for the source and the sentinel elsewhere. |
| Search.LatestIsLast | AlgorithmsComparison/Graph.cs:203 | The latest notification for v is empty exactly when no notification ends at v. Otherwise it is a notification ending at v that no later one ends at. |
| Search.Extend | AlgorithmsComparison/Graph.cs:199-201 | Extending a simple walk from the source by an edge to a vertex not on it gives a simple walk to that vertex. Its cost is the walk's plus the edge's. |
| Search.Relax | AlgorithmsComparison/Graph.cs:196-203 | A strict improvement through c gives k the label cost(paths[c] ++ [k]) and the path paths[c] ++ [k], and notifies that path. The tables still agree (finite label iff a path, which is a simple walk of that cost). The notifications still get strictly cheaper per vertex, and each vertex's path is still its latest notification. |
| DijkstraInvariant.SettledExtend | AlgorithmsComparison/Graph.cs:196-201 | Every vertex of the selected vertex's path is visited, so appending an unvisited neighbour never repeats a vertex. |
| DijkstraInvariant.Select | AlgorithmsComparison/Graph.cs:189-191 | Marking the selected vertex visited adds exactly one vertex to those picked so far. |
| DijkstraInvariant.AllSelected | AlgorithmsComparison/Graph.cs:174 | Once n-1 vertices have been picked while the destination is unlabelled, no unvisited vertex has a finite label. |
| DijkstraInvariant.Exhausted | AlgorithmsComparison/Graph.cs:174-214 | On an undirected graph, if the rounds end with the destination unlabelled there is no walk from the source to it. |
| DijkstraSearch.MarkIsolated | AlgorithmsComparison/Graph.cs:157-170 | A vertex starts visited exactly when its matrix row is all zero. |
| DijkstraSearch.ClosestUnvisited | AlgorithmsComparison/Graph.cs:176-187 | The scan returns -1 exactly when no unvisited vertex has a finite label. Otherwise it returns the first unvisited vertex with the smallest finite label. |
| DijkstraSearch.RelaxOne | AlgorithmsComparison/Graph.cs:194-209 | Neighbour k is relaxed exactly when unvisited, joined to the selected vertex, and strictly improved. Then its label, its path and the notifications change as stated, and nothing else. Visited entries never change and finite labels stay finite. |
| DijkstraSearch.RelaxNeighbours | AlgorithmsComparison/Graph.cs:194-210 | The loop stops right after the destination's first improvement, and that notification is the first to end at the destination. Otherwise it ends with every unvisited neighbour of the selected vertex labelled and the destination still unlabelled. |
| DijkstraSearch.Round | AlgorithmsComparison/Graph.cs:176-211 | One selection round keeps the round invariant, which then counts one more picked vertex or finds no candidate left, or the round ends at the destination's first improvement. |
| DijkstraSearch.Rounds | AlgorithmsComparison/Graph.cs:174-214 | Starting from the round invariant, labels and paths end consistent and every path was notified. The engine's outcome holds whichever way the rounds stop: at the destination's first improvement or after the last round. |
| DijkstraSearch.Dijkstra | AlgorithmsComparison/Graph.cs:143-215 | The destination may be any integer. Nonempty paths are simple walks from the source. Notifications are simple walks from the source to another vertex, get strictly cheaper per vertex, and only the last may end at the destination, in which case it is the destination's path. Each vertex's path is its latest notification, and isolated vertices get none. On an undirected graph a destination inside the graph has a path iff it is reachable. When the destination is the source or outside the graph, no early exit can fire and every vertex has a path iff it is reachable. |
| AStarInvariant.Fresh | AlgorithmsComparison/Graph.cs:256-265 | With non-negative weights, a strict improvement through `current` never leads back onto `current`'s own path, so the rebuilt path has no repeated vertex. |
| AStarInvariant.PrefixedRelax | AlgorithmsComparison/Graph.cs:259-265 | After a relaxation, every vertex on a recorded path is still labelled no worse than the prefix that leads to it. |
| AStarInvariant.PendingShrinks | AlgorithmsComparison/Graph.cs:259-261 | Each strict improvement removes a walk from the finite set of simple walks cheaper than their end's label, so the search loop terminates. |
| AStarInvariant.Extracted | AlgorithmsComparison/Graph.cs:246 | After extraction every remaining entry is still a labelled vertex. Every labelled vertex other than the extracted one is still queued or has all its neighbours labelled. |
| AStarInvariant.Drained | AlgorithmsComparison/Graph.cs:244-275 | When the queue runs dry the destination has a path exactly when it is reachable. |
| AStarInvariant.UnexpandedExtend | AlgorithmsComparison/Graph.cs:248-264 | Extending the path of an extracted vertex other than the destination keeps the destination off every path and notification except as the last vertex. |
| AStarSearch.Heuristic | AlgorithmsComparison/Graph.cs:278-287 | For a Euclidean distance the estimate is non-negative, zero exactly when the vertex shares the destination's position, and the same from either end. |
| AStarSearch.ExpandOne | AlgorithmsComparison/Graph.cs:256-270 | A neighbour is relaxed exactly when joined to `current` and strictly improved. Then its label drops to the tentative distance, its path becomes paths[current] ++ [neighbour], and one entry with priority tentative + heuristic is pushed and one notification raised. Labels never rise, the tables still agree, and the termination measure falls. |
| AStarSearch.Expand | AlgorithmsComparison/Graph.cs:254-272 | After the neighbour loop every neighbour of `current` is labelled, the destination stays last-only on every path and notification, no label rose, and every labelled vertex is queued or has labelled neighbours. Either nothing changed or the termination measure fell. |
| AStarSearch.Arrived | AlgorithmsComparison/Graph.cs:246-250 | An extracted destination always has a path, and it is reachable. |
| AStarSearch.AStar | AlgorithmsComparison/Graph.cs:217-276 | The search terminates. Nonempty paths are simple walks from the source. Notifications are simple walks from the source to another vertex and get strictly cheaper per vertex, and each vertex's path is its latest notification. The destination has a path exactly when it is reachable. With source = destination nothing is notified and only the source has a path. The search returns as soon as it extracts the destination, so the destination is never expanded: it never appears on any path or notification except as the last vertex. |

## Left out

- The window, drawing, threads, timing and message boxes of `AlgorithmsComparison/Form1.cs`: user interface and concurrency, not part of this model.
- The event and delegate machinery. Each engine returns the sequence of notified paths instead.
- Floating point: `Math.Sqrt`/`Math.Pow` distances and the `Heuristic` body are replaced by the function `w`. Labels are exact reals, so rounding effects such as `double.MaxValue + w == double.MaxValue` appear only as the `Infinite` label.
- Shortest-path optimality and heuristic admissibility. `Dejkstra` returns at the destination's first improvement, not when it is final, so its destination path need not be the cheapest. Neither engine's result is claimed to be optimal.
- DijkstraSearch.Dijkstra: reachability is stated only for symmetric matrices. On a directed matrix the pre-marking of all-zero rows as visited can leave a reachable destination without a path. Both constructors build symmetric matrices.
- AStarSearch.AStar: requires non-negative weights, which both constructors produce. With a negative cycle the C# loop does not terminate.
- AStarSearch.AStar: the `estimates` table is not kept. `Graph.cs` reads it back only as the priority it pushes right after writing it, and the model pushes distance + heuristic directly.
- RandomGraph.BuildRandomGraph: `System.Random` becomes a finite stream of draws. Running out of draws gives the extra outcome `DrawsExhausted`, which has no counterpart in `Graph.cs`. The contract says `DrawsExhausted` comes only from a stream that is too short or used up, and it gives a sufficient condition for success: a stream whose draws after the vertex positions form `numberOfEdges` fresh pairs of distinct vertices builds the graph from exactly two draws per edge. It does not characterise every stream that builds the graph, since retries make the count of draws depend on the matrix. The C# retry loops are unbounded, and any value `Next` can produce is the reduction of some draw.
- RandomGraph.PlaceVertices: sizes are natural numbers. A negative `height` or `width`, on which `random.Next` throws `ArgumentOutOfRangeException` once a vertex is placed (`Graph.cs`:58), is not modelled.
- GridGraph.LayPoints: coordinates are unbounded integers. In C#, `x + 20 < width`, `x = x + 20` and `y += 20` (`Graph.cs`:99-106) wrap around for a `width` or `height` of 2147483646 (`int.MaxValue` - 1) or more, since only then does a coordinate reach 2147483645 and step past `int.MaxValue`. The loops then never end. The product `cols*rows` (`Graph.cs`:112) can also overflow. The model's loops stop after `PerLine` points per line and `Lines` lines.
- RandomGraph.BuildRandomGraph: counts are unbounded integers. The 32-bit overflow of `n*(n-1)` for very large `n` and negative vertex counts are not modelled.
- DijkstraSearch.Dijkstra: a `source` outside the graph is excluded by `requires`. The C# method fails on it with an index exception when it seeds the path table (`Graph.cs`:152). The `destination` is only compared with neighbour indices (`Graph.cs`:205), so any integer is accepted and modelled.
- AStarSearch.AStar: a `source` or `destination` outside the graph is excluded by `requires`. The C# method fails on either with an index exception: on the source vertex at `Graph.cs`:226, and on the destination in `Heuristic` at `Graph.cs`:238.
