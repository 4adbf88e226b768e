# Single-source shortest paths: Dijkstra and Bellman-Ford

This project models the `Graph` class of `Main.java` and proves what it
computes. The class stores a directed, integer-weighted graph as one
adjacency list per vertex and answers two queries from a start vertex:

- `dijkstra` is the lazy-deletion variant. A min-priority queue holds
  candidate entries keyed by distance. An entry whose vertex is already
  visited is skipped instead of being decreased in place.
- `bellmanFord` makes `vertices - 1` passes of relaxation over every edge,
  list after list. A final check pass then withholds the table when some
  edge can still be relaxed, which means a negative-weight cycle is
  reachable.

The model has these parts:

- `Edges`: the `Edge` record and the distance value `Dist`. In `Dist`,
  `Inf` stands for the `Integer.MAX_VALUE` sentinel.
- `Walks`: walks, walk weights, and what a correct distance table is:
  - `Sound`: every finite entry is the weight of some walk;
  - `LowerBound`: no walk is lighter than its target's entry;
  - `ShortestTable`: both of the above.
  It also proves the graph facts Bellman-Ford depends on. A walk can be
  shortened below `vertices` edges unless a negative cycle is reachable.
  A table no edge can improve excludes every reachable negative cycle.
- `Relaxation`: edge relaxation and the Bellman-Ford passes, as functions
  on tables.
- `BellmanFordSpec`: the whole Bellman-Ford outcome as a function, and
  what that outcome means.
- `DijkstraInvariant`: the invariant of Dijkstra's main loop, and one lemma
  per step showing the step preserves it.
- `ShortestPaths.Graph`: the class itself. It is imperative like the Java:
  - `adjList` is a field that `AddEdge` reassigns;
  - the queries fill arrays `dist` and `visited` in loops;
  - the priority queue is a multiset of entries.
  The Java method bodies are split into several methods, one per loop
  level, so that each loop level is proved against a specification
  function on its own.
- `Scenarios`: a five-vertex graph built through the class, on which both
  queries return `[0, 3, 1, 4, 7]`, and the two-vertex cycle of weight -1
  edges, on which Bellman-Ford reports a negative cycle.

The queries return their result instead of printing it. Dijkstra returns
the distance table. Bellman-Ford returns an `Outcome`: either
`Distances(table)` or `NegativeCycle`.

## Model

| member | source | states |
|---|---|---|
| ShortestPaths.Graph.constructor | Main.java:7-13 | a graph over `vertices` vertices starts with one empty adjacency list per vertex |
| ShortestPaths.Graph.AddEdge | Main.java:15-17 | the new edge is appended to its source's list; every other list is unchanged; the graph stays well formed |
| ShortestPaths.Graph.Dijkstra | Main.java:19-45 | every finite distance is the weight of a real walk from the start; each vertex is finalized at most once; a vertex ends with a finite distance exactly when it was finalized; with non-negative weights the result is the shortest-walk table, with 0 at the start and infinity exactly at unreachable vertices |
| ShortestPaths.Graph.Poll | Main.java:28-41 | one round of the main loop removes an entry of least key; if its vertex is already visited, only that entry goes and no distance or flag changes; otherwise exactly that vertex becomes visited and its edges are relaxed; with non-negative weights no visited vertex's distance changes; the loop invariant is kept, and either the unvisited count drops or the queue shrinks, so the loop terminates |
| ShortestPaths.Graph.Visit | Main.java:30-41 | visiting the least entry's vertex marks exactly that vertex visited; the new table is its outgoing edges relaxed in list order (`Pass`), the new queue has the matching pushes (`Pushes`); with non-negative weights no visited distance moves, that vertex's included; the loop invariant holds again |
| ShortestPaths.Graph.RelaxNeighbours | Main.java:34-41 | the loop over the vertex's outgoing edges leaves the table that relaxing those edges in list order gives, the same relaxation as a Bellman-Ford pass over that list (`Pass`), and the queue with one push per improvement (`Pushes`) |
| ShortestPaths.Graph.RelaxFrom | Main.java:35-40 | one outgoing edge of a reached vertex is relaxed exactly as Bellman-Ford relaxes it (`Relax`), and an entry keyed with the new distance is queued exactly when the edge improves its destination (`QueueAfter`) |
| ShortestPaths.Graph.BellmanFord | Main.java:47-78 | a negative cycle is reported exactly when one is reachable from the start; otherwise the table returned is the exact shortest-walk table with 0 at the start |
| ShortestPaths.Graph.RelaxAll | Main.java:53-62 | one pass relaxes every edge of the graph, list after list, in the lists' order |
| ShortestPaths.Graph.RelaxList | Main.java:54-61 | the inner loop relaxes the edges of one list in order |
| ShortestPaths.Graph.RelaxEdge | Main.java:55-60 | one relaxation lowers the destination to the source's distance plus the weight when that is strictly smaller and the source is reached, and changes nothing else |
| ShortestPaths.Graph.FindRelaxable | Main.java:65-75 | the check pass answers true exactly when some edge of the graph could still be relaxed |
| Edges.FlattenMember | Main.java:53-54 | iterating the lists one after another visits exactly the graph's edges |
| Walks.ShortWalk | Main.java:52 | without a reachable negative cycle, every walk from the start has a walk to the same vertex with fewer than `vertices` edges that is no heavier, so `vertices - 1` passes suffice |
| Walks.FeasibleIsLowerBound | Main.java:65-75 | a table with 0 at the start that no edge can improve is at or below the weight of every walk from the start |
| Walks.LowerBoundExcludesNegativeCycle | Main.java:65-75 | if every walk weighs at least its target's entry, no negative cycle is reachable |
| Walks.NonNegativeNoNegativeCycle | Main.java:19-45 | with non-negative weights no negative cycle exists, the setting in which Dijkstra is used |
| Walks.ShortestUnique | Main.java:44-77 | two shortest-walk tables over the same graph and start are equal |
| Relaxation.RelaxOnlyLowers | Main.java:58-60 | relaxing an edge changes at most its destination, only lowers it, and leaves the table alone when the source is unreached |
| Relaxation.PassesLower | Main.java:52-63 | each pass can only lower entries |
| Relaxation.PassesSound | Main.java:48-63 | after any number of passes every finite entry is the weight of a walk from the start |
| Relaxation.PassesBound | Main.java:52-63 | after `k` passes every entry is at or below the weight of every walk of at most `k` edges to that vertex |
| Relaxation.PassAppend | Main.java:53-62 | relaxing two edge lists in turn is the same as relaxing their concatenation |
| BellmanFordSpec.TableIsShortest | Main.java:47-77 | a table that passes the check is the exact shortest-walk table with 0 at the start |
| BellmanFordSpec.EdgeSettled | Main.java:52-70 | without a reachable negative cycle no edge is relaxable after `vertices - 1` passes |
| BellmanFordSpec.DetectsExactlyNegativeCycles | Main.java:65-75 | the negative-cycle report is given if and only if a negative cycle is reachable from the start |
| BellmanFordSpec.NonNegativeAgreement | Main.java:19-78 | with non-negative weights Bellman-Ford returns a table, and it equals any shortest-walk table, including Dijkstra's |
| BellmanFordSpec.NoEdgesTable | Main.java:48-50 | with no edges the start is at 0 and every other vertex is unreached |
| BellmanFordSpec.NonNegativeDistances | Main.java:37-38 | with non-negative weights no correct distance is negative; a non-negative self-loop cannot push the start below 0 |
| DijkstraInvariant.InitInv | Main.java:20-26 | the start table, the all-false visited array and the single queue entry `(start, start, 0)` satisfy the loop invariant |
| DijkstraInvariant.MinExists | Main.java:29 | a non-empty queue has an entry of least key for `poll` to return |
| DijkstraInvariant.PopStale | Main.java:29-31 | dropping an entry of an already visited vertex keeps the invariant |
| DijkstraInvariant.PopFresh | Main.java:29-32 | polling a least entry of an unvisited vertex and marking it visited gives the inner-loop invariant; with non-negative weights the entry's key is that vertex's distance, no visited distance exceeds it, and no remaining key is below it |
| DijkstraInvariant.VisitOrderExtend | Main.java:31-32 | a vertex is marked visited only once, and the unvisited count drops |
| DijkstraInvariant.RelaxStep | Main.java:35-40 | relaxing one outgoing edge and queueing the new entry keeps the inner-loop invariant |
| DijkstraInvariant.Pushes | Main.java:37-40 | relaxing the outgoing edges only adds entries to the queue; none is removed |
| DijkstraInvariant.PassSparesVisited | Main.java:34-41 | with non-negative weights, relaxing the edges of the vertex just visited never changes the distance of any visited vertex: a finalized distance is never lowered again |
| DijkstraInvariant.NeighboursKeepInner | Main.java:34-41 | relaxing any prefix of the outgoing list keeps the inner-loop invariant |
| DijkstraInvariant.Settle | Main.java:29-41 | a full visit, from the poll to the last outgoing edge, restores the loop invariant with that vertex visited; with non-negative weights it leaves every visited distance as it was |
| DijkstraInvariant.Finish | Main.java:28-44 | at an empty queue the finite entries are exactly the visited vertices, every finite entry is a walk weight, and under non-negative weights the table is the shortest-walk table |
| Scenarios.SampleShortest | Main.java:47-78 | on the five-vertex sample from vertex 0 the shortest distances are 0, 3, 1, 4, 7, and Bellman-Ford returns them |
| Scenarios.LoopDetected | Main.java:65-73 | two vertices joined both ways by weight -1 edges make Bellman-Ford report a negative cycle |
| Scenarios.BuildSample | Main.java:106-116 | building the sample with the constructor and `AddEdge` gives the sample adjacency lists |
| Scenarios.RunSample | Main.java:124-127 | both queries on the built sample return the table 0, 3, 1, 4, 7 |
| Scenarios.RunLoop | Main.java:126-127 | Bellman-Ford on the built two-vertex cycle reports a negative cycle |

## Left out

- `printSolution`, `Main.main` and all console I/O are not modelled: the
  prompts, the `Scanner` input, the algorithm selector with its "Invalid
  choice" branch, and the "Infinity" rendering. The queries return the
  table, or the `NegativeCycle` outcome in place of the printed message.
- 32-bit arithmetic is not modelled. Weights and distances are unbounded
  integers, and `Integer.MAX_VALUE` is the separate value `Inf`. A Java sum
  `distances[u] + weight` that overflows, or a finite distance equal to
  `Integer.MAX_VALUE`, behaves differently in the source.
- `PriorityQueue` is a multiset. `poll` may return any entry of least key,
  since Java's tie-breaking is unspecified. Heap internals are not modelled.
- ShortestPaths.Graph.Dijkstra: with negative weights only soundness,
  single finalization and termination are proved, not shortest distances.
  The source does not promise more there.
- ShortestPaths.Graph.AddEdge: requires `source` and `dest` to be vertices.
  Java throws at once for a bad `source`, but it accepts a bad `dest`. A
  later query throws only if it reaches that edge's source: Bellman-Ford
  reads `distances[v]` only once the source is finite (`Main.java:58`,
  `Main.java:70`), and Dijkstra reads it only for edges of visited
  vertices (`Main.java:34-37`). Queries that never reach that source finish
  normally, and the model does not cover them.
- ShortestPaths.Graph.Dijkstra and ShortestPaths.Graph.BellmanFord require
  a start vertex in range. Java throws `ArrayIndexOutOfBoundsException`
  otherwise.
- ShortestPaths.Graph.constructor: takes a `nat`. Java throws for a
  negative vertex count.
- The entry Dijkstra pushes is `(u, v, distances[v])`, as `Main.java:39`
  writes it. Only its destination and its key are ever read.
