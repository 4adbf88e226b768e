/** The graph store and its two shortest-path queries, written the way the
    Java class `Graph` runs them: a vertex count fixed at construction, one
    adjacency list per vertex, and query methods that fill and overwrite
    local distance arrays in loops. Each query returns its table instead of
    printing it. */
module ShortestPaths {
  import opened Edges
  import opened Walks
  import opened Relaxation
  import opened BellmanFordSpec
  import opened DijkstraInvariant

  class Graph {
    const vertices: nat
    var adjList: seq<seq<Edge>>

    /** List `i` holds only edges leaving `i`, each to a vertex. */
    ghost predicate Valid()
      reads this
    {
      WellFormed(adjList, vertices)
    }

    /** `vertices` empty adjacency lists. */
    constructor (vertices: nat)
      ensures Valid() && this.vertices == vertices
      ensures |adjList| == vertices && forall i :: 0 <= i < vertices ==> adjList[i] == []
    {
      this.vertices := vertices;
      var lists: seq<seq<Edge>> := [];
      for i := 0 to vertices
        invariant |lists| == i && forall j :: 0 <= j < i ==> lists[j] == []
      {
        lists := lists + [[]];
      }
      adjList := lists;
    }

    /** Append the edge `source -> dest` to the end of `source`'s list. The
        Java code does not check the indices; callers must keep them in
        range. */
    method AddEdge(source: int, dest: int, weight: int)
      requires Valid() && 0 <= source < vertices && 0 <= dest < vertices
      modifies this
      ensures Valid()
      ensures adjList == old(adjList)[source := old(adjList)[source] + [Edge(source, dest, weight)]]
    {
      adjList := adjList[source := adjList[source] + [Edge(source, dest, weight)]];
    }

    /** Lazy-deletion Dijkstra from `start`. Every finite distance is the
        weight of some walk from `start`, each vertex is finalized at most
        once (`order` lists them in the order they were), exactly the vertices
        with a finite distance are finalized, and with non-negative weights
        the table is the shortest-distance table. */
    method Dijkstra(start: int) returns (distances: seq<Dist>, ghost order: seq<int>)
      requires Valid() && 0 <= start < vertices
      ensures |distances| == vertices && Sound(adjList, start, distances)
      ensures forall i, j :: 0 <= i < j < |order| ==> order[i] != order[j]
      ensures forall v :: 0 <= v < vertices ==> (distances[v].Fin? <==> v in order)
      ensures NonNegative(adjList) ==>
        ShortestTable(adjList, start, distances) && distances[start] == Fin(0)
    {
      var n := vertices;
      var dist := new Dist[n](_ => Inf);
      var visited := new bool[n](_ => false);
      dist[start] := Fin(0);
      var pq := multiset{Edge(start, start, 0)};
      order := [];
      InitInv(adjList, n, start);
      assert dist[..] == Initial(n, start);
      assert visited[..] == seq(n, _ => false);

      while pq != multiset{}
        invariant Inv(adjList, n, start, dist[..], visited[..], pq)
        invariant VisitOrder(visited[..], order)
        decreases Unvisited(visited[..]), |pq|
      {
        var current;
        pq, order, current := Poll(start, dist, visited, pq, order);
      }
      Finish(adjList, n, start, dist[..], visited[..]);
      distances := dist[..];
      assert forall v :: 0 <= v < n ==> (visited[..][v] <==> v in order);
    }

    /** One round of the main loop: poll a least entry `current`. When its
        vertex is already visited the entry is dropped and nothing else
        changes; otherwise that vertex is visited. Either fewer vertices are
        left unvisited, or as many and the queue is shorter. */
    method Poll(start: int, dist: array<Dist>, visited: array<bool>, pq: multiset<Edge>, ghost order: seq<int>)
      returns (pq': multiset<Edge>, ghost order': seq<int>, current: Edge)
      requires Valid() && pq != multiset{}
      requires Inv(adjList, vertices, start, dist[..], visited[..], pq) && VisitOrder(visited[..], order)
      modifies dist, visited
      ensures current in pq && forall e :: e in pq ==> current.weight <= e.weight
      ensures 0 <= current.dest < vertices && EdgesIn(adjList[current.dest], vertices)
      ensures old(visited[current.dest]) ==>
        pq' == pq - multiset{current} && dist[..] == old(dist[..]) && visited[..] == old(visited[..])
      ensures !old(visited[current.dest]) ==>
        visited[..] == old(visited[..])[current.dest := true] &&
        dist[..] == Pass(old(dist[..]), adjList[current.dest]) &&
        pq' == Pushes(old(dist[..]), pq - multiset{current}, adjList[current.dest])
      ensures NonNegative(adjList) ==>
        forall x :: 0 <= x < vertices && visited[..][x] ==> dist[..][x] == old(dist[..])[x]
      ensures Inv(adjList, vertices, start, dist[..], visited[..], pq') && VisitOrder(visited[..], order')
      ensures Unvisited(visited[..]) < Unvisited(old(visited[..])) ||
              (Unvisited(visited[..]) == Unvisited(old(visited[..])) && |pq'| < |pq|)
    {
      MinExists(pq);
      current :| current in pq && forall e :: e in pq ==> current.weight <= e.weight;
      pq' := pq - multiset{current};
      var u := current.dest;
      if visited[u] {
        PopStale(adjList, vertices, start, dist[..], visited[..], pq, current);
        order' := order;
        return;
      }
      VisitOrderExtend(visited[..], order, u);
      pq' := Visit(start, dist, visited, current, pq', pq);
      order' := order + [u];
    }

    /** A fresh pop of `current` (its vertex `u` not yet visited): mark `u`
        visited, then relax every edge leaving `u`, in list order, pushing an
        entry keyed with the new distance whenever an edge improves its
        destination. `pq0` is the queue before the poll. With non-negative
        weights no visited vertex's distance changes, `u`'s included. */
    method Visit(start: int, dist: array<Dist>, visited: array<bool>, current: Edge,
                 pq: multiset<Edge>, ghost pq0: multiset<Edge>) returns (pq': multiset<Edge>)
      requires Valid()
      requires Inv(adjList, vertices, start, dist[..], visited[..], pq0)
      requires current in pq0 && (forall e :: e in pq0 ==> current.weight <= e.weight)
      requires pq == pq0 - multiset{current}
      requires 0 <= current.dest < vertices && !visited[current.dest]
      modifies dist, visited
      ensures EdgesIn(adjList[current.dest], vertices)
      ensures visited[..] == old(visited[..])[current.dest := true]
      ensures dist[..] == Pass(old(dist[..]), adjList[current.dest])
      ensures pq' == Pushes(old(dist[..]), pq, adjList[current.dest])
      ensures NonNegative(adjList) ==>
        forall x :: 0 <= x < vertices && old(visited[..])[current.dest := true][x] ==>
          Pass(old(dist[..]), adjList[current.dest])[x] == old(dist[..])[x]
      ensures Inv(adjList, vertices, start, Pass(old(dist[..]), adjList[current.dest]),
                  old(visited[..])[current.dest := true], Pushes(old(dist[..]), pq, adjList[current.dest]))
    {
      ghost var d0, vis0 := dist[..], visited[..];
      Settle(adjList, vertices, start, d0, vis0, pq0, current);
      var u := current.dest;
      visited[u] := true;
      assert visited[..] == vis0[u := true];
      pq' := RelaxNeighbours(dist, u, adjList[u], pq);
    }

    /** Relax the edges `edges` leaving the vertex `u` just visited, in list
        order, pushing an entry keyed with the new distance whenever an edge
        improves its destination. */
    method RelaxNeighbours(dist: array<Dist>, u: int, edges: seq<Edge>, pq: multiset<Edge>) returns (pq': multiset<Edge>)
      requires 0 <= u < dist.Length && dist[u].Fin?
      requires EdgesIn(edges, dist.Length) && forall e :: e in edges ==> e.source == u
      modifies dist
      ensures dist[..] == Pass(old(dist[..]), edges)
      ensures pq' == Pushes(old(dist[..]), pq, edges)
    {
      ghost var d0 := dist[..];
      pq' := pq;
      for j := 0 to |edges|
        invariant EdgesIn(edges[..j], dist.Length)
        invariant dist[..] == Pass(d0, edges[..j]) && pq' == Pushes(d0, pq, edges[..j])
        invariant dist[u].Fin?
      {
        var edge := edges[j];
        assert forall e :: e in edges[..j + 1] ==> e in edges;
        PassPushesNext(d0, pq, edges, j);
        pq' := RelaxFrom(dist, u, edge, pq');
      }
      assert edges[..|edges|] == edges;
    }

    /** Dijkstra's relaxation of `edge` out of the settled vertex `u`: when
        the path through `edge` is strictly shorter, the destination's entry
        drops to it and an entry keyed with it is pushed. This is the same
        relaxation Bellman-Ford makes (`Relax`): `u` is reached, so no
        infinity guard is needed. */
    method RelaxFrom(dist: array<Dist>, u: int, edge: Edge, pq: multiset<Edge>) returns (pq': multiset<Edge>)
      requires 0 <= u < dist.Length && edge.source == u && 0 <= edge.dest < dist.Length && dist[u].Fin?
      modifies dist
      ensures dist[..] == Relax(old(dist[..]), edge) && dist[u].Fin?
      ensures pq' == QueueAfter(old(dist[..]), pq, edge)
    {
      var v := edge.dest;
      var weight := edge.weight;
      pq' := pq;
      if Improves(dist[u].val + weight, dist[v]) {
        dist[v] := Fin(dist[u].val + weight);
        pq' := pq + multiset{Edge(u, v, dist[v].val)};
      }
    }

    /** Bellman-Ford from `start`: `vertices - 1` passes relaxing every edge
        (list after list), then a check pass that withholds the table as soon
        as an edge still relaxes. The outcome is `BellmanFordResult`; it
        reports a negative cycle exactly when one is reachable from `start`,
        and a returned table is the shortest-distance table. */
    method BellmanFord(start: int) returns (r: Outcome)
      requires Valid() && 0 <= start < vertices
      ensures r == BellmanFordResult(adjList, vertices, start)
      ensures r.NegativeCycle? <==> NegativeCycleReachable(adjList, start)
      ensures r.Distances? ==>
        |r.table| == vertices && ShortestTable(adjList, start, r.table) && r.table[start] == Fin(0)
    {
      var n := vertices;
      FlattenPrefixesWellFormed(adjList, n);
      assert adjList[..n] == adjList;
      var dist := new Dist[n](_ => Inf);
      dist[start] := Fin(0);
      ghost var init := dist[..];
      assert init == Initial(n, start);

      for i := 0 to n - 1
        invariant dist[..] == Passes(adjList, init, i)
      {
        RelaxAll(dist);
      }

      var found := FindRelaxable(dist);
      if found {
        r := NegativeCycle;
      } else {
        r := Distances(dist[..]);
      }
      DetectsExactlyNegativeCycles(adjList, n, start);
      TableIsShortest(adjList, n, start);
    }

    /** One Bellman-Ford pass: relax every edge, list after list, each in
        list order, against the table as updated so far. */
    method RelaxAll(dist: array<Dist>)
      requires Valid() && dist.Length == vertices
      modifies dist
      ensures EdgesIn(Flatten(adjList), vertices)
      ensures dist[..] == Pass(old(dist[..]), Flatten(adjList))
    {
      FlattenPrefixesWellFormed(adjList, vertices);
      assert adjList[..vertices] == adjList;
      ghost var before := dist[..];
      for li := 0 to |adjList|
        invariant dist[..] == Pass(before, Flatten(adjList[..li]))
      {
        FlattenSnoc(adjList, li);
        PassAppend(before, Flatten(adjList[..li]), adjList[li]);
        RelaxList(dist, adjList[li]);
      }
    }

    /** Relax the edges of one adjacency list, in list order. */
    method RelaxList(dist: array<Dist>, edges: seq<Edge>)
      requires EdgesIn(edges, dist.Length)
      modifies dist
      ensures dist[..] == Pass(old(dist[..]), edges)
    {
      ghost var before := dist[..];
      for j := 0 to |edges|
        invariant dist[..] == Pass(before, edges[..j])
      {
        assert edges[..j + 1][..j] == edges[..j];
        RelaxEdge(dist, edges[j]);
      }
      assert edges[..|edges|] == edges;
    }

    /** Bellman-Ford's relaxation of one edge: skipped while the source is
        still at infinity, otherwise the destination drops to the path
        through `edge` when that is strictly shorter. */
    method RelaxEdge(dist: array<Dist>, edge: Edge)
      requires 0 <= edge.source < dist.Length && 0 <= edge.dest < dist.Length
      modifies dist
      ensures dist[..] == Relax(old(dist[..]), edge)
    {
      var u := edge.source;
      var v := edge.dest;
      var weight := edge.weight;
      if dist[u] != Inf && Improves(dist[u].val + weight, dist[v]) {
        dist[v] := Fin(dist[u].val + weight);
      }
    }

    /** The check pass: is there an edge that still relaxes? The scan stops at
        the first such edge. */
    method FindRelaxable(dist: array<Dist>) returns (found: bool)
      requires Valid() && dist.Length == vertices
      ensures EdgesIn(Flatten(adjList), vertices)
      ensures found <==> exists e :: e in Flatten(adjList) && Relaxable(dist[..], e)
    {
      FlattenPrefixesWellFormed(adjList, vertices);
      assert adjList[..vertices] == adjList;
      for li := 0 to |adjList|
        invariant forall e :: e in Flatten(adjList[..li]) ==> !Relaxable(dist[..], e)
      {
        FlattenSnoc(adjList, li);
        var edges := adjList[li];
        for j := 0 to |edges|
          invariant forall e :: e in Flatten(adjList[..li]) + edges[..j] ==> !Relaxable(dist[..], e)
        {
          var edge := edges[j];
          assert edges[..j + 1] == edges[..j] + [edge];
          var u := edge.source;
          var v := edge.dest;
          var weight := edge.weight;
          if dist[u] != Inf && Improves(dist[u].val + weight, dist[v]) {
            assert edge in Flatten(adjList) && Relaxable(dist[..], edge) by {
              FlattenMember(adjList, edge);
            }
            return true;
          }
        }
        assert edges[..|edges|] == edges;
      }
      assert adjList[..|adjList|] == adjList;
      return false;
    }
  }
}
