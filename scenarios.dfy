/** Two small graphs run through the class: one with non-negative weights,
    on which both algorithms return the same table, and one with a negative
    cycle, which Bellman-Ford reports. */
module Scenarios {
  import opened Edges
  import opened Walks
  import opened Relaxation
  import opened BellmanFordSpec
  import opened ShortestPaths

  /** Five vertices; the cheapest way from 0 to 1 goes through 2. */
  function Sample(): seq<seq<Edge>>
  {
    [[Edge(0, 1, 4), Edge(0, 2, 1)],
     [Edge(1, 3, 1)],
     [Edge(2, 1, 2), Edge(2, 3, 5)],
     [Edge(3, 4, 3)],
     []]
  }

  function SampleTable(): seq<Dist>
  {
    [Fin(0), Fin(3), Fin(1), Fin(4), Fin(7)]
  }

  /** No edge of the sample improves the sample table. */
  lemma SampleFeasible()
    ensures WellFormed(Sample(), 5) && NonNegative(Sample())
    ensures Feasible(Sample(), 0, SampleTable())
  {
    var adj, d := Sample(), SampleTable();
    assert WellFormed(adj, 5);
    forall e | EdgeIn(adj, e) ensures e.weight >= 0 && AtMost(d[e.dest], d[e.source].val + e.weight) {
      assert e in adj[e.source];
    }
  }

  /** Each entry of the sample table is the weight of a walk from 0. */
  lemma SampleSound()
    ensures Sound(Sample(), 0, SampleTable())
  {
    var adj, d := Sample(), SampleTable();
    var p0: seq<Edge> := [];
    assert IsWalk(adj, p0, 0, 0) && Weight(p0) == 0;
    WalkExtend(adj, p0, 0, Edge(0, 2, 1));
    var p2 := p0 + [Edge(0, 2, 1)];
    WalkExtend(adj, p2, 0, Edge(2, 1, 2));
    var p1 := p2 + [Edge(2, 1, 2)];
    WalkExtend(adj, p1, 0, Edge(1, 3, 1));
    var p3 := p1 + [Edge(1, 3, 1)];
    WalkExtend(adj, p3, 0, Edge(3, 4, 3));
    var p4 := p3 + [Edge(3, 4, 3)];
    assert Weight(p1) == 3 && Weight(p2) == 1 && Weight(p3) == 4 && Weight(p4) == 7;
  }

  /** From vertex 0 the shortest distances are 0, 3, 1, 4, 7, and
      Bellman-Ford returns exactly them. */
  lemma SampleShortest()
    ensures WellFormed(Sample(), 5) && NonNegative(Sample())
    ensures ShortestTable(Sample(), 0, SampleTable())
    ensures BellmanFordResult(Sample(), 5, 0) == Distances(SampleTable())
  {
    SampleFeasible();
    SampleSound();
    FeasibleIsLowerBound(Sample(), 0, SampleTable());
    NonNegativeAgreement(Sample(), 5, 0, SampleTable());
  }

  /** Two vertices joined both ways by edges of weight -1. */
  function Loop(): seq<seq<Edge>>
  {
    [[Edge(0, 1, -1)], [Edge(1, 0, -1)]]
  }

  /** The cycle 0 -> 1 -> 0 weighs -2, so Bellman-Ford withholds the table. */
  lemma LoopDetected()
    ensures WellFormed(Loop(), 2)
    ensures BellmanFordResult(Loop(), 2, 0) == NegativeCycle
  {
    var adj := Loop();
    var none: seq<Edge> := [];
    assert IsWalk(adj, none, 0, 0) && Weight(none) == 0;
    WalkExtend(adj, none, 0, Edge(0, 1, -1));
    WalkExtend(adj, none + [Edge(0, 1, -1)], 0, Edge(1, 0, -1));
    var cycle := none + [Edge(0, 1, -1)] + [Edge(1, 0, -1)];
    assert IsWalk(adj, cycle, 0, 0) && Weight(cycle) == -2;
    assert NegativeCycleReachable(adj, 0);
    DetectsExactlyNegativeCycles(adj, 2, 0);
  }

  /** Build the sample graph through the class, edge by edge. */
  method BuildSample() returns (g: Graph)
    ensures fresh(g) && g.Valid() && g.vertices == 5 && g.adjList == Sample()
  {
    g := new Graph(5);
    assert g.adjList == [[], [], [], [], []];
    g.AddEdge(0, 1, 4);
    g.AddEdge(0, 2, 1);
    g.AddEdge(1, 3, 1);
    g.AddEdge(2, 1, 2);
    g.AddEdge(2, 3, 5);
    g.AddEdge(3, 4, 3);
    assert |g.adjList| == 5;
    assert g.adjList[0] == Sample()[0] && g.adjList[1] == Sample()[1] && g.adjList[2] == Sample()[2];
    assert g.adjList[3] == Sample()[3] && g.adjList[4] == Sample()[4];
  }

  /** Query the sample graph both ways: the two tables agree. */
  method RunSample() returns (dijkstra: seq<Dist>, bellmanFord: Outcome)
    ensures dijkstra == SampleTable() && bellmanFord == Distances(SampleTable())
  {
    var g := BuildSample();
    SampleShortest();
    ghost var order;
    dijkstra, order := g.Dijkstra(0);
    ShortestUnique(Sample(), 0, dijkstra, SampleTable());
    bellmanFord := g.BellmanFord(0);
  }

  /** Build the two-vertex negative cycle through the class. */
  method BuildLoop() returns (g: Graph)
    ensures fresh(g) && g.Valid() && g.vertices == 2 && g.adjList == Loop()
  {
    g := new Graph(2);
    assert g.adjList == [[], []];
    g.AddEdge(0, 1, -1);
    g.AddEdge(1, 0, -1);
    assert |g.adjList| == 2 && g.adjList[0] == Loop()[0] && g.adjList[1] == Loop()[1];
  }

  /** Bellman-Ford on the negative cycle withholds the table. */
  method RunLoop() returns (bellmanFord: Outcome)
    ensures bellmanFord == NegativeCycle
  {
    var g := BuildLoop();
    LoopDetected();
    bellmanFord := g.BellmanFord(0);
  }
}
