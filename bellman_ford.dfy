/** What `bellmanFord` computes, as a function of the graph and the start
    vertex, and what that result means in terms of walks. */
module BellmanFordSpec {
  import opened Edges
  import opened Walks
  import opened Relaxation

  /** The two terminal outcomes: the distance table, or the report of a
      negative-weight cycle with the table withheld. */
  datatype Outcome = Distances(table: seq<Dist>) | NegativeCycle

  /** `vertices - 1` passes over every edge from the start table, followed by
      one check pass: if any edge still relaxes, the table is withheld. */
  function BellmanFordResult(adj: seq<seq<Edge>>, n: nat, start: int): (r: Outcome)
    requires WellFormed(adj, n) && 0 <= start < n
    ensures r.Distances? ==> |r.table| == n
  {
    FlattenWellFormed(adj, n, n);
    assert adj[..n] == adj;
    var t := Passes(adj, Initial(n, start), n - 1);
    if exists e :: e in Flatten(adj) && Relaxable(t, e) then NegativeCycle else Distances(t)
  }

  /** A returned table holds the exact shortest walk weights, with 0 at the
      start and infinity exactly at the vertices the start cannot reach. */
  lemma TableIsShortest(adj: seq<seq<Edge>>, n: nat, start: int)
    requires WellFormed(adj, n) && 0 <= start < n
    ensures BellmanFordResult(adj, n, start).Distances? ==>
      var t := BellmanFordResult(adj, n, start).table;
      |t| == n && ShortestTable(adj, start, t) && t[start] == Fin(0)
  {
    var r := BellmanFordResult(adj, n, start);
    if r.Distances? {
      var t := r.table;
      PassesSound(adj, n, start, n - 1);
      PassesLower(adj, Initial(n, start), n - 1);
      assert AtMost(Initial(n, start)[start], 0);
      forall e | EdgeIn(adj, e) && 0 <= e.dest < n && t[e.source].Fin?
        ensures AtMost(t[e.dest], t[e.source].val + e.weight)
      {
        EdgeInFlatten(adj, n, e);
        assert !Relaxable(t, e);
      }
      assert Feasible(adj, start, t);
      FeasibleIsLowerBound(adj, start, t);
      var c :| IsWalk(adj, c, start, start) && Weight(c) == t[start].val;
      CycleNotNegative(adj, start, t, [], c, start);
    }
  }

  /** A table is returned only when no negative cycle is reachable. */
  lemma TableExcludesNegativeCycle(adj: seq<seq<Edge>>, n: nat, start: int)
    requires WellFormed(adj, n) && 0 <= start < n
    ensures BellmanFordResult(adj, n, start).Distances? ==> !NegativeCycleReachable(adj, start)
  {
    TableIsShortest(adj, n, start);
    var r := BellmanFordResult(adj, n, start);
    if r.Distances? {
      LowerBoundExcludesNegativeCycle(adj, start, r.table);
    }
  }

  /** Without a reachable negative cycle, a sound table that no walk of
      fewer than `n` edges undercuts leaves no edge to relax: the walk through
      the edge has a no-heavier version of fewer than `n` edges. */
  lemma NothingToRelax(adj: seq<seq<Edge>>, n: nat, start: int, t: seq<Dist>, e: Edge)
    requires WellFormed(adj, n) && 0 <= start < n && |t| == n && EdgeIn(adj, e)
    requires !NegativeCycleReachable(adj, start) && Sound(adj, start, t)
    requires forall q, v :: IsWalk(adj, q, start, v) && |q| < n ==> 0 <= v < n && AtMost(t[v], Weight(q))
    ensures 0 <= e.dest < n && !Relaxable(t, e)
  {
    if t[e.source].Fin? {
      var p :| IsWalk(adj, p, start, e.source) && Weight(p) == t[e.source].val;
      WalkExtend(adj, p, start, e);
      ShortWalk(adj, n, start, p + [e], e.dest);
      var q :| IsWalk(adj, q, start, e.dest) && |q| < n && Weight(q) <= Weight(p + [e]);
      assert AtMost(t[e.dest], Weight(q));
    }
  }

  /** Without a reachable negative cycle, no edge can improve the table
      after `vertices - 1` passes. */
  lemma EdgeSettled(adj: seq<seq<Edge>>, n: nat, start: int, e: Edge)
    requires WellFormed(adj, n) && 0 <= start < n && EdgeIn(adj, e)
    requires !NegativeCycleReachable(adj, start)
    ensures EdgesIn(Flatten(adj), n) && 0 <= e.dest < n
    ensures !Relaxable(Passes(adj, Initial(n, start), n - 1), e)
  {
    FlattenWellFormed(adj, n, n);
    assert adj[..n] == adj;
    var t := Passes(adj, Initial(n, start), n - 1);
    PassesSound(adj, n, start, n - 1);
    forall q, v | IsWalk(adj, q, start, v) && |q| < n
      ensures 0 <= v < n && AtMost(t[v], Weight(q))
    {
      PassesBound(adj, n, start, n - 1, q, v);
    }
    NothingToRelax(adj, n, start, t, e);
  }

  /** Without a reachable negative cycle, the check pass finds nothing to
      relax and the table is returned. */
  lemma NoNegativeCycleGivesTable(adj: seq<seq<Edge>>, n: nat, start: int)
    requires WellFormed(adj, n) && 0 <= start < n
    ensures !NegativeCycleReachable(adj, start) ==> BellmanFordResult(adj, n, start).Distances?
  {
    if !NegativeCycleReachable(adj, start) {
      FlattenWellFormed(adj, n, n);
      assert adj[..n] == adj;
      var t := Passes(adj, Initial(n, start), n - 1);
      forall e | e in Flatten(adj) ensures !Relaxable(t, e) {
        EdgeSettled(adj, n, start, e);
      }
    }
  }

  /** `bellmanFord` reports a negative-weight cycle exactly when one is
      reachable from the start vertex. */
  lemma DetectsExactlyNegativeCycles(adj: seq<seq<Edge>>, n: nat, start: int)
    requires WellFormed(adj, n) && 0 <= start < n
    ensures BellmanFordResult(adj, n, start).NegativeCycle? <==> NegativeCycleReachable(adj, start)
  {
    TableExcludesNegativeCycle(adj, n, start);
    NoNegativeCycleGivesTable(adj, n, start);
  }

  /** With non-negative weights Bellman-Ford returns a table, and it is the
      one shortest-distance table: any other algorithm producing a shortest
      table (Dijkstra's) agrees with it. */
  lemma NonNegativeAgreement(adj: seq<seq<Edge>>, n: nat, start: int, d: seq<Dist>)
    requires WellFormed(adj, n) && 0 <= start < n && NonNegative(adj)
    requires |d| == n && ShortestTable(adj, start, d)
    ensures BellmanFordResult(adj, n, start) == Distances(d)
  {
    NonNegativeNoNegativeCycle(adj, start);
    NoNegativeCycleGivesTable(adj, n, start);
    TableIsShortest(adj, n, start);
    ShortestUnique(adj, start, BellmanFordResult(adj, n, start).table, d);
  }

  /** With no edges at all, the start table comes back untouched: the start
      at 0, every other vertex unreached. */
  lemma NoEdgesTable(adj: seq<seq<Edge>>, n: nat, start: int)
    requires WellFormed(adj, n) && 0 <= start < n
    requires forall i :: 0 <= i < n ==> adj[i] == []
    ensures BellmanFordResult(adj, n, start) == Distances(Initial(n, start))
  {
    var d := Initial(n, start);
    assert NonNegative(adj);
    assert Feasible(adj, start, d);
    InitialSound(adj, n, start);
    FeasibleIsLowerBound(adj, start, d);
    NonNegativeAgreement(adj, n, start, d);
  }

  /** Under non-negative weights no finite distance is negative (a
      non-negative self-loop cannot push the start below 0). */
  lemma NonNegativeDistances(adj: seq<seq<Edge>>, start: int, d: seq<Dist>)
    requires NonNegative(adj) && Sound(adj, start, d)
    ensures forall v :: 0 <= v < |d| && d[v].Fin? ==> d[v].val >= 0
  {
    forall v | 0 <= v < |d| && d[v].Fin? ensures d[v].val >= 0 {
      var p :| IsWalk(adj, p, start, v) && Weight(p) == d[v].val;
      NonNegativeWeight(adj, p, start, v);
    }
  }
}
