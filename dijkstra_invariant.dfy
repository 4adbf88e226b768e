/** The loop invariant of the lazy-deletion Dijkstra loop, stated over
    snapshots of its state (distance table, visited flags, priority queue),
    and one lemma per step of the loop showing the step preserves it.

    A queue entry is an `Edge` whose `dest` is the vertex and whose `weight`
    is the candidate distance it was pushed with. The invariant has a part
    that holds whatever the weights, which gives termination and that every
    finite distance is a walk weight, and a part that holds when no weight is
    negative, which gives that the final table is the shortest one. */
module DijkstraInvariant {
  import opened Edges
  import opened Walks
  import opened Relaxation

  /** Every queued entry's vertex already has a finite distance no larger
      than the entry's key (distances only fall after a push). */
  ghost predicate KeysAboveDistances(d: seq<Dist>, pq: multiset<Edge>)
  {
    forall e :: e in pq ==> 0 <= e.dest < |d| && AtMost(d[e.dest], e.weight)
  }

  /** The queue holds an entry for `v` keyed exactly `k`. */
  ghost predicate HasEntry(pq: multiset<Edge>, v: int, k: int)
  {
    exists e :: e in pq && e.dest == v && e.weight == k
  }

  /** Every unvisited vertex with a finite distance has an entry carrying
      that very distance (the one pushed when it was stored). */
  ghost predicate PendingQueued(d: seq<Dist>, vis: seq<bool>, pq: multiset<Edge>)
  {
    |vis| == |d| &&
    forall v :: 0 <= v < |d| && !vis[v] && d[v].Fin? ==> HasEntry(pq, v, d[v].val)
  }

  /** Edges `0 .. m-1` of `x`'s list cannot improve their destinations. */
  ghost predicate Settled(adj: seq<seq<Edge>>, d: seq<Dist>, x: int, m: int)
    requires 0 <= x < |adj| && 0 <= x < |d| && 0 <= m <= |adj[x]|
  {
    d[x].Fin? &&
    forall j :: 0 <= j < m ==>
      0 <= adj[x][j].dest < |d| && AtMost(d[adj[x][j].dest], d[x].val + adj[x][j].weight)
  }

  /** The part of the invariant that holds whatever the weights. */
  ghost predicate Common(adj: seq<seq<Edge>>, n: nat, start: int, d: seq<Dist>, vis: seq<bool>, pq: multiset<Edge>)
  {
    WellFormed(adj, n) && 0 <= start < n && |d| == n && |vis| == n &&
    KeysAboveDistances(d, pq) && PendingQueued(d, vis, pq) &&
    (forall v :: 0 <= v < n && vis[v] ==> d[v].Fin?) &&
    AtMost(d[start], 0) && Sound(adj, start, d)
  }

  /** The invariant at the head of the outer loop. With non-negative weights,
      visited vertices are at most every queued key and their edges are all
      settled. */
  ghost predicate Inv(adj: seq<seq<Edge>>, n: nat, start: int, d: seq<Dist>, vis: seq<bool>, pq: multiset<Edge>)
  {
    Common(adj, n, start, d, vis, pq) &&
    (NonNegative(adj) ==>
      (forall x, e :: 0 <= x < n && vis[x] && e in pq ==> AtMost(d[x], e.weight)) &&
      (forall x :: 0 <= x < n && vis[x] ==> Settled(adj, d, x, |adj[x]|)))
  }

  /** The ordering facts that hold, with non-negative weights, while the
      edges of the freshly visited `u` are relaxed; `k` is the key `u` was
      popped with: `k` is `u`'s distance, every visited distance is at most
      `k`, every queued key at least `k`, all edges of the other visited
      vertices and the first `j` edges of `u` are settled. */
  ghost predicate Ordered(adj: seq<seq<Edge>>, n: nat, d: seq<Dist>, vis: seq<bool>, pq: multiset<Edge>,
                          u: int, j: int, k: int)
    requires |adj| == n && |d| == n && |vis| == n && 0 <= u < n && 0 <= j <= |adj[u]|
  {
    d[u] == Fin(k) &&
    (forall x :: 0 <= x < n && vis[x] ==> AtMost(d[x], k)) &&
    (forall e :: e in pq ==> k <= e.weight) &&
    (forall x :: 0 <= x < n && vis[x] && x != u ==> Settled(adj, d, x, |adj[x]|)) &&
    Settled(adj, d, u, j)
  }

  /** The invariant while the edges of the freshly visited `u` are relaxed. */
  ghost predicate Inner(adj: seq<seq<Edge>>, n: nat, start: int, d: seq<Dist>, vis: seq<bool>, pq: multiset<Edge>,
                        u: int, j: int, k: int)
  {
    Common(adj, n, start, d, vis, pq) && 0 <= u < n && vis[u] && 0 <= j <= |adj[u]| &&
    (NonNegative(adj) ==> Ordered(adj, n, d, vis, pq, u, j, k))
  }

  /** How many vertices are still unvisited. */
  function Unvisited(vis: seq<bool>): nat
  {
    if vis == [] then 0 else (if vis[0] then 0 else 1) + Unvisited(vis[1..])
  }

  /** Visiting a vertex lowers the count of unvisited ones. */
  lemma {:induction false} VisitDecreases(vis: seq<bool>, u: int)
    requires 0 <= u < |vis| && !vis[u]
    ensures Unvisited(vis[u := true]) < Unvisited(vis)
    decreases |vis|
  {
    if u > 0 {
      assert vis[u := true][1..] == vis[1..][u - 1 := true];
      VisitDecreases(vis[1..], u - 1);
    } else {
      assert vis[u := true][1..] == vis[1..];
    }
  }

  /** `order` lists each visited vertex once, and nothing else. */
  ghost predicate VisitOrder(vis: seq<bool>, order: seq<int>)
  {
    (forall i, j :: 0 <= i < j < |order| ==> order[i] != order[j]) &&
    (forall v :: 0 <= v < |vis| ==> (vis[v] <==> v in order)) &&
    (forall i :: 0 <= i < |order| ==> 0 <= order[i] < |vis|)
  }

  /** Visiting an unvisited vertex appends it to the order. */
  lemma VisitOrderExtend(vis: seq<bool>, order: seq<int>, u: int)
    requires VisitOrder(vis, order) && 0 <= u < |vis| && !vis[u]
    ensures VisitOrder(vis[u := true], order + [u])
    ensures Unvisited(vis[u := true]) < Unvisited(vis)
  {
    VisitDecreases(vis, u);
  }

  /** A non-empty queue has an entry of least key. */
  lemma {:induction false} MinExists(pq: multiset<Edge>)
    requires pq != multiset{}
    ensures exists m :: m in pq && forall e :: e in pq ==> m.weight <= e.weight
    decreases |pq|
  {
    var x :| x in pq;
    var rest := pq - multiset{x};
    assert forall e :: e in pq ==> e == x || e in rest;
    if rest != multiset{} {
      MinExists(rest);
      var y :| y in rest && forall e :: e in rest ==> y.weight <= e.weight;
      if y.weight <= x.weight {
        assert y in pq && forall e :: e in pq ==> y.weight <= e.weight;
      } else {
        assert forall e :: e in pq ==> x.weight <= e.weight;
      }
    } else {
      assert forall e :: e in pq ==> x.weight <= e.weight;
    }
  }

  /** The start state: the start table, nothing visited, one entry
      `(start, start, 0)` queued. */
  lemma InitInv(adj: seq<seq<Edge>>, n: nat, start: int)
    requires WellFormed(adj, n) && 0 <= start < n
    ensures Inv(adj, n, start, Initial(n, start), seq(n, _ => false), multiset{Edge(start, start, 0)})
  {
    var d, pq := Initial(n, start), multiset{Edge(start, start, 0)};
    InitialSound(adj, n, start);
    assert HasEntry(pq, start, 0);
  }

  /** Entries for unvisited vertices other than `m.dest` survive removing `m`. */
  lemma QueuedAfterPop(d: seq<Dist>, vis: seq<bool>, pq: multiset<Edge>, m: Edge, vis': seq<bool>)
    requires PendingQueued(d, vis, pq) && 0 <= m.dest < |d| && |vis'| == |d|
    requires vis' == vis[m.dest := true] || (vis' == vis && vis[m.dest])
    ensures PendingQueued(d, vis', pq - multiset{m})
  {
    forall v | 0 <= v < |d| && !vis'[v] && d[v].Fin?
      ensures HasEntry(pq - multiset{m}, v, d[v].val)
    {
      var e :| e in pq && e.dest == v && e.weight == d[v].val;
      assert e != m;
      assert e in pq - multiset{m};
    }
  }

  /** A stale entry (its vertex already visited) is discarded and nothing
      else changes. */
  lemma PopStale(adj: seq<seq<Edge>>, n: nat, start: int, d: seq<Dist>, vis: seq<bool>, pq: multiset<Edge>, m: Edge)
    requires Inv(adj, n, start, d, vis, pq) && m in pq && 0 <= m.dest < n && vis[m.dest]
    ensures Inv(adj, n, start, d, vis, pq - multiset{m})
  {
    QueuedAfterPop(d, vis, pq, m, vis);
  }

  /** With non-negative weights, the least entry `m` of the queue carries
      exactly the distance of its unvisited vertex `u`, every visited distance
      is no larger, and the remaining keys are no smaller. */
  lemma PopOrdered(adj: seq<seq<Edge>>, n: nat, start: int, d: seq<Dist>, vis: seq<bool>, pq: multiset<Edge>, m: Edge)
    requires Inv(adj, n, start, d, vis, pq) && m in pq && (forall e :: e in pq ==> m.weight <= e.weight)
    requires 0 <= m.dest < n && !vis[m.dest] && NonNegative(adj)
    ensures Ordered(adj, n, d, vis[m.dest := true], pq - multiset{m}, m.dest, 0, m.weight)
  {
    var u, vis' := m.dest, vis[m.dest := true];
    assert AtMost(d[u], m.weight);
    var e :| e in pq && e.dest == u && e.weight == d[u].val;
    assert d[u] == Fin(m.weight);
    forall x | 0 <= x < n && vis'[x] ensures AtMost(d[x], m.weight) {
      if x != u {
        assert vis[x];
      }
    }
    forall x | 0 <= x < n && vis'[x] && x != u ensures Settled(adj, d, x, |adj[x]|) {
      assert vis[x];
    }
  }

  /** Popping a least entry whose vertex `u` is unvisited and marking `u`
      visited gives the invariant of the inner loop, before any edge of `u`
      is relaxed. */
  lemma PopFresh(adj: seq<seq<Edge>>, n: nat, start: int, d: seq<Dist>, vis: seq<bool>, pq: multiset<Edge>, m: Edge)
    requires Inv(adj, n, start, d, vis, pq) && m in pq && (forall e :: e in pq ==> m.weight <= e.weight)
    requires 0 <= m.dest < n && !vis[m.dest]
    ensures Inner(adj, n, start, d, vis[m.dest := true], pq - multiset{m}, m.dest, 0, m.weight)
  {
    var u, vis' := m.dest, vis[m.dest := true];
    QueuedAfterPop(d, vis, pq, m, vis');
    assert AtMost(d[u], m.weight);
    assert Common(adj, n, start, d, vis', pq - multiset{m});
    if NonNegative(adj) {
      PopOrdered(adj, n, start, d, vis, pq, m);
    }
  }

  /** The queue after relaxing `e`: an entry keyed with the new distance of
      `e.dest` is pushed exactly when `e` improves it. */
  function QueueAfter(d: seq<Dist>, pq: multiset<Edge>, e: Edge): multiset<Edge>
    requires 0 <= e.source < |d| && 0 <= e.dest < |d|
  {
    if Relaxable(d, e) then pq + multiset{Edge(e.source, e.dest, d[e.source].val + e.weight)} else pq
  }

  /** Relaxing an edge keeps every queued key at or above its vertex's
      distance: a lowered distance comes with a push of exactly that key. */
  lemma RelaxKeepsKeys(d: seq<Dist>, pq: multiset<Edge>, e: Edge)
    requires 0 <= e.source < |d| && 0 <= e.dest < |d| && KeysAboveDistances(d, pq)
    ensures KeysAboveDistances(Relax(d, e), QueueAfter(d, pq, e))
  {
    var d', pq' := Relax(d, e), QueueAfter(d, pq, e);
    RelaxOnlyLowers(d, e);
    forall f | f in pq' ensures 0 <= f.dest < |d| && AtMost(d'[f.dest], f.weight) {
      if !Relaxable(d, e) || f != Edge(e.source, e.dest, d[e.source].val + e.weight) {
        assert f in pq;
      }
    }
  }

  /** Relaxing an edge keeps an entry carrying the current distance of every
      unvisited vertex with a finite one. */
  lemma RelaxKeepsQueued(d: seq<Dist>, vis: seq<bool>, pq: multiset<Edge>, e: Edge)
    requires 0 <= e.source < |d| && 0 <= e.dest < |d| && PendingQueued(d, vis, pq)
    ensures PendingQueued(Relax(d, e), vis, QueueAfter(d, pq, e))
  {
    var d', pq' := Relax(d, e), QueueAfter(d, pq, e);
    RelaxOnlyLowers(d, e);
    forall w | 0 <= w < |d| && !vis[w] && d'[w].Fin? ensures HasEntry(pq', w, d'[w].val) {
      if w == e.dest && Relaxable(d, e) {
        assert Edge(e.source, e.dest, d[e.source].val + e.weight) in pq';
      } else {
        var f :| f in pq && f.dest == w && f.weight == d[w].val;
        assert f in pq';
      }
    }
  }

  /** Relaxing an edge of the graph keeps the weight-independent part. */
  lemma RelaxKeepsCommon(adj: seq<seq<Edge>>, n: nat, start: int, d: seq<Dist>, vis: seq<bool>, pq: multiset<Edge>, e: Edge)
    requires Common(adj, n, start, d, vis, pq) && EdgeIn(adj, e)
    ensures 0 <= e.dest < n
    ensures Common(adj, n, start, Relax(d, e), vis, QueueAfter(d, pq, e))
  {
    RelaxOnlyLowers(d, e);
    RelaxSound(adj, start, d, e);
    RelaxKeepsKeys(d, pq, e);
    RelaxKeepsQueued(d, vis, pq, e);
  }

  /** With non-negative weights, relaxing `u`'s `j`-th edge never touches a
      visited vertex (it would need a key below `k`), pushes a key of at
      least `k`, and settles that edge. */
  lemma RelaxKeepsOrdered(adj: seq<seq<Edge>>, n: nat, d: seq<Dist>, vis: seq<bool>, pq: multiset<Edge>,
                          u: int, j: int, k: int)
    requires WellFormed(adj, n) && NonNegative(adj) && |d| == n && |vis| == n
    requires 0 <= u < n && vis[u] && 0 <= j < |adj[u]|
    requires Ordered(adj, n, d, vis, pq, u, j, k)
    ensures 0 <= adj[u][j].dest < n && adj[u][j].source == u
    ensures Ordered(adj, n, Relax(d, adj[u][j]), vis, QueueAfter(d, pq, adj[u][j]), u, j + 1, k)
  {
    var e := adj[u][j];
    assert e in adj[u] && EdgeIn(adj, e);
    var v := e.dest;
    var d', pq' := Relax(d, e), QueueAfter(d, pq, e);
    RelaxOnlyLowers(d, e);
    assert e.weight >= 0;
    assert Relaxable(d, e) ==> !vis[v];
    assert d'[u] == Fin(k);
    forall x | 0 <= x < n && vis[x] ensures AtMost(d'[x], k) {
      assert AtMost(d[x], k);
    }
    forall x | 0 <= x < n && vis[x] && x != u ensures Settled(adj, d', x, |adj[x]|) {
      assert Settled(adj, d, x, |adj[x]|);
    }
    assert Settled(adj, d, u, j);
    assert Settled(adj, d', u, j + 1);
  }

  /** Relaxing the `j`-th edge of `u` and pushing as `QueueAfter` says keeps
      the inner invariant. */
  lemma RelaxStep(adj: seq<seq<Edge>>, n: nat, start: int, d: seq<Dist>, vis: seq<bool>, pq: multiset<Edge>,
                  u: int, j: int, k: int)
    requires Inner(adj, n, start, d, vis, pq, u, j, k) && j < |adj[u]|
    ensures adj[u][j].source == u && 0 <= adj[u][j].dest < |d|
    ensures Inner(adj, n, start, Relax(d, adj[u][j]), vis, QueueAfter(d, pq, adj[u][j]), u, j + 1, k)
  {
    var e := adj[u][j];
    assert e in adj[u] && EdgeIn(adj, e);
    RelaxKeepsCommon(adj, n, start, d, vis, pq, e);
    if NonNegative(adj) {
      RelaxKeepsOrdered(adj, n, d, vis, pq, u, j, k);
    }
  }

  /** Once all of `u`'s edges are relaxed, the outer invariant holds again. */
  lemma FinishInner(adj: seq<seq<Edge>>, n: nat, start: int, d: seq<Dist>, vis: seq<bool>, pq: multiset<Edge>,
                    u: int, k: int)
    requires 0 <= u < |adj| && Inner(adj, n, start, d, vis, pq, u, |adj[u]|, k)
    ensures Inv(adj, n, start, d, vis, pq)
  {
  }

  /** The queue after Dijkstra's inner loop relaxes the edges `es` in order
      against the table `d` (the table itself becomes `Pass(d, es)`, the same
      in-order relaxation Bellman-Ford makes): every edge that improves its
      destination pushes an entry keyed with the new distance. */
  function Pushes(d: seq<Dist>, pq: multiset<Edge>, es: seq<Edge>): (r: multiset<Edge>)
    requires EdgesIn(es, |d|)
    ensures pq <= r
    decreases |es|
  {
    if es == [] then pq
    else
      var front := es[..|es| - 1];
      assert forall e :: e in front ==> e in es;
      QueueAfter(Pass(d, front), Pushes(d, pq, front), es[|es| - 1])
  }

  /** One more edge of the list: one more relaxation and at most one more
      push. */
  lemma PassPushesNext(d: seq<Dist>, pq: multiset<Edge>, es: seq<Edge>, j: int)
    requires 0 <= j < |es| && EdgesIn(es[..j + 1], |d|)
    ensures EdgesIn(es[..j], |d|) && 0 <= es[j].source < |d| && 0 <= es[j].dest < |d|
    ensures Pass(d, es[..j + 1]) == Relax(Pass(d, es[..j]), es[j])
    ensures Pushes(d, pq, es[..j + 1]) == QueueAfter(Pass(d, es[..j]), Pushes(d, pq, es[..j]), es[j])
  {
    assert es[..j + 1][..j] == es[..j] && es[..j + 1][j] == es[j];
    assert forall e :: e in es[..j] ==> e in es[..j + 1];
  }

  /** Relaxing the first `j` edges of `u` keeps the inner invariant. */
  lemma {:induction false} NeighboursKeepInner(adj: seq<seq<Edge>>, n: nat, start: int, d: seq<Dist>,
                                               vis: seq<bool>, pq: multiset<Edge>, u: int, j: int, k: int)
    requires Inner(adj, n, start, d, vis, pq, u, 0, k) && 0 <= j <= |adj[u]|
    ensures EdgesIn(adj[u][..j], |d|)
    ensures Inner(adj, n, start, Pass(d, adj[u][..j]), vis, Pushes(d, pq, adj[u][..j]), u, j, k)
    decreases j
  {
    if j > 0 {
      NeighboursKeepInner(adj, n, start, d, vis, pq, u, j - 1, k);
      var es := adj[u][..j];
      assert es[..j - 1] == adj[u][..j - 1] && es[j - 1] == adj[u][j - 1];
      var t, q := Pass(d, adj[u][..j - 1]), Pushes(d, pq, adj[u][..j - 1]);
      RelaxStep(adj, n, start, t, vis, q, u, j - 1, k);
      assert Pass(d, es) == Relax(t, adj[u][j - 1]);
      assert Pushes(d, pq, es) == QueueAfter(t, q, adj[u][j - 1]);
    } else {
      assert adj[u][..0] == [];
    }
  }

  /** Relaxing, in order, edges that leave the visited vertex `u` (at
      distance `k`) with non-negative weights never changes the distance of a
      visited vertex, `u` included, when every visited distance is at most
      `k`: a finalized distance is never lowered again. */
  lemma {:induction false} PassSparesVisited(d: seq<Dist>, vis: seq<bool>, es: seq<Edge>, u: int, k: int)
    requires |vis| == |d| && 0 <= u < |d| && vis[u] && d[u] == Fin(k)
    requires forall x :: 0 <= x < |d| && vis[x] ==> AtMost(d[x], k)
    requires forall e :: e in es ==> e.source == u && 0 <= e.dest < |d| && e.weight >= 0
    ensures EdgesIn(es, |d|)
    ensures forall x :: 0 <= x < |d| && vis[x] ==> Pass(d, es)[x] == d[x]
    decreases |es|
  {
    if es != [] {
      var front, e := es[..|es| - 1], es[|es| - 1];
      assert forall f :: f in front ==> f in es;
      PassSparesVisited(d, vis, front, u, k);
      var t := Pass(d, front);
      RelaxOnlyLowers(t, e);
      forall x | 0 <= x < |d| && vis[x] ensures Relax(t, e)[x] == t[x] {
        assert AtMost(t[x], k);
      }
    }
  }

  /** A fresh pop of the least entry `m`, followed by the relaxation of every
      edge of its vertex, restores the outer invariant with that vertex now
      visited; with non-negative weights no visited distance moves. */
  lemma Settle(adj: seq<seq<Edge>>, n: nat, start: int, d: seq<Dist>, vis: seq<bool>, pq: multiset<Edge>, m: Edge)
    requires Inv(adj, n, start, d, vis, pq) && m in pq && (forall e :: e in pq ==> m.weight <= e.weight)
    requires 0 <= m.dest < n && !vis[m.dest]
    ensures d[m.dest].Fin? && EdgesIn(adj[m.dest], |d|)
    ensures Inv(adj, n, start, Pass(d, adj[m.dest]), vis[m.dest := true], Pushes(d, pq - multiset{m}, adj[m.dest]))
    ensures NonNegative(adj) ==>
      forall x :: 0 <= x < n && vis[m.dest := true][x] ==> Pass(d, adj[m.dest])[x] == d[x]
  {
    var u := m.dest;
    PopFresh(adj, n, start, d, vis, pq, m);
    NeighboursKeepInner(adj, n, start, d, vis[u := true], pq - multiset{m}, u, |adj[u]|, m.weight);
    assert adj[u][..|adj[u]|] == adj[u];
    FinishInner(adj, n, start, Pass(d, adj[u]), vis[u := true], Pushes(d, pq - multiset{m}, adj[u]), u, m.weight);
    if NonNegative(adj) {
      PopOrdered(adj, n, start, d, vis, pq, m);
      forall e | e in adj[u] ensures e.source == u && 0 <= e.dest < n && e.weight >= 0 {
        assert EdgeIn(adj, e);
      }
      PassSparesVisited(d, vis[u := true], adj[u], u, m.weight);
    }
  }

  /** When the queue is empty, exactly the vertices with a finite distance
      were visited; every finite distance is a walk weight; and with
      non-negative weights the table is the shortest-distance table with 0 at
      the start. */
  lemma Finish(adj: seq<seq<Edge>>, n: nat, start: int, d: seq<Dist>, vis: seq<bool>)
    requires Inv(adj, n, start, d, vis, multiset{})
    ensures forall v :: 0 <= v < n ==> (d[v].Fin? <==> vis[v])
    ensures Sound(adj, start, d)
    ensures NonNegative(adj) ==> ShortestTable(adj, start, d) && d[start] == Fin(0)
  {
    if NonNegative(adj) {
      forall e | EdgeIn(adj, e) && 0 <= e.dest < |d| && d[e.source].Fin?
        ensures AtMost(d[e.dest], d[e.source].val + e.weight)
      {
        var x := e.source;
        assert Settled(adj, d, x, |adj[x]|);
        var j :| 0 <= j < |adj[x]| && adj[x][j] == e;
      }
      assert Feasible(adj, start, d);
      FeasibleIsLowerBound(adj, start, d);
      var c :| IsWalk(adj, c, start, start) && Weight(c) == d[start].val;
      NonNegativeWeight(adj, c, start, start);
    }
  }
}
