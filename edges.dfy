/** Edges of a directed weighted graph, the adjacency structure that holds
    them, and the distance values the two shortest-path algorithms store. */
module Edges {

  /** A directed edge `source -> dest` carrying an integer weight. The same
      record also serves as a priority-queue entry in Dijkstra's algorithm,
      where `weight` holds the candidate distance of `dest`. */
  datatype Edge = Edge(source: int, dest: int, weight: int)

  /** A tentative distance: `Inf` stands for the `Integer.MAX_VALUE`
      sentinel ("no known path"), `Fin(d)` for a known path weight. */
  datatype Dist = Inf | Fin(val: int)

  /** Does the candidate path weight `c` improve on the stored distance `d`? */
  predicate Improves(c: int, d: Dist)
  {
    d.Inf? || c < d.val
  }

  /** The stored distance `d` is finite and at most `c`. */
  predicate AtMost(d: Dist, c: int)
  {
    d.Fin? && d.val <= c
  }

  /** An adjacency structure over vertices `0 .. n-1`: list `i` holds only
      edges leaving `i`, and every destination is a vertex. */
  ghost predicate WellFormed(adj: seq<seq<Edge>>, n: nat)
  {
    |adj| == n &&
    forall i, e :: 0 <= i < n && e in adj[i] ==> e.source == i && 0 <= e.dest < n
  }

  /** `e` is one of the graph's edges (it sits in its source's list). */
  ghost predicate EdgeIn(adj: seq<seq<Edge>>, e: Edge)
  {
    0 <= e.source < |adj| && e in adj[e.source]
  }

  /** Every edge weight is non-negative. */
  ghost predicate NonNegative(adj: seq<seq<Edge>>)
  {
    forall e :: EdgeIn(adj, e) ==> e.weight >= 0
  }

  /** Every edge of `es` joins two vertices below `n`. */
  ghost predicate EdgesIn(es: seq<Edge>, n: int)
  {
    forall e :: e in es ==> 0 <= e.source < n && 0 <= e.dest < n
  }

  /** All edges, list after list, in the order Bellman-Ford visits them. */
  function Flatten(adj: seq<seq<Edge>>): seq<Edge>
  {
    if adj == [] then [] else Flatten(adj[..|adj| - 1]) + adj[|adj| - 1]
  }

  /** An edge occurs in the flattened list exactly when it occurs in one of
      the adjacency lists. */
  lemma {:induction false} FlattenMember(adj: seq<seq<Edge>>, e: Edge)
    ensures e in Flatten(adj) <==> exists i :: 0 <= i < |adj| && e in adj[i]
    decreases |adj|
  {
    if adj != [] {
      var front := adj[..|adj| - 1];
      FlattenMember(front, e);
      if e in Flatten(front) {
        var i :| 0 <= i < |front| && e in front[i];
        assert e in adj[i];
      }
      if i :| 0 <= i < |adj| && e in adj[i] {
        if i < |adj| - 1 {
          assert e in front[i];
        }
      }
    }
  }

  /** Extending the visited prefix of the lists by one list. */
  lemma FlattenSnoc(adj: seq<seq<Edge>>, k: nat)
    requires k < |adj|
    ensures Flatten(adj[..k + 1]) == Flatten(adj[..k]) + adj[k]
  {
    assert adj[..k + 1][..k] == adj[..k];
  }

  /** In a well-formed graph, the flattened edges are exactly the graph's
      edges, and all of them join vertices. */
  lemma FlattenWellFormed(adj: seq<seq<Edge>>, n: nat, k: nat)
    requires WellFormed(adj, n) && k <= n
    ensures EdgesIn(Flatten(adj[..k]), n)
    ensures forall e :: e in Flatten(adj[..k]) ==> EdgeIn(adj, e)
  {
    forall e | e in Flatten(adj[..k])
      ensures 0 <= e.source < n && 0 <= e.dest < n && EdgeIn(adj, e)
    {
      FlattenMember(adj[..k], e);
      var i :| 0 <= i < k && e in adj[..k][i];
      assert e in adj[i];
    }
  }

  /** The same, for every prefix of the lists at once. */
  lemma FlattenPrefixesWellFormed(adj: seq<seq<Edge>>, n: nat)
    requires WellFormed(adj, n)
    ensures forall k :: 0 <= k <= n ==> EdgesIn(Flatten(adj[..k]), n)
  {
    forall k | 0 <= k <= n ensures EdgesIn(Flatten(adj[..k]), n) {
      FlattenWellFormed(adj, n, k);
    }
  }

  /** Every edge of a well-formed graph occurs in the flattened list. */
  lemma EdgeInFlatten(adj: seq<seq<Edge>>, n: nat, e: Edge)
    requires WellFormed(adj, n) && EdgeIn(adj, e)
    ensures e in Flatten(adj)
  {
    FlattenMember(adj, e);
  }
}
