/** Edge relaxation, the step both algorithms are built from, and the
    Bellman-Ford passes as functions on distance tables. */
module Relaxation {
  import opened Edges
  import opened Walks

  /** The table both algorithms start from: 0 for the start vertex,
      infinity (`Integer.MAX_VALUE`) everywhere else. */
  function Initial(n: nat, start: int): seq<Dist>
  {
    seq(n, v => if v == start then Fin(0) else Inf)
  }

  /** Edge `e` offers a shorter distance for its destination. A source still
      at infinity never offers one. */
  predicate Relaxable(d: seq<Dist>, e: Edge)
    requires 0 <= e.source < |d| && 0 <= e.dest < |d|
  {
    d[e.source].Fin? && Improves(d[e.source].val + e.weight, d[e.dest])
  }

  /** Relax one edge: overwrite the destination's entry when the path through
      `e` is strictly shorter. */
  function Relax(d: seq<Dist>, e: Edge): (r: seq<Dist>)
    requires 0 <= e.source < |d| && 0 <= e.dest < |d|
    ensures |r| == |d|
  {
    if Relaxable(d, e) then d[e.dest := Fin(d[e.source].val + e.weight)] else d
  }

  /** Relax the edges of `es` one after another, in order. */
  function Pass(d: seq<Dist>, es: seq<Edge>): (r: seq<Dist>)
    requires EdgesIn(es, |d|)
    ensures |r| == |d|
    decreases |es|
  {
    if es == [] then d else Relax(Pass(d, es[..|es| - 1]), es[|es| - 1])
  }

  /** `k` passes over all edges of the graph, list after list. */
  function Passes(adj: seq<seq<Edge>>, d: seq<Dist>, k: nat): (r: seq<Dist>)
    requires EdgesIn(Flatten(adj), |d|)
    ensures |r| == |d|
  {
    if k == 0 then d else Pass(Passes(adj, d, k - 1), Flatten(adj))
  }

  /** A pass over `a + b` is a pass over `a` followed by a pass over `b`. */
  lemma {:induction false} PassAppend(d: seq<Dist>, a: seq<Edge>, b: seq<Edge>)
    requires EdgesIn(a + b, |d|)
    ensures EdgesIn(a, |d|) && EdgesIn(b, |d|)
    ensures Pass(d, a + b) == Pass(Pass(d, a), b)
    decreases |b|
  {
    assert forall e :: e in a ==> e in a + b;
    assert forall e :: e in b ==> e in a + b;
    if b != [] {
      var front := b[..|b| - 1];
      assert (a + b)[..|a + b| - 1] == a + front;
      PassAppend(d, a, front);
    } else {
      assert a + b == a;
    }
  }

  /** Every entry of `a` is at most the corresponding entry of `b`. */
  ghost predicate NoWorse(a: seq<Dist>, b: seq<Dist>)
  {
    |a| == |b| && forall v :: 0 <= v < |b| && b[v].Fin? ==> AtMost(a[v], b[v].val)
  }

  /** Relaxing an edge changes at most the destination's entry, and then only
      to a finite value strictly below the old one. */
  lemma RelaxOnlyLowers(d: seq<Dist>, e: Edge)
    requires 0 <= e.source < |d| && 0 <= e.dest < |d|
    ensures forall v :: 0 <= v < |d| && v != e.dest ==> Relax(d, e)[v] == d[v]
    ensures Relax(d, e)[e.dest] == d[e.dest] ||
            (Relax(d, e)[e.dest].Fin? && Improves(Relax(d, e)[e.dest].val, d[e.dest]))
    ensures d[e.source].Inf? ==> Relax(d, e) == d
    ensures NoWorse(Relax(d, e), d)
  {
  }

  lemma {:induction false} PassLowers(d: seq<Dist>, es: seq<Edge>)
    requires EdgesIn(es, |d|)
    ensures NoWorse(Pass(d, es), d)
    decreases |es|
  {
    if es != [] {
      var front := es[..|es| - 1];
      PassLowers(d, front);
      RelaxOnlyLowers(Pass(d, front), es[|es| - 1]);
    }
  }

  /** Passes never raise an entry. */
  lemma {:induction false} PassesLower(adj: seq<seq<Edge>>, d: seq<Dist>, k: nat)
    requires EdgesIn(Flatten(adj), |d|)
    ensures NoWorse(Passes(adj, d, k), d)
  {
    if k > 0 {
      PassesLower(adj, d, k - 1);
      PassLowers(Passes(adj, d, k - 1), Flatten(adj));
    }
  }

  /** After a pass, every edge of the pass is satisfied with respect to the
      table the pass started from. */
  lemma {:induction false} PassRelaxesEach(d: seq<Dist>, es: seq<Edge>, e: Edge)
    requires EdgesIn(es, |d|) && e in es && d[e.source].Fin?
    ensures AtMost(Pass(d, es)[e.dest], d[e.source].val + e.weight)
    decreases |es|
  {
    var front, last := es[..|es| - 1], es[|es| - 1];
    assert es == front + [last];
    PassLowers(d, front);
    if e in front {
      PassRelaxesEach(d, front, e);
      RelaxOnlyLowers(Pass(d, front), last);
    } else {
      assert e == last;
    }
  }

  /** The start table is sound: its only finite entry is the empty walk. */
  lemma InitialSound(adj: seq<seq<Edge>>, n: nat, start: int)
    ensures Sound(adj, start, Initial(n, start))
  {
    forall v | 0 <= v < n && Initial(n, start)[v].Fin?
      ensures exists p :: IsWalk(adj, p, start, v) && Weight(p) == Initial(n, start)[v].val
    {
      assert IsWalk(adj, [], start, v);
    }
  }

  /** Relaxing an edge of the graph keeps every finite entry the weight of a
      walk: the new entry extends the source's walk by that edge. */
  lemma RelaxSound(adj: seq<seq<Edge>>, start: int, d: seq<Dist>, e: Edge)
    requires EdgeIn(adj, e) && 0 <= e.source < |d| && 0 <= e.dest < |d|
    requires Sound(adj, start, d)
    ensures Sound(adj, start, Relax(d, e))
  {
    if Relaxable(d, e) {
      var p :| IsWalk(adj, p, start, e.source) && Weight(p) == d[e.source].val;
      WalkExtend(adj, p, start, e);
      assert IsWalk(adj, p + [e], start, e.dest) && Weight(p + [e]) == Relax(d, e)[e.dest].val;
    }
  }

  lemma {:induction false} PassSound(adj: seq<seq<Edge>>, start: int, d: seq<Dist>, es: seq<Edge>)
    requires EdgesIn(es, |d|) && (forall e :: e in es ==> EdgeIn(adj, e))
    requires Sound(adj, start, d)
    ensures Sound(adj, start, Pass(d, es))
    decreases |es|
  {
    if es != [] {
      var front := es[..|es| - 1];
      PassSound(adj, start, d, front);
      RelaxSound(adj, start, Pass(d, front), es[|es| - 1]);
    }
  }

  /** Any number of passes from the start table leaves only walk weights. */
  lemma {:induction false} PassesSound(adj: seq<seq<Edge>>, n: nat, start: int, k: nat)
    requires WellFormed(adj, n)
    ensures EdgesIn(Flatten(adj), n)
    ensures Sound(adj, start, Passes(adj, Initial(n, start), k))
  {
    FlattenWellFormed(adj, n, n);
    assert adj[..n] == adj;
    if k == 0 {
      InitialSound(adj, n, start);
    } else {
      PassesSound(adj, n, start, k - 1);
      PassSound(adj, start, Passes(adj, Initial(n, start), k - 1), Flatten(adj));
    }
  }

  /** After `k` passes, no walk of at most `k` edges from the start is lighter
      than the table's entry for its target: the classic Bellman-Ford bound. */
  lemma {:induction false} PassesBound(adj: seq<seq<Edge>>, n: nat, start: int, k: nat, p: seq<Edge>, t: int)
    requires WellFormed(adj, n) && 0 <= start < n
    requires IsWalk(adj, p, start, t) && |p| <= k
    ensures EdgesIn(Flatten(adj), n) && 0 <= t < n
    ensures AtMost(Passes(adj, Initial(n, start), k)[t], Weight(p))
  {
    FlattenWellFormed(adj, n, n);
    assert adj[..n] == adj;
    WalkInRange(adj, n, p, start, t);
    if k > 0 {
      var before := Passes(adj, Initial(n, start), k - 1);
      PassLowers(before, Flatten(adj));
      if |p| < k {
        PassesBound(adj, n, start, k - 1, p, t);
      } else {
        LastEdge(adj, p, start, t);
        var front, e := p[..|p| - 1], p[|p| - 1];
        PassesBound(adj, n, start, k - 1, front, e.source);
        EdgeInFlatten(adj, n, e);
        PassRelaxesEach(before, Flatten(adj), e);
      }
    }
  }
}
