/** Walks through the graph and their weights: the yardstick against which
    both algorithms' distance tables are judged. A walk may repeat vertices
    and edges; with a negative cycle, walk weights have no lower bound. */
module Walks {
  import opened Edges

  /** `p` is a walk from `s` to `t` along edges of the graph. */
  ghost predicate IsWalk(adj: seq<seq<Edge>>, p: seq<Edge>, s: int, t: int)
    decreases |p|
  {
    if p == [] then s == t
    else EdgeIn(adj, p[0]) && p[0].source == s && IsWalk(adj, p[1..], p[0].dest, t)
  }

  /** Total weight of a sequence of edges. */
  function Weight(p: seq<Edge>): int
  {
    if p == [] then 0 else p[0].weight + Weight(p[1..])
  }

  /** The vertex reached after the first `i` edges of a walk from `s`. */
  function At(p: seq<Edge>, s: int, i: nat): int
    requires i <= |p|
  {
    if i == 0 then s else p[i - 1].dest
  }

  lemma {:induction false} WeightAppend(p: seq<Edge>, q: seq<Edge>)
    ensures Weight(p + q) == Weight(p) + Weight(q)
    decreases |p|
  {
    if p != [] {
      assert (p + q)[1..] == p[1..] + q;
      WeightAppend(p[1..], q);
    } else {
      assert p + q == q;
    }
  }

  /** Walks compose end to end. */
  lemma {:induction false} WalkAppend(adj: seq<seq<Edge>>, p: seq<Edge>, q: seq<Edge>, s: int, x: int, t: int)
    requires IsWalk(adj, p, s, x) && IsWalk(adj, q, x, t)
    ensures IsWalk(adj, p + q, s, t)
    decreases |p|
  {
    if p != [] {
      assert (p + q)[1..] == p[1..] + q;
      WalkAppend(adj, p[1..], q, p[0].dest, x, t);
    } else {
      assert p + q == q;
    }
  }

  /** A walk cut at position `i` gives two walks meeting at `At(p, s, i)`. */
  lemma {:induction false} WalkSplit(adj: seq<seq<Edge>>, p: seq<Edge>, s: int, t: int, i: nat)
    requires IsWalk(adj, p, s, t) && i <= |p|
    ensures IsWalk(adj, p[..i], s, At(p, s, i)) && IsWalk(adj, p[i..], At(p, s, i), t)
    decreases i
  {
    if i == 0 {
      assert p[..0] == [] && p[0..] == p;
    } else {
      WalkSplit(adj, p[1..], p[0].dest, t, i - 1);
      assert p[1..][..i - 1] == p[..i][1..];
      assert p[1..][i - 1..] == p[i..];
    }
  }

  /** A walk to the source of an edge of the graph extends by that edge. */
  lemma WalkExtend(adj: seq<seq<Edge>>, p: seq<Edge>, s: int, e: Edge)
    requires IsWalk(adj, p, s, e.source) && EdgeIn(adj, e)
    ensures IsWalk(adj, p + [e], s, e.dest) && Weight(p + [e]) == Weight(p) + e.weight
  {
    assert IsWalk(adj, [e], e.source, e.dest);
    WalkAppend(adj, p, [e], s, e.source, e.dest);
    WeightAppend(p, [e]);
  }

  /** The last edge of a non-empty walk ends at the walk's target. */
  lemma LastEdge(adj: seq<seq<Edge>>, p: seq<Edge>, s: int, t: int)
    requires IsWalk(adj, p, s, t) && p != []
    ensures IsWalk(adj, p[..|p| - 1], s, p[|p| - 1].source)
    ensures EdgeIn(adj, p[|p| - 1]) && p[|p| - 1].dest == t
    ensures Weight(p) == Weight(p[..|p| - 1]) + p[|p| - 1].weight
  {
    var k := |p| - 1;
    WalkSplit(adj, p, s, t, k);
    assert p[k..] == [p[k]];
    assert IsWalk(adj, p[k..][1..], p[k].dest, t);
    assert p[..k] + [p[k]] == p;
    WeightAppend(p[..k], [p[k]]);
  }

  /** In a well-formed graph every vertex a walk passes through is a vertex. */
  lemma {:induction false} WalkInRange(adj: seq<seq<Edge>>, n: nat, p: seq<Edge>, s: int, t: int)
    requires WellFormed(adj, n) && 0 <= s < n && IsWalk(adj, p, s, t)
    ensures 0 <= t < n
    ensures forall i :: 0 <= i <= |p| ==> 0 <= At(p, s, i) < n
    decreases |p|
  {
    if p != [] {
      WalkInRange(adj, n, p[1..], p[0].dest, t);
      forall i | 1 <= i <= |p| ensures 0 <= At(p, s, i) < n {
        assert At(p, s, i) == At(p[1..], p[0].dest, i - 1);
      }
    }
  }

  /** Every finite entry of `d` is the weight of some walk from `start`. */
  ghost predicate Sound(adj: seq<seq<Edge>>, start: int, d: seq<Dist>)
  {
    forall v :: 0 <= v < |d| && d[v].Fin? ==>
      exists p :: IsWalk(adj, p, start, v) && Weight(p) == d[v].val
  }

  /** No walk from `start` is lighter than what `d` records for its target
      (so every reachable vertex has a finite entry). */
  ghost predicate LowerBound(adj: seq<seq<Edge>>, start: int, d: seq<Dist>)
  {
    forall p, t :: 0 <= t < |d| && IsWalk(adj, p, start, t) ==> AtMost(d[t], Weight(p))
  }

  /** `d` holds, for each vertex, the least weight of a walk from `start`,
      and `Inf` exactly for the vertices no walk reaches. */
  ghost predicate ShortestTable(adj: seq<seq<Edge>>, start: int, d: seq<Dist>)
  {
    Sound(adj, start, d) && LowerBound(adj, start, d)
  }

  /** No edge can relax `d` any further and the start is at most 0. */
  ghost predicate Feasible(adj: seq<seq<Edge>>, start: int, d: seq<Dist>)
  {
    |d| == |adj| && 0 <= start < |d| && AtMost(d[start], 0) &&
    forall e :: EdgeIn(adj, e) && 0 <= e.dest < |d| && d[e.source].Fin? ==>
      AtMost(d[e.dest], d[e.source].val + e.weight)
  }

  /** A cycle of negative weight lies on some walk from `start`. */
  ghost predicate NegativeCycleReachable(adj: seq<seq<Edge>>, start: int)
  {
    exists p, c, x :: IsWalk(adj, p, start, x) && IsWalk(adj, c, x, x) && Weight(c) < 0
  }

  lemma {:induction false} FeasibleAlongWalk(adj: seq<seq<Edge>>, start: int, d: seq<Dist>, p: seq<Edge>, x: int, t: int)
    requires WellFormed(adj, |d|) && Feasible(adj, start, d)
    requires IsWalk(adj, p, x, t) && 0 <= x < |d| && d[x].Fin?
    ensures 0 <= t < |d| && AtMost(d[t], d[x].val + Weight(p))
    decreases |p|
  {
    if p != [] {
      var e := p[0];
      assert AtMost(d[e.dest], d[x].val + e.weight);
      FeasibleAlongWalk(adj, start, d, p[1..], e.dest, t);
    }
  }

  /** A table no edge can improve bounds every walk from the start from below. */
  lemma FeasibleIsLowerBound(adj: seq<seq<Edge>>, start: int, d: seq<Dist>)
    requires WellFormed(adj, |d|) && Feasible(adj, start, d)
    ensures LowerBound(adj, start, d)
  {
    forall p, t | 0 <= t < |d| && IsWalk(adj, p, start, t)
      ensures AtMost(d[t], Weight(p))
    {
      FeasibleAlongWalk(adj, start, d, p, start, t);
    }
  }

  /** A finite entry of a sound table bounds a lower-bound table from above. */
  lemma SoundAboveLowerBound(adj: seq<seq<Edge>>, start: int, d1: seq<Dist>, d2: seq<Dist>, v: int)
    requires |d1| == |d2| && 0 <= v < |d1|
    requires Sound(adj, start, d1) && LowerBound(adj, start, d2)
    ensures d1[v].Fin? ==> AtMost(d2[v], d1[v].val)
  {
    if d1[v].Fin? {
      var p :| IsWalk(adj, p, start, v) && Weight(p) == d1[v].val;
      assert AtMost(d2[v], Weight(p));
    }
  }

  /** There is only one shortest-distance table. */
  lemma ShortestUnique(adj: seq<seq<Edge>>, start: int, d1: seq<Dist>, d2: seq<Dist>)
    requires |d1| == |d2|
    requires ShortestTable(adj, start, d1) && ShortestTable(adj, start, d2)
    ensures d1 == d2
  {
    forall v | 0 <= v < |d1| ensures d1[v] == d2[v] {
      SoundAboveLowerBound(adj, start, d1, d2, v);
      SoundAboveLowerBound(adj, start, d2, d1, v);
    }
  }

  /** `k` trips round the same cycle. */
  function Repeat(c: seq<Edge>, k: nat): seq<Edge>
  {
    if k == 0 then [] else c + Repeat(c, k - 1)
  }

  /** Going `k` times round a cycle is a cycle, and round a negative one it
      weighs at most `-k`. */
  lemma {:induction false} RepeatWalk(adj: seq<seq<Edge>>, c: seq<Edge>, x: int, k: nat)
    requires IsWalk(adj, c, x, x)
    ensures IsWalk(adj, Repeat(c, k), x, x)
    ensures Weight(c) < 0 ==> Weight(Repeat(c, k)) + k <= 0
  {
    if k > 0 {
      RepeatWalk(adj, c, x, k - 1);
      WalkAppend(adj, c, Repeat(c, k - 1), x, x, x);
      WeightAppend(c, Repeat(c, k - 1));
    }
  }

  /** A cycle on a walk from the start is not negative when every walk from
      the start is bounded below by a finite entry: going round a negative
      cycle often enough would undercut that bound. */
  lemma CycleNotNegative(adj: seq<seq<Edge>>, start: int, d: seq<Dist>, p: seq<Edge>, c: seq<Edge>, x: int)
    requires WellFormed(adj, |d|) && 0 <= start < |d| && LowerBound(adj, start, d)
    requires IsWalk(adj, p, start, x) && IsWalk(adj, c, x, x)
    ensures Weight(c) >= 0
  {
    WalkInRange(adj, |d|, p, start, x);
    assert AtMost(d[x], Weight(p));
    var k: nat := Weight(p) - d[x].val + 1;
    RepeatWalk(adj, c, x, k);
    WalkAppend(adj, p, Repeat(c, k), start, x, x);
    WeightAppend(p, Repeat(c, k));
    assert AtMost(d[x], Weight(p + Repeat(c, k)));
    assert Weight(Repeat(c, k)) + k > 0;
  }

  /** A table bounding every walk from below rules out a reachable negative cycle. */
  lemma LowerBoundExcludesNegativeCycle(adj: seq<seq<Edge>>, start: int, d: seq<Dist>)
    requires WellFormed(adj, |d|) && 0 <= start < |d| && LowerBound(adj, start, d)
    ensures !NegativeCycleReachable(adj, start)
  {
    forall p, c, x | IsWalk(adj, p, start, x) && IsWalk(adj, c, x, x)
      ensures Weight(c) >= 0
    {
      CycleNotNegative(adj, start, d, p, c, x);
    }
  }

  lemma {:induction false} NonNegativeWeight(adj: seq<seq<Edge>>, p: seq<Edge>, s: int, t: int)
    requires NonNegative(adj) && IsWalk(adj, p, s, t)
    ensures Weight(p) >= 0
    decreases |p|
  {
    if p != [] {
      NonNegativeWeight(adj, p[1..], p[0].dest, t);
    }
  }

  /** Without negative weights there is no negative cycle. */
  lemma NonNegativeNoNegativeCycle(adj: seq<seq<Edge>>, start: int)
    requires NonNegative(adj)
    ensures !NegativeCycleReachable(adj, start)
  {
    forall p, c, x | IsWalk(adj, p, start, x) && IsWalk(adj, c, x, x)
      ensures Weight(c) >= 0
    {
      NonNegativeWeight(adj, c, x, x);
    }
  }

  /** More than `n` values below `n` contain a repetition. */
  lemma {:induction false} PigeonHole(s: seq<int>, n: nat)
    requires |s| > n && forall i :: 0 <= i < |s| ==> 0 <= s[i] < n
    ensures exists i, j :: 0 <= i < j < |s| && s[i] == s[j]
    decreases n
  {
    var k := |s| - 1;
    var x := s[k];
    if i :| 0 <= i < k && s[i] == x {
      assert s[i] == s[k];
    } else {
      // rename the value n - 1 to x, which no earlier element uses
      var r := seq(k, i requires 0 <= i < k => if s[i] == n - 1 then x else s[i]);
      forall i | 0 <= i < k ensures 0 <= r[i] < n - 1 {
        assert s[i] != x;
      }
      PigeonHole(r, n - 1);
      var i, j :| 0 <= i < j < |r| && r[i] == r[j];
      assert s[i] == s[j];
    }
  }

  /** Cutting the stretch `i .. j` out of an edge sequence removes exactly
      its weight. */
  lemma CutWeight(p: seq<Edge>, i: nat, j: nat)
    requires i <= j <= |p|
    ensures Weight(p) == Weight(p[..i] + p[j..]) + Weight(p[i..j])
  {
    var front, mid, back := p[..i], p[i..j], p[j..];
    assert mid + back == p[i..];
    assert front + p[i..] == p;
    WeightAppend(front, mid + back);
    WeightAppend(mid, back);
    WeightAppend(front, back);
  }

  /** Cutting the closed stretch between two visits of the same vertex out
      of a walk leaves a walk with the same ends. */
  lemma CutCycle(adj: seq<seq<Edge>>, p: seq<Edge>, s: int, t: int, i: nat, j: nat)
    requires IsWalk(adj, p, s, t) && i < j <= |p| && At(p, s, i) == At(p, s, j)
    ensures IsWalk(adj, p[..i], s, At(p, s, i)) && IsWalk(adj, p[i..j], At(p, s, i), At(p, s, i))
    ensures IsWalk(adj, p[..i] + p[j..], s, t)
  {
    var x := At(p, s, i);
    WalkSplit(adj, p, s, t, i);
    var rest := p[i..];
    WalkSplit(adj, rest, x, t, j - i);
    assert rest[..j - i] == p[i..j];
    assert rest[j - i..] == p[j..];
    WalkAppend(adj, p[..i], p[j..], s, x, t);
  }

  /** Without a reachable negative cycle, every walk from the start can be
      replaced by one of at most `n - 1` edges that is no heavier: a longer
      walk revisits a vertex, and the cycle in between can be cut out. */
  lemma {:induction false} ShortWalk(adj: seq<seq<Edge>>, n: nat, start: int, p: seq<Edge>, t: int)
    requires WellFormed(adj, n) && 0 <= start < n && IsWalk(adj, p, start, t)
    requires !NegativeCycleReachable(adj, start)
    ensures exists q :: IsWalk(adj, q, start, t) && |q| < n && Weight(q) <= Weight(p)
    decreases |p|
  {
    if |p| >= n {
      WalkInRange(adj, n, p, start, t);
      var vs := seq(|p| + 1, i requires 0 <= i <= |p| => At(p, start, i));
      PigeonHole(vs, n);
      var i, j :| 0 <= i < j < |vs| && vs[i] == vs[j];
      CutCycle(adj, p, start, t, i, j);
      CutWeight(p, i, j);
      var x := At(p, start, i);
      assert IsWalk(adj, p[..i], start, x) && IsWalk(adj, p[i..j], x, x);
      assert Weight(p[i..j]) >= 0;
      ShortWalk(adj, n, start, p[..i] + p[j..], t);
      var q :| IsWalk(adj, q, start, t) && |q| < n && Weight(q) <= Weight(p[..i] + p[j..]);
      assert Weight(q) <= Weight(p);
    } else {
      assert Weight(p) <= Weight(p);
    }
  }
}
