/** Weighted directed graphs as adjacency matrices, where a zero entry means "no edge",
    and the paths through them. */
module Graphs {
  import opened Basics

  type Graph = seq<seq<int>>

  // The value that stands for "no edge" and "no path" in the algorithm's tables.
  const INFINITY := 9999

  ghost predicate Square(g: Graph) {
    forall i | 0 <= i < |g| :: |g[i]| == |g|
  }

  ghost predicate NonNegative(g: Graph)
    requires Square(g)
  {
    forall i, j | 0 <= i < |g| && 0 <= j < |g| :: 0 <= g[i][j]
  }

  ghost predicate IsGraph(g: Graph) {
    Square(g) && NonNegative(g)
  }

  predicate InRange(g: Graph, i: int) {
    0 <= i < |g|
  }

  function Cost(g: Graph, i: int, j: int): (c: int)
    requires Square(g) && InRange(g, i) && InRange(g, j)
  {
    if g[i][j] == 0 then INFINITY else g[i][j]
  }

  // A path is the nonempty sequence of the nodes it visits.
  ghost predicate IsPath(g: Graph, p: seq<int>)
    requires Square(g)
  {
    && |p| >= 1
    && (forall k | 0 <= k < |p| :: InRange(g, p[k]))
    && (forall k | 0 <= k < |p| - 1 :: g[p[k]][p[k + 1]] != 0)
  }

  ghost predicate IsPathFromTo(g: Graph, s: int, t: int, p: seq<int>)
    requires Square(g)
  {
    IsPath(g, p) && p[0] == s && p[|p| - 1] == t
  }

  ghost function Weight(g: Graph, p: seq<int>): int
    requires Square(g) && IsPath(g, p)
  {
    if |p| == 1 then 0
    else Weight(g, p[..|p| - 1]) + g[p[|p| - 2]][p[|p| - 1]]
  }

  ghost predicate Reachable(g: Graph, s: int, t: int)
    requires Square(g)
  {
    exists p :: IsPathFromTo(g, s, t, p)
  }

  // No path from s to t weighs less than d.
  ghost predicate LowerBound(g: Graph, s: int, t: int, d: int)
    requires Square(g)
  {
    forall p | IsPathFromTo(g, s, t, p) :: d <= Weight(g, p)
  }

  ghost predicate HasPathOfWeight(g: Graph, s: int, t: int, d: int)
    requires Square(g)
  {
    exists p :: IsPathFromTo(g, s, t, p) && Weight(g, p) == d
  }

  // d is the least weight of a path from s to t.
  ghost predicate IsDistance(g: Graph, s: int, t: int, d: int)
    requires Square(g)
  {
    HasPathOfWeight(g, s, t, d) && LowerBound(g, s, t, d)
  }

  lemma {:induction false} WeightNonNegative(g: Graph, p: seq<int>)
    requires IsGraph(g) && IsPath(g, p)
    ensures 0 <= Weight(g, p)
  {
    if |p| > 1 {
      WeightNonNegative(g, p[..|p| - 1]);
    }
  }

  lemma ExtendPath(g: Graph, s: int, u: int, t: int, p: seq<int>)
    requires IsGraph(g) && IsPathFromTo(g, s, u, p) && InRange(g, t) && g[u][t] != 0
    ensures IsPathFromTo(g, s, t, p + [t]) && Weight(g, p + [t]) == Weight(g, p) + g[u][t]
  {
    assert (p + [t])[..|p|] == p;
  }

  // A path that leaves the set `inside` weighs at least as much as the table entry of
  // some node outside, when the entries inside bound their paths from below and the entries
  // outside were relaxed over every edge that leaves the set.
  lemma {:induction false} CrossingBound(g: Graph, s: int, inside: seq<int>, d: seq<int>, p: seq<int>)
    returns (y: int)
    requires IsGraph(g) && |d| == |g| && s in inside
    requires forall u | u in inside :: InRange(g, u) && LowerBound(g, s, u, d[u])
    requires forall u, i | u in inside && InRange(g, u) && i !in inside && InRange(g, i) :: d[i] <= d[u] + Cost(g, u, i)
    requires IsPath(g, p) && p[0] == s && p[|p| - 1] !in inside
    ensures InRange(g, y) && y !in inside && d[y] <= Weight(g, p)
  {
    var q, u, t := p[..|p| - 1], p[|p| - 2], p[|p| - 1];
    assert Weight(g, p) == Weight(g, q) + g[u][t];
    if u in inside {
      assert IsPathFromTo(g, s, u, q);
      y := t;
    } else {
      y := CrossingBound(g, s, inside, d, q);
    }
  }

  // A list of distinct numbers below n has at most n members.
  lemma DistinctBelow(s: seq<int>, n: nat)
    requires forall a, b | 0 <= a < b < |s| :: s[a] != s[b]
    requires forall u | u in s :: 0 <= u < n
    ensures |s| <= n
  {
    MembersOfDistinct(s);
    var members := set u | u in s;
    SetBelow(members, n);
  }

  lemma {:induction false} MembersOfDistinct(s: seq<int>)
    requires forall a, b | 0 <= a < b < |s| :: s[a] != s[b]
    ensures |set u | u in s| == |s|
  {
    if s != [] {
      var rest := s[..|s| - 1];
      MembersOfDistinct(rest);
      assert s == rest + [s[|s| - 1]];
      assert (set u | u in s) == (set u | u in rest) + {s[|s| - 1]};
    }
  }

  lemma {:induction false} SetBelow(a: set<int>, n: nat)
    requires forall u | u in a :: 0 <= u < n
    ensures |a| <= n
  {
    if n == 0 {
      if a != {} {
        var u := Pick(a);
        assert false;
      }
    } else {
      SetBelow(a - {n - 1}, n - 1);
    }
  }

  // A list of at least n-1 distinct numbers below n misses at most one of them.
  lemma MissesAtMostOne(s: seq<int>, n: nat, i: int, j: int)
    requires forall a, b | 0 <= a < b < |s| :: s[a] != s[b]
    requires forall u | u in s :: 0 <= u < n
    requires n - 1 <= |s|
    requires 0 <= i < n && 0 <= j < n && i !in s && j !in s
    ensures i == j
  {
    if i != j {
      DistinctBelow(s + [i, j], n);
    }
  }

  ghost predicate WeightsAtMost(g: Graph, most: int)
    requires Square(g)
  {
    forall i, j | 0 <= i < |g| && 0 <= j < |g| :: g[i][j] <= most
  }

  lemma {:induction false} WeightAtMost(g: Graph, p: seq<int>, most: nat)
    requires IsGraph(g) && IsPath(g, p) && WeightsAtMost(g, most)
    ensures Weight(g, p) <= (|p| - 1) * most
  {
    if |p| > 1 {
      WeightAtMost(g, p[..|p| - 1], most);
      assert (|p| - 1) * most == (|p| - 2) * most + most;
    }
  }

  // Cutting out a round trip leaves a shorter path.
  lemma CutRoundTrip(g: Graph, s: int, t: int, p: seq<int>, a: nat, b: nat) returns (q: seq<int>)
    requires IsGraph(g) && IsPathFromTo(g, s, t, p) && a < b < |p| && p[a] == p[b]
    ensures IsPathFromTo(g, s, t, q) && |q| < |p|
  {
    q := p[..a + 1] + p[b + 1..];
    assert forall k | 0 <= k < |q| :: q[k] == if k <= a then p[k] else p[k + b - a];
  }

  // Every reachable node is reached by a path of at most n-1 edges.
  lemma {:induction false} ShortPath(g: Graph, s: int, t: int, p: seq<int>)
    returns (q: seq<int>)
    requires IsGraph(g) && IsPathFromTo(g, s, t, p)
    ensures IsPathFromTo(g, s, t, q) && |q| <= |g|
    decreases |p|
  {
    if forall a, b | 0 <= a < b < |p| :: p[a] != p[b] {
      DistinctBelow(p, |g|);
      q := p;
    } else {
      var a, b :| 0 <= a < b < |p| && p[a] == p[b];
      q := CutRoundTrip(g, s, t, p, a, b);
      q := ShortPath(g, s, t, q);
    }
  }
}
