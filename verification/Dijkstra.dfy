/** Single-source shortest paths over an adjacency matrix: a selection loop that runs n-2 times,
    a relaxation loop, and the walk back through the predecessor table. Line numbers refer to the
    file `Dijikstra algorihm`. */
module Dijkstra {
  import opened Basics
  import opened Graphs
  import opened Settling
  import opened TieBreaking
  import opened TableRuns

  // The selection loop (lines 56-64).
  method SelectNearest(g: Graph, distance: array<int>, visited: array<bool>, stale: int)
    returns (mindistance: int, nextnode: int)
    requires distance.Length == visited.Length == |g| && InRange(g, stale)
    ensures Selected(g, distance[..], visited[..], mindistance, nextnode)
    ensures mindistance == INFINITY ==> nextnode == stale
    ensures mindistance < INFINITY ==> forall i | 0 <= i < nextnode && !visited[i] :: mindistance < distance[i]
    ensures (mindistance, nextnode) == Nearest(distance[..], visited[..], stale, |g|)
  {
    mindistance, nextnode := INFINITY, stale;
    for i := 0 to distance.Length
      invariant InRange(g, nextnode) && (mindistance == INFINITY ==> nextnode == stale)
      invariant (mindistance, nextnode) == Nearest(distance[..], visited[..], stale, i)
      invariant mindistance < INFINITY ==>
                  nextnode < i && forall k | 0 <= k < nextnode && !visited[k] :: mindistance < distance[k]
      invariant forall k | 0 <= k < i && !visited[k] :: mindistance <= distance[k]
      invariant || mindistance == INFINITY
                || (mindistance < INFINITY && !visited[nextnode] && distance[nextnode] == mindistance)
    {
      if distance[i] < mindistance && !visited[i] {
        mindistance, nextnode := distance[i], i;
      }
    }
  }

  // The relaxation loop (lines 68-74), for tables on which its sums do not overflow.
  method RelaxFrom(g: Graph, cost: array2<int>, distance: array<int>, pred: array<int>, visited: array<bool>,
                   v: int, m: int)
    requires IsGraph(g) && InRange(g, v) && CostMatrix(g, cost)
    requires distance.Length == pred.Length == visited.Length == |g| && distance != pred
    requires SumsFit(g, visited[..], v, m)
    modifies distance, pred
    ensures Relaxed(g, visited[..], v, m, old(distance[..]), old(pred[..]), distance[..], pred[..])
  {
    ghost var d0, p0 := distance[..], pred[..];
    for i := 0 to |g|
      invariant forall k | 0 <= k < i ::
        if !visited[k] && m + Cost(g, v, k) < d0[k]
        then distance[k] == m + Cost(g, v, k) && pred[k] == v
        else distance[k] == d0[k] && pred[k] == p0[k]
      invariant forall k | i <= k < |g| :: distance[k] == d0[k] && pred[k] == p0[k]
    {
      if !visited[i] {
        assert visited[..][i] == visited[i] && m + cost[v, i] <= INT_MAX;
        if m + cost[v, i] < distance[i] {
          distance[i] := m + cost[v, i];
          pred[i] := v;
        }
      }
    }
  }

  ghost predicate CostMatrix(g: Graph, cost: array2<int>)
    requires Square(g)
    reads cost
  {
    && cost.Length0 == cost.Length1 == |g|
    && forall i, j | InRange(g, i) && InRange(g, j) :: cost[i, j] == Cost(g, i, j)
  }

  // Lines 35-40.
  method BuildCost(g: Graph) returns (cost: array2<int>)
    requires Square(g)
    ensures fresh(cost) && CostMatrix(g, cost)
  {
    var n := |g|;
    cost := new int[n, n];
    for i := 0 to n
      invariant forall k, j | 0 <= k < i && InRange(g, j) :: cost[k, j] == Cost(g, k, j)
    {
      for j := 0 to n
        invariant forall k, l | 0 <= k < i && InRange(g, l) :: cost[k, l] == Cost(g, k, l)
        invariant forall l | 0 <= l < j :: cost[i, l] == Cost(g, i, l)
      {
        if g[i][j] == 0 {
          cost[i, j] := INFINITY;
        } else {
          cost[i, j] := g[i][j];
        }
      }
    }
  }

  // Lines 43-52.
  method Initialise(g: Graph, cost: array2<int>, start: int, ghost junk: int)
    returns (distance: array<int>, pred: array<int>, visited: array<bool>)
    requires IsGraph(g) && InRange(g, start) && InRange(g, junk) && CostMatrix(g, cost)
    ensures fresh(distance) && fresh(pred) && fresh(visited) && distance != pred
    ensures Tables(distance[..], pred[..], visited[..], junk) == Begin(g, start, junk)
  {
    var n := |g|;
    distance, pred, visited := new int[n], new int[n], new bool[n];
    for i := 0 to n
      invariant forall k | 0 <= k < i :: distance[k] == Cost(g, start, k) && pred[k] == start && !visited[k]
    {
      distance[i] := cost[start, i];
      pred[i] := start;
      visited[i] := false;
    }
    distance[start] := 0;
    visited[start] := true;
    BeginAt(g, start, junk);
    ghost var t := Begin(g, start, junk);
    assert distance[..] == t.d && pred[..] == t.p && visited[..] == t.visited;
  }

  // The body of the outer loop (lines 56-75).
  method OneRound(g: Graph, cost: array2<int>, distance: array<int>, pred: array<int>, visited: array<bool>, stale: int)
    returns (nextnode: int)
    requires IsGraph(g) && CostMatrix(g, cost) && distance != pred
    requires var t := Tables(distance[..], pred[..], visited[..], stale); IsTables(g, t) && RoundFits(g, t)
    modifies distance, pred, visited
    ensures Tables(distance[..], pred[..], visited[..], nextnode) ==
            Next(g, old(Tables(distance[..], pred[..], visited[..], stale)))
  {
    var mindistance;
    ghost var d0, p0, seen := distance[..], pred[..], visited[..];
    mindistance, nextnode := SelectNearest(g, distance, visited, stale);
    visited[nextnode] := true;
    assert visited[..] == seen[nextnode := true];
    RelaxFrom(g, cost, distance, pred, visited, nextnode, mindistance);
    RelaxedDetermines(g, seen[nextnode := true], nextnode, mindistance, d0, p0, distance[..], pred[..]);
  }

  // Lines 35-76. `junk` is the value the uninitialised variable nextnode happens to hold.
  method ShortestPaths(g: Graph, start: int, junk: int)
    returns (distance: array<int>, pred: array<int>, ghost run: seq<Tables>)
    requires IsGraph(g) && InRange(g, start) && InRange(g, junk) && NeverOverflows(g, start, junk)
    ensures fresh(distance) && fresh(pred) && IsRun(g, start, junk, run)
    ensures distance[..] == run[|run| - 1].d && pred[..] == run[|run| - 1].p
  {
    var cost := BuildCost(g);
    var visited;
    distance, pred, visited := Initialise(g, cost, start, junk);
    var count, nextnode := 1, junk;
    run := TheRun(g, start, junk);
    assert RunFits(g, run);
    while count < |g| - 1
      invariant 1 <= count <= |run| && CostMatrix(g, cost)
      invariant Tables(distance[..], pred[..], visited[..], nextnode) == run[count - 1]
    {
      assert RoundOk(g, run, count - 1);
      nextnode := OneRound(g, cost, distance, pred, visited, nextnode);
      count := count + 1;
    }
  }

  // w follows the predecessor table, and meets s at its last node at most.
  ghost predicate Follows(g: Graph, s: int, p: seq<int>, w: seq<int>) {
    && |p| == |g| && |w| >= 1
    && (forall k | 0 <= k < |w| :: InRange(g, w[k]))
    && (forall k | 0 <= k < |w| - 1 :: w[k] != s && w[k + 1] == p[w[k]])
  }

  // w leads from its first node to s along the predecessor table.
  ghost predicate IsWalk(g: Graph, s: int, p: seq<int>, w: seq<int>) {
    Follows(g, s, p, w) && w[|w| - 1] == s
  }

  lemma FollowsOn(g: Graph, s: int, p: seq<int>, w: seq<int>)
    requires Follows(g, s, p, w) && w[|w| - 1] != s && InRange(g, p[w[|w| - 1]])
    ensures Follows(g, s, p, w + [p[w[|w| - 1]]])
  {
  }

  function Reverse(w: seq<int>): (r: seq<int>)
    ensures |r| == |w|
    ensures forall k | 0 <= k < |w| :: r[k] == w[|w| - 1 - k]
  {
    if w == [] then [] else Reverse(w[1..]) + [w[0]]
  }

  ghost predicate SettledBelowInfinity(g: Graph, d: seq<int>, order: seq<int>)
    requires |d| == |g|
  {
    forall u | InRange(g, u) && u in order :: d[u] < INFINITY
  }

  lemma WalkRest(g: Graph, s: int, p: seq<int>, w: seq<int>)
    requires IsWalk(g, s, p, w) && |w| >= 2
    ensures IsWalk(g, s, p, w[1..]) && w[0] != s && w[1] == p[w[0]]
  {
  }

  // Read backwards, the walk from a node below INFINITY is a real path of exactly that weight.
  lemma {:induction false} WalkIsPath(g: Graph, s: int, d: seq<int>, p: seq<int>, order: seq<int>, w: seq<int>)
    requires IsGraph(g) && |d| == |p| == |g| && InRange(g, s) && d[s] == 0
    requires InTree(g, s, d, p, order) && SettledBelowInfinity(g, d, order)
    requires IsWalk(g, s, p, w) && d[w[0]] < INFINITY
    ensures IsPathFromTo(g, s, w[0], Reverse(w)) && Weight(g, Reverse(w)) == d[w[0]]
  {
    if |w| == 1 {
      assert Reverse(w) == [s];
    } else {
      var i, rest := w[0], w[1..];
      WalkRest(g, s, p, w);
      assert HangsAt(g, d, p, order, i);
      WalkIsPath(g, s, d, p, order, rest);
      ExtendPath(g, s, p[i], i, Reverse(rest));
      assert Reverse(w) == Reverse(rest) + [i];
    }
  }

  // One step along the predecessor table moves to an earlier place in the chain.
  lemma StepsBack(g: Graph, s: int, p: seq<int>, chain: seq<int>, at: nat) returns (before: nat)
    requires PredChain(g, s, p, chain) && at < |chain| && chain[at] != s
    ensures before < at && InRange(g, chain[at]) && chain[before] == p[chain[at]] && InRange(g, chain[before])
  {
    assert EarlierInChain(p, chain, at);
    before :| 0 <= before < at && chain[..at][before] == p[chain[at]];
    assert chain[before] in chain;
  }

  // The do-while loop that prints one path (lines 85-90).
  method WalkBack(g: Graph, start: int, pred: array<int>, i: int, ghost chain: seq<int>) returns (path: seq<int>)
    requires PredChain(g, start, pred[..], chain) && InRange(g, i) && i != start
    ensures IsWalk(g, start, pred[..], path) && path[0] == i
    ensures |path| - 1 <= |chain|
  {
    ghost var p := pred[..];
    var j := pred[i];
    path := [i, j];
    ghost var at :| 0 <= at < |chain| && chain[at] == j;
    assert InRange(g, j) by { assert chain[at] in chain; }
    while j != start
      invariant pred[..] == p && 0 <= at < |chain| && chain[at] == j && |path| + at <= |chain| + 1
      invariant |path| >= 2 && path[0] == i && path[|path| - 1] == j && Follows(g, start, p, path)
      decreases at
    {
      at := StepsBack(g, start, p, chain, at);
      FollowsOn(g, start, p, path);
      j := pred[j];
      path := path + [j];
    }
  }

  // A settled node is reached by a walk inside the chain.
  lemma {:induction false} WalkFrom(g: Graph, s: int, p: seq<int>, chain: seq<int>, at: nat) returns (w: seq<int>)
    requires PredChain(g, s, p, chain) && InRange(g, s) && at < |chain|
    ensures IsWalk(g, s, p, w) && w[0] == chain[at]
    decreases at
  {
    if chain[at] == s {
      w := [s];
    } else {
      var before := StepsBack(g, s, p, chain, at);
      var rest := WalkFrom(g, s, p, chain, before);
      w := [chain[at]] + rest;
    }
  }

  // ---- what an entry means ----

  ghost predicate LightlyReachable(g: Graph, s: int, i: int)
    requires Square(g)
  {
    exists p :: IsPathFromTo(g, s, i, p) && Weight(g, p) < INFINITY
  }

  ghost predicate Light(g: Graph, s: int, u: int, du: int)
    requires Square(g)
  {
    InRange(g, u) && du < INFINITY && IsDistance(g, s, u, du)
  }

  // The start reaches nothing else lightly, so that the first round finds nothing and relaxes from
  // whatever nextnode held.
  ghost predicate JunkCounts(g: Graph, s: int, junk: int, i: int)
    requires Square(g)
  {
    |g| >= 3 && junk != s && junk != i && forall u | InRange(g, u) && u != s :: !LightlyReachable(g, s, u)
  }

  // The values that reach the entry of a node without a light path: one hop from a lightly
  // reachable node, where a missing edge counts as INFINITY, or one hop from the junk node.
  ghost predicate Offer(g: Graph, s: int, junk: int, i: int, x: int)
    requires Square(g) && InRange(g, i) && InRange(g, junk)
  {
    || (exists u, du :: Light(g, s, u, du) && x == du + Cost(g, u, i))
    || (JunkCounts(g, s, junk, i) && x == INFINITY + Cost(g, junk, i))
  }

  ghost predicate LeastOffer(g: Graph, s: int, junk: int, i: int, x: int)
    requires Square(g) && InRange(g, i) && InRange(g, junk)
  {
    Offer(g, s, junk, i, x) && forall y | Offer(g, s, junk, i, y) :: x <= y
  }

  // The exact meaning of a printed number, for every graph: below INFINITY it is the distance,
  // otherwise no path is lighter than INFINITY and it is the least offer.
  ghost predicate CorrectEntry(g: Graph, s: int, junk: int, i: int, d: int)
    requires Square(g) && InRange(g, i) && InRange(g, junk)
  {
    if d < INFINITY then IsDistance(g, s, i, d)
    else LowerBound(g, s, i, INFINITY) && LeastOffer(g, s, junk, i, d)
  }

  // u comes just before i on a path of least weight.
  ghost predicate LeadsTo(g: Graph, s: int, u: int, du: int, i: int, di: int)
    requires Square(g) && InRange(g, i)
  {
    InRange(g, u) && IsDistance(g, s, u, du) && IsDistance(g, s, i, di) && g[u][i] != 0 && du + g[u][i] == di
  }

  // Of these nodes u is the nearest, and the one of the lowest number among the nearest.
  ghost predicate FirstBefore(g: Graph, s: int, u: int, i: int)
    requires Square(g) && InRange(g, i)
  {
    exists du, di :: LeadsTo(g, s, u, du, i, di) &&
      forall x, dx | LeadsTo(g, s, x, dx, i, di) :: x == u || du < dx || (du == dx && u < x)
  }

  // The walk takes the first way at every step.
  ghost predicate FirstWalk(g: Graph, s: int, w: seq<int>)
    requires Square(g)
  {
    forall k | 0 <= k < |w| - 1 :: InRange(g, w[k]) && FirstBefore(g, s, w[k + 1], w[k])
  }

  // Of the lightly reachable nodes that offer d to i, u is the first.
  ghost predicate FirstOffer(g: Graph, s: int, i: int, u: int, d: int)
    requires Square(g) && InRange(g, i)
  {
    exists du :: Light(g, s, u, du) && du + Cost(g, u, i) == d &&
      forall x, dx | Light(g, s, x, dx) && dx + Cost(g, x, i) == d :: x == u || du < dx || (du == dx && u < x)
  }

  // Read backwards, the walk is a path of weight d.
  ghost predicate WalkOfWeight(g: Graph, s: int, d: int, w: seq<int>)
    requires Square(g) && |w| >= 1
  {
    IsPathFromTo(g, s, w[0], Reverse(w)) && Weight(g, Reverse(w)) == d
  }

  // A light path, and one hop on top of it.
  ghost predicate HopOfWeight(g: Graph, s: int, d: int, w: seq<int>)
    requires Square(g) && |w| >= 2 && InRange(g, w[0]) && InRange(g, w[1])
  {
    exists x :: x < INFINITY && d == x + Cost(g, w[1], w[0]) && WalkOfWeight(g, s, x, w[1..])
  }

  // A printed walk is a path of the printed weight, the first of these; at or above INFINITY it is a
  // light path and one hop, the first of these, or the hop from the junk node if that is better.
  ghost predicate CorrectWalk(g: Graph, s: int, junk: int, d: int, w: seq<int>)
    requires Square(g) && InRange(g, s) && InRange(g, junk) && |w| >= 2 && InRange(g, w[0]) && InRange(g, w[1])
  {
    if d < INFINITY then WalkOfWeight(g, s, d, w) && FirstWalk(g, s, w)
    else
      || (HopOfWeight(g, s, d, w) && FirstOffer(g, s, w[0], w[1], d) && FirstWalk(g, s, w[1..]))
      || (JunkCounts(g, s, junk, w[0]) && w == [w[0], junk, s]
          && d == INFINITY + Cost(g, junk, w[0]) < Cost(g, s, w[0]))
  }

  lemma SettledIsLight(g: Graph, s: int, junk: int, d: seq<int>, p: seq<int>, order: seq<int>, chain: seq<int>, u: int)
    requires IsGraph(g) && InRange(g, s) && InRange(g, junk) && FinalTables(g, s, junk, d, p, order, chain)
    requires u in order
    ensures Light(g, s, u, d[u]) && LightlyReachable(g, s, u)
  {
    var at :| 0 <= at < |order| && order[at] == u;
    assert chain[at] == u;
    var w := WalkFrom(g, s, p, chain, at);
    WalkIsPath(g, s, d, p, order, w);
  }

  // An unsettled node is the last one, unless all of them are at or above INFINITY.
  lemma UnsettledIsLast(g: Graph, s: int, d: seq<int>, p: seq<int>, order: seq<int>, x: int)
    requires Square(g) && Settled(g, s, d, p, order) && InRange(g, x) && x !in order
    requires Exhausted(g, d, order) || |g| - 1 <= |order|
    ensures || (forall j | InRange(g, j) && j !in order :: j == x)
            || (forall j | InRange(g, j) && j !in order :: INFINITY <= d[j])
  {
    if !Exhausted(g, d, order) {
      forall j | InRange(g, j) && j !in order
        ensures j == x
      {
        MissesAtMostOne(order, |g|, x, j);
      }
    }
  }

  // A node whose entry is at or above INFINITY has no light path.
  lemma NotLight(g: Graph, s: int, junk: int, d: seq<int>, p: seq<int>, order: seq<int>, chain: seq<int>, i: int)
    requires IsGraph(g) && InRange(g, s) && InRange(g, junk) && FinalTables(g, s, junk, d, p, order, chain)
    requires InRange(g, i) && INFINITY <= d[i]
    ensures i !in order && LowerBound(g, s, i, INFINITY) && !LightlyReachable(g, s, i)
  {
    UnsettledIsLast(g, s, d, p, order, i);
    UnsettledBound(g, s, d, p, order, i);
  }

  // The lightly reachable nodes other than i are the settled ones, with their distances.
  lemma LightIsSettled(g: Graph, s: int, junk: int, d: seq<int>, p: seq<int>, order: seq<int>, chain: seq<int>,
                       i: int, u: int)
    requires IsGraph(g) && InRange(g, s) && InRange(g, junk) && FinalTables(g, s, junk, d, p, order, chain)
    requires InRange(g, i) && INFINITY <= d[i] && InRange(g, u) && LightlyReachable(g, s, u)
    ensures u in order
  {
    NotLight(g, s, junk, d, p, order, chain, i);
    if u !in order {
      if Exhausted(g, d, order) {
        NotLight(g, s, junk, d, p, order, chain, u);
      } else {
        MissesAtMostOne(order, |g|, i, u);
      }
    }
  }

  lemma LightValue(g: Graph, s: int, junk: int, d: seq<int>, p: seq<int>, order: seq<int>, chain: seq<int>,
                   u: int, du: int)
    requires IsGraph(g) && InRange(g, s) && InRange(g, junk) && FinalTables(g, s, junk, d, p, order, chain)
    requires u in order && Light(g, s, u, du)
    ensures du == d[u]
  {
    SettledIsLight(g, s, junk, d, p, order, chain, u);
  }

  // The junk node counts exactly when no round selected anything.
  lemma JunkCountsIff(g: Graph, s: int, junk: int, d: seq<int>, p: seq<int>, order: seq<int>, chain: seq<int>, i: int)
    requires IsGraph(g) && InRange(g, s) && InRange(g, junk) && FinalTables(g, s, junk, d, p, order, chain)
    requires InRange(g, i) && INFINITY <= d[i]
    ensures JunkCounts(g, s, junk, i) <==> order == [s] && |g| >= 3 && junk != s && junk != i
  {
    if order == [s] {
      forall u | InRange(g, u) && u != s
        ensures !LightlyReachable(g, s, u)
      {
        if LightlyReachable(g, s, u) {
          LightIsSettled(g, s, junk, d, p, order, chain, i, u);
          assert false;
        }
      }
    } else {
      var u := order[1];
      assert u in order && u != s && InRange(g, u);
      SettledIsLight(g, s, junk, d, p, order, chain, u);
    }
  }

  lemma EntryIsOffered(g: Graph, s: int, junk: int, d: seq<int>, p: seq<int>, order: seq<int>, chain: seq<int>, i: int)
    requires IsGraph(g) && InRange(g, s) && InRange(g, junk) && FinalTables(g, s, junk, d, p, order, chain)
    requires InRange(g, i) && i != s && INFINITY <= d[i]
    ensures Offer(g, s, junk, i, d[i])
  {
    JunkCountsIff(g, s, junk, d, p, order, chain, i);
    if order == [s] && Counted(g) >= 2 && junk != s {
      assert StaleAt(g, s, junk, d, p, i);
      SettledIsLight(g, s, junk, d, p, order, chain, s);
    } else {
      assert HangsBy(g, d, p, order, i);
      SettledIsLight(g, s, junk, d, p, order, chain, p[i]);
    }
  }

  lemma EntryIsLeast(g: Graph, s: int, junk: int, d: seq<int>, p: seq<int>, order: seq<int>, chain: seq<int>,
                     i: int, y: int)
    requires IsGraph(g) && InRange(g, s) && InRange(g, junk) && FinalTables(g, s, junk, d, p, order, chain)
    requires InRange(g, i) && i != s && INFINITY <= d[i] && Offer(g, s, junk, i, y)
    ensures d[i] <= y
  {
    NotLight(g, s, junk, d, p, order, chain, i);
    JunkCountsIff(g, s, junk, d, p, order, chain, i);
    if u, du :| Light(g, s, u, du) && y == du + Cost(g, u, i) {
      LightIsSettled(g, s, junk, d, p, order, chain, i, u);
      LightValue(g, s, junk, d, p, order, chain, u, du);
      assert d[i] <= d[u] + Cost(g, u, i);
    } else {
      assert StaleAt(g, s, junk, d, p, i);
    }
  }

  lemma EntryIsCorrect(g: Graph, s: int, junk: int, d: seq<int>, p: seq<int>, order: seq<int>, chain: seq<int>,
                       w: seq<int>)
    requires IsGraph(g) && InRange(g, s) && InRange(g, junk) && FinalTables(g, s, junk, d, p, order, chain)
    requires IsWalk(g, s, p, w) && w[0] != s
    ensures CorrectEntry(g, s, junk, w[0], d[w[0]])
  {
    var i := w[0];
    if d[i] < INFINITY {
      WalkIsPath(g, s, d, p, order, w);
      if i !in order {
        UnsettledIsLast(g, s, d, p, order, i);
        UnsettledBound(g, s, d, p, order, i);
      }
    } else {
      NotLight(g, s, junk, d, p, order, chain, i);
      EntryIsOffered(g, s, junk, d, p, order, chain, i);
      forall y | Offer(g, s, junk, i, y)
        ensures d[i] <= y
      {
        EntryIsLeast(g, s, junk, d, p, order, chain, i, y);
      }
    }
  }

  // The walk along the predecessor table from a node below INFINITY.
  lemma WalkOf(g: Graph, s: int, p: seq<int>, order: seq<int>, chain: seq<int>, i: int) returns (w: seq<int>)
    requires PredChain(g, s, p, chain) && order <= chain && InRange(g, s) && InRange(g, i) && i != s && p[i] in order
    ensures IsWalk(g, s, p, w) && w[0] == i
  {
    var at :| 0 <= at < |order| && order[at] == p[i];
    var rest := WalkFrom(g, s, p, chain, at);
    w := [i] + rest;
    assert w[1..] == rest;
  }

  // The distances in the tables below INFINITY.
  lemma EntryIsDistance(g: Graph, s: int, junk: int, d: seq<int>, p: seq<int>, order: seq<int>, chain: seq<int>, i: int)
    requires IsGraph(g) && InRange(g, s) && InRange(g, junk) && FinalTables(g, s, junk, d, p, order, chain)
    requires InRange(g, i) && i != s && d[i] < INFINITY
    ensures IsDistance(g, s, i, d[i]) && HangsAt(g, d, p, order, i)
  {
    assert HangsAt(g, d, p, order, i);
    var w := WalkOf(g, s, p, order, chain, i);
    EntryIsCorrect(g, s, junk, d, p, order, chain, w);
  }

  // No path to an unsettled node is lighter than an entry below INFINITY.
  lemma UnsettledIsFar(g: Graph, s: int, d: seq<int>, p: seq<int>, order: seq<int>, i: int, x: int)
    requires IsGraph(g) && Settled(g, s, d, p, order) && (Exhausted(g, d, order) || |g| - 1 <= |order|)
    requires InRange(g, i) && d[i] < INFINITY && InRange(g, x) && x !in order
    ensures LowerBound(g, s, x, d[i])
  {
    UnsettledIsLast(g, s, d, p, order, x);
    UnsettledBound(g, s, d, p, order, x);
    assert d[i] <= if d[x] < INFINITY then d[x] else INFINITY by {
      assert i == x || i !in order || d[i] <= d[x];
    }
    LowerBoundBelow(g, s, x, if d[x] < INFINITY then d[x] else INFINITY, d[i]);
  }

  lemma LowerBoundBelow(g: Graph, s: int, t: int, a: int, b: int)
    requires Square(g) && LowerBound(g, s, t, a) && b <= a
    ensures LowerBound(g, s, t, b)
  {
  }

  // A node that comes just before i on a path of least weight is settled.
  lemma LeadingIsSettled(g: Graph, s: int, junk: int, d: seq<int>, p: seq<int>, order: seq<int>, chain: seq<int>,
                         i: int, x: int, dx: int)
    requires IsGraph(g) && InRange(g, s) && InRange(g, junk) && FinalTables(g, s, junk, d, p, order, chain)
    requires InRange(g, i) && i != s && d[i] < INFINITY && LeadsTo(g, s, x, dx, i, d[i])
    ensures x in order && d[x] == dx
  {
    if x !in order {
      UnsettledIsFar(g, s, d, p, order, i, x);
      assert false;
    }
    SettledIsLight(g, s, junk, d, p, order, chain, x);
  }

  lemma PredecessorIsFirst(g: Graph, s: int, junk: int, d: seq<int>, p: seq<int>, order: seq<int>, chain: seq<int>,
                           i: int)
    requires IsGraph(g) && InRange(g, s) && InRange(g, junk) && FinalTables(g, s, junk, d, p, order, chain)
    requires InRange(g, i) && i != s && d[i] < INFINITY
    ensures FirstBefore(g, s, p[i], i)
  {
    EntryIsDistance(g, s, junk, d, p, order, chain, i);
    SettledIsLight(g, s, junk, d, p, order, chain, p[i]);
    assert LeadsTo(g, s, p[i], d[p[i]], i, d[i]);
    forall x, dx | LeadsTo(g, s, x, dx, i, d[i])
      ensures x == p[i] || d[p[i]] < dx || (d[p[i]] == dx && p[i] < x)
    {
      LeadingIsSettled(g, s, junk, d, p, order, chain, i, x, dx);
      assert FirstAt(g, d, p, order, i) && d[x] + Cost(g, x, i) == d[i];
    }
  }

  lemma {:induction false} WalkIsFirst(g: Graph, s: int, junk: int, d: seq<int>, p: seq<int>, order: seq<int>,
                                       chain: seq<int>, w: seq<int>)
    requires IsGraph(g) && InRange(g, s) && InRange(g, junk) && FinalTables(g, s, junk, d, p, order, chain)
    requires IsWalk(g, s, p, w) && d[w[0]] < INFINITY
    ensures FirstWalk(g, s, w)
  {
    if |w| >= 2 {
      WalkRest(g, s, p, w);
      PredecessorIsFirst(g, s, junk, d, p, order, chain, w[0]);
      assert HangsAt(g, d, p, order, w[0]);
      WalkIsFirst(g, s, junk, d, p, order, chain, w[1..]);
      FirstWalkGrows(g, s, w);
    }
  }

  lemma FirstWalkGrows(g: Graph, s: int, w: seq<int>)
    requires Square(g) && |w| >= 2 && InRange(g, w[0]) && FirstBefore(g, s, w[1], w[0]) && FirstWalk(g, s, w[1..])
    ensures FirstWalk(g, s, w)
  {
    forall k | 0 <= k < |w| - 1
      ensures InRange(g, w[k]) && FirstBefore(g, s, w[k + 1], w[k])
    {
      if k > 0 {
        assert w[k] == w[1..][k - 1] && w[k + 1] == w[1..][k];
      }
    }
  }

  lemma OfferIsFirst(g: Graph, s: int, junk: int, d: seq<int>, p: seq<int>, order: seq<int>, chain: seq<int>, i: int)
    requires IsGraph(g) && InRange(g, s) && InRange(g, junk) && FinalTables(g, s, junk, d, p, order, chain)
    requires InRange(g, i) && i != s && INFINITY <= d[i] && HangsBy(g, d, p, order, i)
    ensures FirstOffer(g, s, i, p[i], d[i])
  {
    SettledIsLight(g, s, junk, d, p, order, chain, p[i]);
    assert FirstAt(g, d, p, order, i);
    forall x, dx | Light(g, s, x, dx) && dx + Cost(g, x, i) == d[i]
      ensures x == p[i] || d[p[i]] < dx || (d[p[i]] == dx && p[i] < x)
    {
      LightIsSettled(g, s, junk, d, p, order, chain, i, x);
      LightValue(g, s, junk, d, p, order, chain, x, dx);
    }
  }

  // The predecessor is the junk node.
  lemma JunkWalkIsCorrect(g: Graph, s: int, junk: int, d: seq<int>, p: seq<int>, order: seq<int>, chain: seq<int>,
                          w: seq<int>)
    requires IsGraph(g) && InRange(g, s) && InRange(g, junk) && FinalTables(g, s, junk, d, p, order, chain)
    requires IsWalk(g, s, p, w) && |w| >= 2 && INFINITY <= d[w[0]]
    requires order == [s] && Counted(g) >= 2 && junk != s && p[w[0]] == junk
    ensures CorrectWalk(g, s, junk, d[w[0]], w)
  {
    var i := w[0];
    assert i != s && w[1] == junk;
    JunkCountsIff(g, s, junk, d, p, order, chain, i);
    assert StaleAt(g, s, junk, d, p, i) && StaleAt(g, s, junk, d, p, junk);
    assert w[2] == s && |w| == 3;
    assert w == [i, junk, s];
  }

  // The predecessor is settled.
  lemma HopWalkIsCorrect(g: Graph, s: int, junk: int, d: seq<int>, p: seq<int>, order: seq<int>, chain: seq<int>,
                         w: seq<int>)
    requires IsGraph(g) && InRange(g, s) && InRange(g, junk) && FinalTables(g, s, junk, d, p, order, chain)
    requires IsWalk(g, s, p, w) && |w| >= 2 && INFINITY <= d[w[0]] && HangsBy(g, d, p, order, w[0])
    ensures CorrectWalk(g, s, junk, d[w[0]], w)
  {
    var i, rest := w[0], w[1..];
    WalkRest(g, s, p, w);
    WalkIsPath(g, s, d, p, order, rest);
    assert WalkOfWeight(g, s, d[p[i]], rest);
    OfferIsFirst(g, s, junk, d, p, order, chain, i);
    WalkIsFirst(g, s, junk, d, p, order, chain, rest);
  }

  lemma WalkIsCorrect(g: Graph, s: int, junk: int, d: seq<int>, p: seq<int>, order: seq<int>, chain: seq<int>,
                      w: seq<int>)
    requires IsGraph(g) && InRange(g, s) && InRange(g, junk) && FinalTables(g, s, junk, d, p, order, chain)
    requires IsWalk(g, s, p, w) && |w| >= 2
    ensures CorrectWalk(g, s, junk, d[w[0]], w)
  {
    WalkRest(g, s, p, w);
    if d[w[0]] < INFINITY {
      WalkIsPath(g, s, d, p, order, w);
      WalkIsFirst(g, s, junk, d, p, order, chain, w);
    } else if order == [s] && Counted(g) >= 2 && junk != s && p[w[0]] == junk {
      JunkWalkIsCorrect(g, s, junk, d, p, order, chain, w);
    } else {
      assert HangsBy(g, d, p, order, w[0]) by {
        if order == [s] && Counted(g) >= 2 && junk != s {
          assert StaleAt(g, s, junk, d, p, w[0]);
        }
      }
      HopWalkIsCorrect(g, s, junk, d, p, order, chain, w);
    }
  }

  // One printed line: a node, its table entry, and the walk back to the start.
  datatype Line = Line(node: int, dist: int, path: seq<int>)

  ghost predicate CorrectLine(g: Graph, s: int, junk: int, l: Line)
    requires IsGraph(g) && InRange(g, s) && InRange(g, junk)
  {
    && InRange(g, l.node) && CorrectEntry(g, s, junk, l.node, l.dist)
    && 1 <= |l.path| - 1 <= |g| - 1 && l.path[0] == l.node && l.path[|l.path| - 1] == s
    && InRange(g, l.path[1]) && CorrectWalk(g, s, junk, l.dist, l.path)
  }

  ghost predicate CorrectReport(g: Graph, s: int, junk: int, lines: seq<Line>)
    requires IsGraph(g) && InRange(g, s) && InRange(g, junk)
  {
    forall k | 0 <= k < |lines| :: CorrectLine(g, s, junk, lines[k]) && lines[k].node == if k < s then k else k + 1
  }

  // One iteration of the printing loop (lines 80-91).
  method PrintLine(g: Graph, start: int, ghost junk: int, i: int, distance: array<int>, pred: array<int>,
                   ghost order: seq<int>, ghost chain: seq<int>) returns (l: Line)
    requires IsGraph(g) && InRange(g, start) && InRange(g, junk) && InRange(g, i) && i != start
    requires FinalTables(g, start, junk, distance[..], pred[..], order, chain)
    ensures l.node == i && CorrectLine(g, start, junk, l)
  {
    var path := WalkBack(g, start, pred, i, chain);
    EntryIsCorrect(g, start, junk, distance[..], pred[..], order, chain, path);
    WalkIsCorrect(g, start, junk, distance[..], pred[..], order, chain, path);
    l := Line(i, distance[i], path);
  }

  // The printing loop (lines 79-91).
  method PrintLines(g: Graph, start: int, ghost junk: int, distance: array<int>, pred: array<int>,
                    ghost order: seq<int>, ghost chain: seq<int>) returns (lines: seq<Line>)
    requires IsGraph(g) && InRange(g, start) && InRange(g, junk)
    requires FinalTables(g, start, junk, distance[..], pred[..], order, chain)
    ensures |lines| == |g| - 1 && CorrectReport(g, start, junk, lines)
  {
    lines := [];
    for i := 0 to |g|
      invariant |lines| == if i <= start then i else i - 1
      invariant CorrectReport(g, start, junk, lines)
    {
      if i != start {
        var l := PrintLine(g, start, junk, i, distance, pred, order, chain);
        lines := lines + [l];
      }
    }
  }

  // The whole program, on a run whose sums do not overflow: one correct line for every node except
  // the start, in increasing order, with a faithful number exactly where the sentinel is harmless.
  method Dijkstra(g: Graph, start: int, junk: int) returns (lines: seq<Line>)
    requires IsGraph(g) && InRange(g, start) && InRange(g, junk) && NeverOverflows(g, start, junk)
    ensures |lines| == |g| - 1 && CorrectReport(g, start, junk, lines)
    ensures forall k | 0 <= k < |lines| ::
              Faithful(g, start, lines[k].node, lines[k].dist) <==> SentinelHarmless(g, start, junk, lines[k].node)
  {
    var distance, pred;
    ghost var run;
    distance, pred, run := ShortestPaths(g, start, junk);
    ghost var order, chain := RunIsSettled(g, start, junk, run);
    lines := PrintLines(g, start, junk, distance, pred, order, chain);
    forall k | 0 <= k < |lines|
      ensures Faithful(g, start, lines[k].node, lines[k].dist) <==> SentinelHarmless(g, start, junk, lines[k].node)
    {
      FaithfulIff(g, start, junk, lines[k]);
    }
  }

  // ---- nothing else is correct ----

  lemma OneDistance(g: Graph, s: int, i: int, d: int, e: int)
    requires Square(g) && IsDistance(g, s, i, d) && IsDistance(g, s, i, e)
    ensures d == e
  {
  }

  lemma OneFirstBefore(g: Graph, s: int, u: int, v: int, i: int)
    requires Square(g) && InRange(g, i) && FirstBefore(g, s, u, i) && FirstBefore(g, s, v, i)
    ensures u == v
  {
    var du, di :| LeadsTo(g, s, u, du, i, di) &&
      forall x, dx | LeadsTo(g, s, x, dx, i, di) :: x == u || du < dx || (du == dx && u < x);
    var dv, ei :| LeadsTo(g, s, v, dv, i, ei) &&
      forall x, dx | LeadsTo(g, s, x, dx, i, ei) :: x == v || dv < dx || (dv == dx && v < x);
    OneDistance(g, s, i, di, ei);
  }

  lemma NothingBeforeStart(g: Graph, s: int, u: int)
    requires IsGraph(g) && InRange(g, s)
    ensures !FirstBefore(g, s, u, s)
  {
    if FirstBefore(g, s, u, s) {
      var du, ds :| LeadsTo(g, s, u, du, s, ds);
      StartIsLight(g, s);
      OneDistance(g, s, s, ds, 0);
      var q :| IsPathFromTo(g, s, u, q) && Weight(g, q) == du;
      WeightNonNegative(g, q);
      assert false;
    }
  }

  lemma {:induction false} OneFirstWalk(g: Graph, s: int, w: seq<int>, v: seq<int>)
    requires IsGraph(g) && InRange(g, s) && |w| >= 1 && |v| >= 1 && w[0] == v[0]
    requires FirstWalk(g, s, w) && FirstWalk(g, s, v) && w[|w| - 1] == s == v[|v| - 1]
    ensures w == v
  {
    if |w| >= 2 && |v| >= 2 {
      assert FirstBefore(g, s, w[0 + 1], w[0]) && FirstBefore(g, s, v[0 + 1], v[0]);
      OneFirstBefore(g, s, w[1], v[1], w[0]);
      FirstWalkRest(g, s, w);
      FirstWalkRest(g, s, v);
      OneFirstWalk(g, s, w[1..], v[1..]);
      assert w == [w[0]] + w[1..] && v == [v[0]] + v[1..];
    } else if |w| >= 2 {
      assert FirstBefore(g, s, w[0 + 1], w[0]);
      NothingBeforeStart(g, s, w[1]);
    } else if |v| >= 2 {
      assert FirstBefore(g, s, v[0 + 1], v[0]);
      NothingBeforeStart(g, s, v[1]);
    }
  }

  lemma FirstWalkRest(g: Graph, s: int, w: seq<int>)
    requires Square(g) && |w| >= 2 && FirstWalk(g, s, w)
    ensures FirstWalk(g, s, w[1..])
  {
    forall k | 0 <= k < |w[1..]| - 1
      ensures InRange(g, w[1..][k]) && FirstBefore(g, s, w[1..][k + 1], w[1..][k])
    {
      assert w[1..][k] == w[k + 1] && w[1..][k + 1] == w[k + 1 + 1];
    }
  }

  lemma OneFirstOffer(g: Graph, s: int, i: int, u: int, v: int, d: int)
    requires Square(g) && InRange(g, i) && FirstOffer(g, s, i, u, d) && FirstOffer(g, s, i, v, d)
    ensures u == v
  {
    var du :| Light(g, s, u, du) && du + Cost(g, u, i) == d &&
      forall x, dx | Light(g, s, x, dx) && dx + Cost(g, x, i) == d :: x == u || du < dx || (du == dx && u < x);
    var dv :| Light(g, s, v, dv) && dv + Cost(g, v, i) == d &&
      forall x, dx | Light(g, s, x, dx) && dx + Cost(g, x, i) == d :: x == v || dv < dx || (dv == dx && v < x);
  }

  // Where the junk node is better, no lightly reachable node offers the number.
  lemma JunkOrHop(g: Graph, s: int, junk: int, i: int, u: int, d: int)
    requires IsGraph(g) && InRange(g, s) && InRange(g, i) && JunkCounts(g, s, junk, i) && d < Cost(g, s, i)
    ensures !FirstOffer(g, s, i, u, d)
  {
    if FirstOffer(g, s, i, u, d) {
      var du :| Light(g, s, u, du) && du + Cost(g, u, i) == d;
      assert LightlyReachable(g, s, u);
      StartIsLight(g, s);
      OneDistance(g, s, s, 0, if u == s then du else 0);
      assert false;
    }
  }

  lemma OneEntry(g: Graph, s: int, junk: int, i: int, d: int, e: int)
    requires Square(g) && InRange(g, i) && InRange(g, junk)
    requires CorrectEntry(g, s, junk, i, d) && CorrectEntry(g, s, junk, i, e)
    ensures d == e
  {
  }

  lemma OneHopWalk(g: Graph, s: int, d: int, w: seq<int>, v: seq<int>)
    requires IsGraph(g) && InRange(g, s) && |w| >= 2 && |v| >= 2 && w[0] == v[0] && InRange(g, w[0])
    requires w[|w| - 1] == s == v[|v| - 1]
    requires FirstOffer(g, s, w[0], w[1], d) && FirstWalk(g, s, w[1..])
    requires FirstOffer(g, s, v[0], v[1], d) && FirstWalk(g, s, v[1..])
    ensures w == v
  {
    OneFirstOffer(g, s, w[0], w[1], v[1], d);
    OneFirstWalk(g, s, w[1..], v[1..]);
    assert w == [w[0]] + w[1..] && v == [v[0]] + v[1..];
  }

  lemma OneWalk(g: Graph, s: int, junk: int, d: int, w: seq<int>, v: seq<int>)
    requires IsGraph(g) && InRange(g, s) && InRange(g, junk) && |w| >= 2 && |v| >= 2 && w[0] == v[0] && InRange(g, w[0])
    requires InRange(g, w[1]) && InRange(g, v[1]) && w[|w| - 1] == s == v[|v| - 1]
    requires CorrectWalk(g, s, junk, d, w) && CorrectWalk(g, s, junk, d, v)
    ensures w == v
  {
    if d < INFINITY {
      OneFirstWalk(g, s, w, v);
    } else if JunkCounts(g, s, junk, w[0]) && d < Cost(g, s, w[0]) {
      JunkOrHop(g, s, junk, w[0], w[1], d);
      JunkOrHop(g, s, junk, w[0], v[1], d);
    } else {
      OneHopWalk(g, s, d, w, v);
    }
  }

  lemma OneLine(g: Graph, s: int, junk: int, l: Line, k: Line)
    requires IsGraph(g) && InRange(g, s) && InRange(g, junk) && l.node == k.node
    requires CorrectLine(g, s, junk, l) && CorrectLine(g, s, junk, k)
    ensures l == k
  {
    OneEntry(g, s, junk, l.node, l.dist, k.dist);
    OneWalk(g, s, junk, l.dist, l.path, k.path);
  }

  // For each graph, start and initial nextnode there is one correct report: which of several equally
  // short walks is printed is determined as well.
  lemma OneReport(g: Graph, s: int, junk: int, a: seq<Line>, b: seq<Line>)
    requires IsGraph(g) && InRange(g, s) && InRange(g, junk) && |a| == |b|
    requires CorrectReport(g, s, junk, a) && CorrectReport(g, s, junk, b)
    ensures a == b
  {
    forall k | 0 <= k < |a|
      ensures a[k] == b[k]
    {
      assert a[k].node == b[k].node;
      OneLine(g, s, junk, a[k], b[k]);
    }
  }

  // ---- what the sentinel costs ----

  // The reading a caller would like: the distance when there is one, INFINITY exactly when not.
  ghost predicate Faithful(g: Graph, s: int, i: int, d: int)
    requires Square(g)
  {
    if Reachable(g, s, i) then d != INFINITY && IsDistance(g, s, i, d) else d == INFINITY
  }

  lemma StartIsLight(g: Graph, s: int)
    requires IsGraph(g) && InRange(g, s)
    ensures Light(g, s, s, 0)
  {
    assert IsPathFromTo(g, s, s, [s]) && Weight(g, [s]) == 0;
    forall p | IsPathFromTo(g, s, s, p)
      ensures 0 <= Weight(g, p)
    {
      WeightNonNegative(g, p);
    }
  }

  lemma EdgeReaches(g: Graph, s: int, i: int)
    requires IsGraph(g) && InRange(g, s) && InRange(g, i) && g[s][i] != 0
    ensures Reachable(g, s, i)
  {
    assert IsPathFromTo(g, s, i, [s, i]);
  }

  // A printed entry never exceeds the cost of the direct hop.
  lemma AtMostDirect(g: Graph, s: int, junk: int, i: int, d: int)
    requires IsGraph(g) && InRange(g, s) && InRange(g, junk) && InRange(g, i) && CorrectEntry(g, s, junk, i, d)
    ensures d >= INFINITY ==> d <= Cost(g, s, i)
  {
    StartIsLight(g, s);
    assert Light(g, s, s, 0) && Cost(g, s, i) == 0 + Cost(g, s, i);
    assert Offer(g, s, junk, i, Cost(g, s, i));
  }

  // The node is unreachable, or has a path lighter than INFINITY, or the least offer happens to be
  // its distance and above INFINITY.
  ghost predicate SentinelHarmless(g: Graph, s: int, junk: int, i: int)
    requires Square(g) && InRange(g, i) && InRange(g, junk)
  {
    Reachable(g, s, i) ==>
      || LightlyReachable(g, s, i)
      || exists x :: x > INFINITY && IsDistance(g, s, i, x) && LeastOffer(g, s, junk, i, x)
  }

  lemma FaithfulIff(g: Graph, s: int, junk: int, l: Line)
    requires IsGraph(g) && InRange(g, s) && InRange(g, junk) && CorrectLine(g, s, junk, l)
    ensures Faithful(g, s, l.node, l.dist) <==> SentinelHarmless(g, s, junk, l.node)
  {
    AtMostDirect(g, s, junk, l.node, l.dist);
    if !Reachable(g, s, l.node) && g[s][l.node] != 0 {
      EdgeReaches(g, s, l.node);
      assert false;
    }
  }

  // Without a start edge heavier than INFINITY to the node, the last case cannot arise.
  lemma FaithfulIffLight(g: Graph, s: int, junk: int, l: Line)
    requires IsGraph(g) && InRange(g, s) && InRange(g, junk) && CorrectLine(g, s, junk, l) && g[s][l.node] <= INFINITY
    ensures Faithful(g, s, l.node, l.dist) <==> (Reachable(g, s, l.node) ==> LightlyReachable(g, s, l.node))
  {
    AtMostDirect(g, s, junk, l.node, l.dist);
    FaithfulIff(g, s, junk, l);
  }

  // A caller's bound that suffices: n-1 edges of the heaviest weight stay below the sentinel.
  lemma BoundedWeightsAreLight(g: Graph, s: int, i: int, most: nat)
    requires IsGraph(g) && WeightsAtMost(g, most) && (|g| - 1) * most < INFINITY && Reachable(g, s, i)
    ensures LightlyReachable(g, s, i)
  {
    var p :| IsPathFromTo(g, s, i, p);
    var q := ShortPath(g, s, i, p);
    WeightAtMost(g, q, most);
    ScaledOrder(|q| - 1, |g| - 1, most);
  }

  const HEAVY: Graph := [[0, 5000, 0], [0, 0, 5000], [0, 0, 0]]

  // Two edges of weight 5000 in a row: the node at distance 10000 is reported as unreachable.
  lemma HeavyPathIsLost(junk: int, d: int)
    requires InRange(HEAVY, junk) && CorrectEntry(HEAVY, 0, junk, 2, d)
    ensures d == INFINITY && IsDistance(HEAVY, 0, 2, 10000) && !Faithful(HEAVY, 0, 2, d)
  {
    AtMostDirect(HEAVY, 0, junk, 2, d);
    forall p | IsPathFromTo(HEAVY, 0, 2, p)
      ensures Weight(HEAVY, p) == 10000
    {
      HeavyPathsTo2(p);
    }
    var q := [0, 1, 2];
    assert IsPathFromTo(HEAVY, 0, 2, q);
  }

  lemma HeavyEdge(p: seq<int>, k: int)
    requires IsPath(HEAVY, p) && 0 <= k < |p| - 1
    ensures (p[k] == 0 && p[k + 1] == 1) || (p[k] == 1 && p[k + 1] == 2)
  {
    assert HEAVY[p[k]][p[k + 1]] != 0;
  }

  lemma HeavyPathsTo2(p: seq<int>)
    requires IsPathFromTo(HEAVY, 0, 2, p)
    ensures p == [0, 1, 2] && Weight(HEAVY, p) == 10000
  {
    HeavyEdge(p, 0);
    HeavyEdge(p, 1);
    if |p| > 3 {
      HeavyEdge(p, 2);
    }
    assert p[..2] == [0, 1] && p[..2][..1] == [0];
    assert Weight(HEAVY, [0]) == 0;
    assert Weight(HEAVY, [0, 1]) == 5000 by { assert [0, 1][..1] == [0]; }
  }

  // The light part of a walk whose number is at or above INFINITY.
  lemma HopWalk(g: Graph, s: int, junk: int, d: int, w: seq<int>) returns (q: seq<int>)
    requires IsGraph(g) && InRange(g, s) && InRange(g, junk) && |w| >= 2 && InRange(g, w[0]) && InRange(g, w[1])
    requires CorrectWalk(g, s, junk, d, w) && INFINITY <= d && !JunkCounts(g, s, junk, w[0])
    ensures IsPathFromTo(g, s, w[1], q) && Weight(g, q) < INFINITY && d == Weight(g, q) + Cost(g, w[1], w[0])
    ensures |q| == |w| - 1 && forall k | 0 < k < |w| :: w[k] == q[|w| - 1 - k]
  {
    q := Reverse(w[1..]);
  }

  const PHANTOM: Graph := [[0, 1, 20000], [0, 0, 0], [0, 0, 0]]

  lemma PhantomEdge(p: seq<int>, k: int)
    requires IsPath(PHANTOM, p) && 0 <= k < |p| - 1
    ensures p[k] == 0 && p[k + 1] != 0
  {
    assert PHANTOM[p[k]][p[k + 1]] != 0;
  }

  lemma PhantomPaths(p: seq<int>)
    requires IsPath(PHANTOM, p) && p[0] == 0
    ensures p == [0] || (p == [0, 1] && Weight(PHANTOM, p) == 1) || (p == [0, 2] && Weight(PHANTOM, p) == 20000)
  {
    if |p| >= 2 {
      PhantomEdge(p, 0);
      if |p| >= 3 {
        PhantomEdge(p, 1);
      }
      assert p[..1] == [0] && Weight(PHANTOM, [0]) == 0;
      assert p == [0, p[1]];
    }
  }

  lemma PhantomDistances()
    ensures IsDistance(PHANTOM, 0, 1, 1) && IsDistance(PHANTOM, 0, 2, 20000)
    ensures LightlyReachable(PHANTOM, 0, 1)
  {
    assert IsPathFromTo(PHANTOM, 0, 1, [0, 1]) && IsPathFromTo(PHANTOM, 0, 2, [0, 2]);
    PhantomPaths([0, 1]);
    PhantomPaths([0, 2]);
    forall p | IsPathFromTo(PHANTOM, 0, 1, p)
      ensures 1 <= Weight(PHANTOM, p)
    {
      PhantomPaths(p);
    }
    forall p | IsPathFromTo(PHANTOM, 0, 2, p)
      ensures 20000 <= Weight(PHANTOM, p)
    {
      PhantomPaths(p);
    }
  }

  lemma PhantomEntry(junk: int, d: int)
    requires InRange(PHANTOM, junk) && CorrectEntry(PHANTOM, 0, junk, 2, d)
    ensures INFINITY <= d <= 10000
  {
    PhantomDistances();
    assert Offer(PHANTOM, 0, junk, 2, 10000) by {
      assert Light(PHANTOM, 0, 1, 1) && Cost(PHANTOM, 1, 2) == INFINITY;
    }
  }

  lemma PhantomWalk(junk: int, d: int, w: seq<int>)
    requires InRange(PHANTOM, junk) && |w| >= 2 && w[0] == 2 && InRange(PHANTOM, w[1])
    requires CorrectWalk(PHANTOM, 0, junk, d, w) && INFINITY <= d <= 10000
    ensures d == 10000 && w == [2, 1, 0]
  {
    PhantomJunk(junk);
    var q := HopWalk(PHANTOM, 0, junk, d, w);
    PhantomHop(d, w, q);
  }

  lemma PhantomJunk(junk: int)
    ensures !JunkCounts(PHANTOM, 0, junk, 2)
  {
    PhantomDistances();
  }

  lemma PhantomHop(d: int, w: seq<int>, q: seq<int>)
    requires |w| >= 2 && w[0] == 2 && InRange(PHANTOM, w[1]) && d <= 10000
    requires IsPathFromTo(PHANTOM, 0, w[1], q) && Weight(PHANTOM, q) < INFINITY
    requires d == Weight(PHANTOM, q) + Cost(PHANTOM, w[1], 2)
    requires |q| == |w| - 1 && forall k | 0 < k < |w| :: w[k] == q[|w| - 1 - k]
    ensures d == 10000 && w == [2, 1, 0]
  {
    PhantomPaths(q);
    assert q != [0] && q != [0, 2];
  }

  // A start edge of 20000 to node 2: the program prints the distance 10000 and the walk 2, 1, 0,
  // over an edge from 1 to 2 that does not exist.
  lemma HeavyEdgePrintsPhantomWalk(junk: int, l: Line)
    requires InRange(PHANTOM, junk) && CorrectLine(PHANTOM, 0, junk, l) && l.node == 2
    ensures l.dist == 10000 && l.path == [2, 1, 0] && PHANTOM[1][2] == 0
    ensures IsDistance(PHANTOM, 0, 2, 20000) && !Faithful(PHANTOM, 0, 2, l.dist)
  {
    PhantomEntry(junk, l.dist);
    PhantomWalk(junk, l.dist, l.path);
    PhantomDistances();
  }

  const SINGLE: Graph := [[0, 10000], [0, 0]]

  lemma SingleEdge(p: seq<int>, k: int)
    requires IsPath(SINGLE, p) && 0 <= k < |p| - 1
    ensures p[k] == 0 && p[k + 1] == 1
  {
    assert SINGLE[p[k]][p[k + 1]] != 0;
  }

  lemma SinglePath(p: seq<int>)
    requires IsPathFromTo(SINGLE, 0, 1, p)
    ensures p == [0, 1] && Weight(SINGLE, p) == 10000
  {
    SingleEdge(p, 0);
    if |p| >= 3 {
      SingleEdge(p, 1);
    }
    assert p[..1] == [0] && Weight(SINGLE, [0]) == 0;
  }

  // A lone start edge of 10000 is printed as it is, although no path is lighter than INFINITY.
  lemma HeavyEdgeCanBeRight(junk: int, d: int)
    requires InRange(SINGLE, junk) && CorrectEntry(SINGLE, 0, junk, 1, d)
    ensures d == 10000 && IsDistance(SINGLE, 0, 1, d) && Faithful(SINGLE, 0, 1, d) && !LightlyReachable(SINGLE, 0, 1)
  {
    forall p | IsPathFromTo(SINGLE, 0, 1, p)
      ensures p == [0, 1] && Weight(SINGLE, p) == 10000
    {
      SinglePath(p);
    }
    assert IsPathFromTo(SINGLE, 0, 1, [0, 1]);
    AtMostDirect(SINGLE, 0, junk, 1, d);
    SingleOffers(junk, d);
  }

  lemma SingleOffers(junk: int, x: int)
    requires InRange(SINGLE, junk) && CorrectEntry(SINGLE, 0, junk, 1, x)
    requires LowerBound(SINGLE, 0, 1, 10000)
    ensures x == 10000
  {
    assert x >= INFINITY;
    assert Offer(SINGLE, 0, junk, 1, x);
    var u, du :| Light(SINGLE, 0, u, du) && x == du + Cost(SINGLE, u, 1);
    if u == 1 {
      assert false;
    }
    StartIsLight(SINGLE, 0);
  }

  const JUNKY: Graph := [[0, 0, 20000], [0, 0, 1], [0, 0, 0]]

  lemma JunkyEdge(p: seq<int>, k: int)
    requires IsPath(JUNKY, p) && 0 <= k < |p| - 1
    ensures p[k] != 2 && p[k + 1] == 2
  {
    assert JUNKY[p[k]][p[k + 1]] != 0;
  }

  lemma JunkyPath(p: seq<int>)
    requires IsPath(JUNKY, p) && p[0] == 0
    ensures p == [0] || (p == [0, 2] && Weight(JUNKY, p) == 20000)
  {
    if |p| >= 2 {
      JunkyEdge(p, 0);
      if |p| >= 3 {
        JunkyEdge(p, 1);
      }
      assert p[..1] == [0] && Weight(JUNKY, [0]) == 0;
      assert p == [0, 2];
    }
  }

  lemma JunkyLight(u: int, du: int)
    requires Light(JUNKY, 0, u, du)
    ensures u == 0 && du == 0
  {
    var p :| IsPathFromTo(JUNKY, 0, u, p) && Weight(JUNKY, p) == du;
    JunkyPath(p);
  }

  lemma JunkyHeavy(u: int)
    requires InRange(JUNKY, u) && u != 0
    ensures !LightlyReachable(JUNKY, 0, u) && LowerBound(JUNKY, 0, u, INFINITY)
  {
    forall p | IsPathFromTo(JUNKY, 0, u, p)
      ensures INFINITY <= Weight(JUNKY, p)
    {
      JunkyPath(p);
    }
  }

  lemma JunkyCounts(junk: int)
    requires InRange(JUNKY, junk)
    ensures JunkCounts(JUNKY, 0, junk, 2) <==> junk == 1
  {
    forall u | InRange(JUNKY, u) && u != 0
      ensures !LightlyReachable(JUNKY, 0, u)
    {
      JunkyHeavy(u);
    }
  }

  lemma JunkyOffer(junk: int, x: int)
    requires InRange(JUNKY, junk)
    ensures Offer(JUNKY, 0, junk, 2, x) <==> x == 20000 || (junk == 1 && x == 10000)
  {
    JunkyCounts(junk);
    StartIsLight(JUNKY, 0);
    assert Cost(JUNKY, 0, 2) == 20000 && Cost(JUNKY, 1, 2) == 1;
    forall u, du | Light(JUNKY, 0, u, du)
      ensures u == 0 && du == 0
    {
      JunkyLight(u, du);
    }
  }

  // When the start reaches nothing lightly the report depends on what nextnode happened to hold:
  // with 1 in it, node 2 is printed at 10000 by way of the unreachable node 1, otherwise at 20000.
  lemma ReportDependsOnJunk(junk: int, l: Line)
    requires InRange(JUNKY, junk) && CorrectLine(JUNKY, 0, junk, l) && l.node == 2
    ensures l.dist == (if junk == 1 then 10000 else 20000) && l.path == (if junk == 1 then [2, 1, 0] else [2, 0])
    ensures IsDistance(JUNKY, 0, 2, 20000) && !Reachable(JUNKY, 0, 1)
  {
    JunkyDistances();
    JunkyEntry(junk, l.dist);
    JunkyWalk(junk, l.dist, l.path);
  }

  lemma JunkyDistances()
    ensures IsDistance(JUNKY, 0, 2, 20000) && !Reachable(JUNKY, 0, 1)
  {
    assert IsPathFromTo(JUNKY, 0, 2, [0, 2]);
    JunkyPath([0, 2]);
    forall p | IsPath(JUNKY, p) && p[0] == 0
      ensures p == [0] || (p == [0, 2] && Weight(JUNKY, p) == 20000)
    {
      JunkyPath(p);
    }
  }

  lemma JunkyEntry(junk: int, d: int)
    requires InRange(JUNKY, junk) && CorrectEntry(JUNKY, 0, junk, 2, d)
    ensures d == if junk == 1 then 10000 else 20000
  {
    JunkyDistances();
    JunkyOffer(junk, d);
    JunkyOffer(junk, 10000);
  }

  lemma JunkyWalk(junk: int, d: int, w: seq<int>)
    requires InRange(JUNKY, junk) && |w| >= 2 && w[0] == 2 && InRange(JUNKY, w[1])
    requires CorrectWalk(JUNKY, 0, junk, d, w) && d == if junk == 1 then 10000 else 20000
    ensures w == if junk == 1 then [2, 1, 0] else [2, 0]
  {
    JunkyCounts(junk);
    if junk != 1 {
      var q := HopWalk(JUNKY, 0, junk, d, w);
      JunkyPath(q);
    } else if w != [2, 1, 0] {
      var q := Reverse(w[1..]);
      JunkyPath(q);
      assert false;
    }
  }
}
