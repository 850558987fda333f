/** The tables of the shortest-path loop: what they hold while nodes are being settled, and what
    one round of the loop does to them. Line numbers refer to the file `Dijikstra algorihm`. */
module Settling {
  import opened Basics
  import opened Graphs

  // The nodes settled so far, in the order in which they were settled.
  ghost predicate Distinct(g: Graph, s: int, order: seq<int>) {
    && |order| >= 1 && order[0] == s
    && (forall u | u in order :: InRange(g, u))
    && (forall a, b | 0 <= a < b < |order| :: order[a] != order[b])
  }

  // Settled entries are below INFINITY and bound every path from below.
  ghost predicate Exact(g: Graph, s: int, d: seq<int>, order: seq<int>)
    requires Square(g) && |d| == |g|
  {
    forall u | InRange(g, u) && u in order :: 0 <= d[u] < INFINITY && LowerBound(g, s, u, d[u])
  }

  // Unsettled entries are no smaller than settled ones, and relaxed over all edges from them.
  ghost predicate Frontier(g: Graph, d: seq<int>, order: seq<int>)
    requires Square(g) && |d| == |g|
  {
    forall u, i | InRange(g, u) && u in order && InRange(g, i) && i !in order ::
      d[u] <= d[i] <= d[u] + Cost(g, u, i)
  }

  ghost predicate NonDecreasing(g: Graph, d: seq<int>, order: seq<int>)
    requires |d| == |g|
  {
    forall a, b | 0 <= a < b < |order| && InRange(g, order[a]) && InRange(g, order[b]) :: d[order[a]] <= d[order[b]]
  }

  // A node below INFINITY hangs by a real edge below a settled node.
  ghost predicate HangsAt(g: Graph, d: seq<int>, p: seq<int>, order: seq<int>, i: int)
    requires Square(g) && |d| == |p| == |g| && InRange(g, i)
  {
    InRange(g, p[i]) && p[i] in order && g[p[i]][i] != 0 && d[i] == d[p[i]] + g[p[i]][i]
  }

  ghost predicate InTree(g: Graph, s: int, d: seq<int>, p: seq<int>, order: seq<int>)
    requires Square(g) && |d| == |p| == |g|
  {
    forall i {:trigger HangsAt(g, d, p, order, i)} | InRange(g, i) && i != s && d[i] < INFINITY ::
      HangsAt(g, d, p, order, i)
  }

  // What the tables hold once the nodes of `order` have been settled, in that order.
  ghost predicate Settled(g: Graph, s: int, d: seq<int>, p: seq<int>, order: seq<int>)
    requires Square(g)
  {
    && |d| == |p| == |g| && InRange(g, s) && d[s] == 0
    && Distinct(g, s, order)
    && Exact(g, s, d, order)
    && Frontier(g, d, order)
    && NonDecreasing(g, d, order)
    && InTree(g, s, d, p, order)
  }

  // Every predecessor is in the chain, and predecessors of its members come earlier in it.
  ghost predicate PredChain(g: Graph, s: int, p: seq<int>, chain: seq<int>) {
    && |p| == |g|
    && Distinct(g, s, chain)
    && (forall i | InRange(g, i) && i != s :: p[i] in chain)
    && (forall b | 0 < b < |chain| :: EarlierInChain(p, chain, b))
  }

  ghost predicate EarlierInChain(p: seq<int>, chain: seq<int>, b: int)
    requires 0 < b < |chain|
  {
    0 <= chain[b] < |p| && p[chain[b]] in chain[..b]
  }

  ghost predicate RelaxedAt(g: Graph, visited: seq<bool>, v: int, m: int,
                            d0: seq<int>, p0: seq<int>, d1: seq<int>, p1: seq<int>, i: int)
    requires Square(g) && InRange(g, v) && InRange(g, i)
    requires |visited| == |d0| == |p0| == |d1| == |p1| == |g|
  {
    if !visited[i] && m + Cost(g, v, i) < d0[i]
    then d1[i] == m + Cost(g, v, i) && p1[i] == v
    else d1[i] == d0[i] && p1[i] == p0[i]
  }

  // One pass of the relaxation loop from node v at distance m.
  ghost predicate Relaxed(g: Graph, visited: seq<bool>, v: int, m: int,
                          d0: seq<int>, p0: seq<int>, d1: seq<int>, p1: seq<int>)
    requires Square(g) && InRange(g, v)
  {
    && |visited| == |d0| == |p0| == |d1| == |p1| == |g|
    && forall i | InRange(g, i) :: RelaxedAt(g, visited, v, m, d0, p0, d1, p1, i)
  }

  ghost predicate MarksExactly(visited: seq<bool>, chain: seq<int>) {
    forall i | 0 <= i < |visited| :: visited[i] <==> i in chain
  }

  // The tables before the first round.
  lemma InitiallySettled(g: Graph, s: int, d: seq<int>, p: seq<int>)
    requires IsGraph(g) && InRange(g, s) && |d| == |p| == |g|
    requires forall i | InRange(g, i) :: d[i] == (if i == s then 0 else Cost(g, s, i)) && p[i] == s
    ensures Settled(g, s, d, p, [s]) && PredChain(g, s, p, [s])
  {
    forall q | IsPathFromTo(g, s, s, q)
      ensures 0 <= Weight(g, q)
    {
      WeightNonNegative(g, q);
    }
    assert LowerBound(g, s, s, 0);
  }

  // Entries of the new table never exceed the old ones.
  lemma NeverRaised(g: Graph, visited: seq<bool>, v: int, m: int,
                    d0: seq<int>, p0: seq<int>, d1: seq<int>, p1: seq<int>)
    requires Square(g) && InRange(g, v) && Relaxed(g, visited, v, m, d0, p0, d1, p1)
    ensures forall i | InRange(g, i) :: d1[i] <= d0[i]
    ensures forall i | InRange(g, i) && visited[i] :: d1[i] == d0[i] && p1[i] == p0[i]
    ensures forall i | InRange(g, i) && !visited[i] :: d1[i] <= m + Cost(g, v, i)
    ensures forall i | InRange(g, i) :: (d1[i] == d0[i] && p1[i] == p0[i]) || (d1[i] == m + Cost(g, v, i) && p1[i] == v)
  {
    assert forall i | InRange(g, i) :: RelaxedAt(g, visited, v, m, d0, p0, d1, p1, i);
  }

  // The selected node is exact: no path can undercut the least unsettled entry.
  lemma SelectedIsExact(g: Graph, s: int, order: seq<int>, d: seq<int>, p: seq<int>, v: int)
    requires IsGraph(g) && Settled(g, s, d, p, order)
    requires InRange(g, v) && v !in order
    requires forall i | InRange(g, i) && i !in order :: d[v] <= d[i]
    ensures 0 <= d[v] && LowerBound(g, s, v, d[v])
  {
    assert s in order;
    forall q | IsPathFromTo(g, s, v, q)
      ensures d[v] <= Weight(g, q)
    {
      var y := CrossingBound(g, s, order, d, q);
    }
  }

  lemma FrontierKept(g: Graph, order: seq<int>, visited: seq<bool>, v: int,
                     d0: seq<int>, p0: seq<int>, d1: seq<int>, p1: seq<int>)
    requires IsGraph(g) && |d0| == |g| && Frontier(g, d0, order)
    requires InRange(g, v) && v !in order
    requires forall i | InRange(g, i) && i !in order :: d0[v] <= d0[i]
    requires |visited| == |g| && MarksExactly(visited, order + [v])
    requires Relaxed(g, visited, v, d0[v], d0, p0, d1, p1)
    ensures Frontier(g, d1, order + [v])
  {
    NeverRaised(g, visited, v, d0[v], d0, p0, d1, p1);
    forall u, i | InRange(g, u) && u in order + [v] && InRange(g, i) && i !in order + [v]
      ensures d1[u] <= d1[i] <= d1[u] + Cost(g, u, i)
    {
      assert visited[u] && !visited[i] && i !in order;
      assert d1[i] == d0[i] || d1[i] == d0[v] + Cost(g, v, i);
      assert 0 <= Cost(g, v, i);
      if u != v {
        assert u in order;
        assert d0[u] <= d0[i] && d0[u] <= d0[v];
      }
    }
  }

  lemma TreeKept(g: Graph, s: int, order: seq<int>, visited: seq<bool>, v: int,
                 d0: seq<int>, p0: seq<int>, d1: seq<int>, p1: seq<int>)
    requires IsGraph(g) && |d0| == |p0| == |g| && InTree(g, s, d0, p0, order)
    requires InRange(g, v) && 0 <= d0[v]
    requires |visited| == |g| && MarksExactly(visited, order + [v])
    requires Relaxed(g, visited, v, d0[v], d0, p0, d1, p1)
    ensures InTree(g, s, d1, p1, order + [v])
  {
    NeverRaised(g, visited, v, d0[v], d0, p0, d1, p1);
    forall i | InRange(g, i) && i != s && d1[i] < INFINITY
      ensures HangsAt(g, d1, p1, order + [v], i)
    {
      assert visited[v] by { assert v in order + [v]; }
      if d1[i] == d0[i] && p1[i] == p0[i] {
        assert HangsAt(g, d0, p0, order, i);
        assert p0[i] in order + [v];
      }
    }
  }

  lemma ChainGrows(g: Graph, s: int, chain: seq<int>, x: int, p0: seq<int>, p1: seq<int>)
    requires PredChain(g, s, p0, chain) && InRange(g, x) && x !in chain && |p1| == |g|
    requires forall i | InRange(g, i) :: p1[i] == p0[i] || (p1[i] == x && i !in chain && i != x)
    ensures PredChain(g, s, p1, chain + [x])
  {
    var chain' := chain + [x];
    assert chain[0] == s;
    forall b | 0 < b < |chain'|
      ensures EarlierInChain(p1, chain', b)
    {
      if b < |chain| {
        assert EarlierInChain(p0, chain, b) && chain[b] in chain;
        assert chain'[..b] == chain[..b];
      } else {
        assert chain'[..b] == chain;
      }
    }
  }

  // A round that selects v keeps the tables settled, with v settled too.
  lemma SelectingRound(g: Graph, s: int, order: seq<int>, visited: seq<bool>, v: int,
                       d0: seq<int>, p0: seq<int>, d1: seq<int>, p1: seq<int>)
    requires IsGraph(g) && Settled(g, s, d0, p0, order) && PredChain(g, s, p0, order)
    requires InRange(g, v) && v !in order && d0[v] < INFINITY
    requires forall i | InRange(g, i) && i !in order :: d0[v] <= d0[i]
    requires |visited| == |g| && MarksExactly(visited, order + [v])
    requires Relaxed(g, visited, v, d0[v], d0, p0, d1, p1)
    ensures Settled(g, s, d1, p1, order + [v]) && PredChain(g, s, p1, order + [v])
    ensures forall u | InRange(g, u) && u in order + [v] :: d1[u] == d0[u]
  {
    var order' := order + [v];
    assert forall u | InRange(g, u) && u in order' :: d1[u] == d0[u] by {
      NeverRaised(g, visited, v, d0[v], d0, p0, d1, p1);
      assert forall u | InRange(g, u) && u in order' :: visited[u];
    }
    assert s in order;
    assert Exact(g, s, d1, order') by { SelectedIsExact(g, s, order, d0, p0, v); }
    assert Frontier(g, d1, order') by { FrontierKept(g, order, visited, v, d0, p0, d1, p1); }
    assert InTree(g, s, d1, p1, order') by {
      assert 0 <= d0[v];
      TreeKept(g, s, order, visited, v, d0, p0, d1, p1);
    }
    assert PredChain(g, s, p1, order') by { SelectedPreds(g, s, order, visited, v, d0, p0, d1, p1); }
    assert NonDecreasing(g, d1, order') by { OrderGrows(g, d0, d1, order, v); }
    assert d1[s] == 0 by { assert s in order'; }
  }

  lemma SelectedPreds(g: Graph, s: int, order: seq<int>, visited: seq<bool>, v: int,
                      d0: seq<int>, p0: seq<int>, d1: seq<int>, p1: seq<int>)
    requires IsGraph(g) && PredChain(g, s, p0, order)
    requires InRange(g, v) && v !in order
    requires |visited| == |g| && |d0| == |g| && MarksExactly(visited, order + [v])
    requires Relaxed(g, visited, v, d0[v], d0, p0, d1, p1)
    ensures PredChain(g, s, p1, order + [v])
  {
    forall i | InRange(g, i)
      ensures p1[i] == p0[i] || (p1[i] == v && i !in order && i != v)
    {
      assert RelaxedAt(g, visited, v, d0[v], d0, p0, d1, p1, i);
    }
    ChainGrows(g, s, order, v, p0, p1);
  }

  lemma OrderGrows(g: Graph, d0: seq<int>, d1: seq<int>, order: seq<int>, v: int)
    requires Square(g) && |d0| == |d1| == |g| && Frontier(g, d0, order) && NonDecreasing(g, d0, order)
    requires InRange(g, v) && v !in order
    requires forall u | InRange(g, u) && u in order + [v] :: d1[u] == d0[u]
    ensures NonDecreasing(g, d1, order + [v])
  {
    var order' := order + [v];
    forall a, b | 0 <= a < b < |order'| && InRange(g, order'[a]) && InRange(g, order'[b])
      ensures d1[order'[a]] <= d1[order'[b]]
    {
      assert order'[a] in order' && order'[b] in order' && order[a] in order;
    }
  }

  // A round that selects nothing runs on a stale node x. It keeps everything settled and
  // touches no entry at or below INFINITY.
  lemma IdleRound(g: Graph, s: int, order: seq<int>, chain: seq<int>, visited: seq<bool>, x: int,
                  d0: seq<int>, p0: seq<int>, d1: seq<int>, p1: seq<int>)
    returns (chain': seq<int>)
    requires IsGraph(g) && Settled(g, s, d0, p0, order) && PredChain(g, s, p0, chain)
    requires order <= chain && InRange(g, x)
    requires forall i | InRange(g, i) && i !in order :: INFINITY <= d0[i]
    requires |visited| == |g| && forall i | 0 <= i < |g| :: visited[i] <==> i in chain || i == x
    requires Relaxed(g, visited, x, INFINITY, d0, p0, d1, p1)
    ensures Settled(g, s, d1, p1, order) && PredChain(g, s, p1, chain')
    ensures order <= chain' && |chain'| <= |chain| + 1 && MarksExactly(visited, chain')
    ensures forall i | InRange(g, i) && i !in order :: INFINITY <= d1[i]
    ensures forall i | InRange(g, i) && d0[i] <= INFINITY :: d1[i] == d0[i]
  {
    chain' := if x in chain then chain else chain + [x];
    IdleEntries(g, visited, x, d0, p0, d1, p1);
    NeverRaised(g, visited, x, INFINITY, d0, p0, d1, p1);
    IdleSettled(g, s, order, d0, p0, d1, p1);
    IdlePreds(g, s, chain, visited, x, d0, p0, d1, p1);
  }

  // Tables that agree on every entry up to INFINITY, and are otherwise only lowered, are settled
  // together.
  lemma IdleSettled(g: Graph, s: int, order: seq<int>, d0: seq<int>, p0: seq<int>, d1: seq<int>, p1: seq<int>)
    requires IsGraph(g) && Settled(g, s, d0, p0, order) && |d1| == |p1| == |g|
    requires forall i | InRange(g, i) && d0[i] <= INFINITY :: d1[i] == d0[i] && p1[i] == p0[i]
    requires forall i | InRange(g, i) && INFINITY <= d0[i] :: INFINITY <= d1[i]
    requires forall i | InRange(g, i) :: d1[i] <= d0[i]
    ensures Settled(g, s, d1, p1, order)
  {
    assert forall u | InRange(g, u) && u in order :: d0[u] < INFINITY && d1[u] == d0[u];
    assert Exact(g, s, d1, order);
    assert Frontier(g, d1, order) by {
      forall u, i | InRange(g, u) && u in order && InRange(g, i) && i !in order
        ensures d1[u] <= d1[i] <= d1[u] + Cost(g, u, i)
      {
        assert d0[u] <= d0[i] <= d0[u] + Cost(g, u, i);
      }
    }
    assert NonDecreasing(g, d1, order) by {
      assert forall k | 0 <= k < |order| :: order[k] in order;
    }
    assert InTree(g, s, d1, p1, order) by {
      forall i | InRange(g, i) && i != s && d1[i] < INFINITY
        ensures HangsAt(g, d1, p1, order, i)
      {
        assert HangsAt(g, d0, p0, order, i);
      }
    }
  }

  lemma IdleEntries(g: Graph, visited: seq<bool>, x: int,
                    d0: seq<int>, p0: seq<int>, d1: seq<int>, p1: seq<int>)
    requires IsGraph(g) && InRange(g, x) && Relaxed(g, visited, x, INFINITY, d0, p0, d1, p1)
    ensures forall i | InRange(g, i) && d0[i] <= INFINITY :: d1[i] == d0[i] && p1[i] == p0[i]
    ensures forall i | InRange(g, i) && INFINITY <= d0[i] :: INFINITY <= d1[i]
  {
    forall i | InRange(g, i)
      ensures d0[i] <= INFINITY ==> d1[i] == d0[i] && p1[i] == p0[i]
      ensures INFINITY <= d0[i] ==> INFINITY <= d1[i]
    {
      assert RelaxedAt(g, visited, x, INFINITY, d0, p0, d1, p1, i) && 0 <= Cost(g, x, i);
    }
  }

  lemma IdlePreds(g: Graph, s: int, chain: seq<int>, visited: seq<bool>, x: int,
                  d0: seq<int>, p0: seq<int>, d1: seq<int>, p1: seq<int>)
    requires IsGraph(g) && PredChain(g, s, p0, chain) && InRange(g, x)
    requires |visited| == |g| && forall i | 0 <= i < |g| :: visited[i] <==> i in chain || i == x
    requires Relaxed(g, visited, x, INFINITY, d0, p0, d1, p1)
    ensures PredChain(g, s, p1, if x in chain then chain else chain + [x])
  {
    forall i | InRange(g, i)
      ensures p1[i] == p0[i] || (p1[i] == x && i !in chain && i != x)
    {
      assert RelaxedAt(g, visited, x, INFINITY, d0, p0, d1, p1, i);
    }
    if x !in chain {
      ChainGrows(g, s, chain, x, p0, p1);
    } else {
      forall b | 0 < b < |chain|
        ensures EarlierInChain(p1, chain, b)
      {
        assert EarlierInChain(p0, chain, b) && chain[b] in chain;
      }
    }
  }

  // An unsettled entry, capped at INFINITY, is a lower bound too, once it is the only one
  // left or no unsettled entry is below INFINITY.
  lemma UnsettledBound(g: Graph, s: int, d: seq<int>, p: seq<int>, order: seq<int>, i: int)
    requires IsGraph(g) && Settled(g, s, d, p, order) && InRange(g, i) && i !in order
    requires || (forall j | InRange(g, j) && j !in order :: j == i)
             || (forall j | InRange(g, j) && j !in order :: INFINITY <= d[j])
    ensures LowerBound(g, s, i, if d[i] < INFINITY then d[i] else INFINITY)
  {
    forall q | IsPathFromTo(g, s, i, q)
      ensures (if d[i] < INFINITY then d[i] else INFINITY) <= Weight(g, q)
    {
      assert order[0] == s;
      var y := CrossingBound(g, s, order, d, q);
    }
  }

  // No unsettled node is below INFINITY, so every further round selects nothing.
  ghost predicate Exhausted(g: Graph, d: seq<int>, order: seq<int>)
    requires |d| == |g|
  {
    forall i | InRange(g, i) && i !in order :: INFINITY <= d[i]
  }

  // The settled nodes still carry the distances at which they were selected.
  ghost predicate Unchanged(g: Graph, d: seq<int>, order: seq<int>, settledAt: seq<int>)
    requires |d| == |g|
  {
    && |settledAt| == |order|
    && forall k | 0 <= k < |order| && InRange(g, order[k]) :: d[order[k]] == settledAt[k]
  }

  // What holds at the head of the outer loop after `count` nodes were counted.
  ghost predicate AtRound(g: Graph, s: int, d: seq<int>, p: seq<int>, visited: seq<bool>,
                          order: seq<int>, chain: seq<int>, settledAt: seq<int>, count: int)
    requires Square(g)
  {
    && Settled(g, s, d, p, order) && PredChain(g, s, p, chain)
    && order <= chain && |chain| <= count
    && |visited| == |g| && MarksExactly(visited, chain)
    && Unchanged(g, d, order, settledAt)
    && (Exhausted(g, d, order) || (chain == order && |order| == count))
  }

  // The outcome of the selection loop: nothing is below INFINITY, or v is the nearest.
  ghost predicate Selected(g: Graph, d: seq<int>, visited: seq<bool>, m: int, v: int)
    requires |d| == |visited| == |g|
  {
    && InRange(g, v)
    && (forall i | InRange(g, i) && !visited[i] :: m <= d[i])
    && (m == INFINITY || (m < INFINITY && !visited[v] && d[v] == m))
  }

  // One round of the outer loop that found a node below INFINITY.
  lemma NearestRound(g: Graph, s: int, visited: seq<bool>, order: seq<int>, chain: seq<int>, settledAt: seq<int>,
                     count: int, v: int, d0: seq<int>, p0: seq<int>, d1: seq<int>, p1: seq<int>)
    requires IsGraph(g) && AtRound(g, s, d0, p0, visited, order, chain, settledAt, count)
    requires InRange(g, v) && d0[v] < INFINITY && Selected(g, d0, visited, d0[v], v)
    requires Relaxed(g, visited[v := true], v, d0[v], d0, p0, d1, p1)
    ensures AtRound(g, s, d1, p1, visited[v := true], order + [v], order + [v], settledAt + [d0[v]], count + 1)
  {
    assert v !in order by { assert order <= chain; assert MarksExactly(visited, chain); }
    assert chain == order;
    SelectingRound(g, s, order, visited[v := true], v, d0, p0, d1, p1);
    UnchangedGrows(g, d0, d1, order, settledAt, v);
  }

  lemma UnchangedGrows(g: Graph, d0: seq<int>, d1: seq<int>, order: seq<int>, settledAt: seq<int>, v: int)
    requires |d0| == |d1| == |g| && Unchanged(g, d0, order, settledAt) && InRange(g, v)
    requires forall u | InRange(g, u) && u in order + [v] :: d1[u] == d0[u]
    ensures Unchanged(g, d1, order + [v], settledAt + [d0[v]])
  {
    var order' := order + [v];
    assert forall k | 0 <= k < |order'| :: order'[k] in order';
  }

  // One round of the outer loop.
  lemma Round(g: Graph, s: int, visited: seq<bool>, order: seq<int>, chain: seq<int>, settledAt: seq<int>,
              count: int, m: int, v: int, d0: seq<int>, p0: seq<int>, d1: seq<int>, p1: seq<int>)
    returns (order': seq<int>, chain': seq<int>, settledAt': seq<int>)
    requires IsGraph(g) && AtRound(g, s, d0, p0, visited, order, chain, settledAt, count)
    requires Selected(g, d0, visited, m, v)
    requires Relaxed(g, visited[v := true], v, m, d0, p0, d1, p1)
    ensures AtRound(g, s, d1, p1, visited[v := true], order', chain', settledAt', count + 1)
    ensures order <= order' && settledAt <= settledAt'
    ensures order' == if m < INFINITY then order + [v] else order
  {
    if m < INFINITY {
      order', chain', settledAt' := order + [v], order + [v], settledAt + [m];
      NearestRound(g, s, visited, order, chain, settledAt, count, v, d0, p0, d1, p1);
    } else {
      order', settledAt' := order, settledAt;
      assert Exhausted(g, d0, order);
      chain' := IdleRound(g, s, order, chain, visited[v := true], v, d0, p0, d1, p1);
      assert Unchanged(g, d1, order', settledAt') by {
        assert forall k | 0 <= k < |order| :: order[k] in order;
      }
    }
  }

  lemma UnvisitedNotNegative(g: Graph, s: int, d: seq<int>, visited: seq<bool>, order: seq<int>, chain: seq<int>)
    requires Square(g) && |d| == |visited| == |g| && InRange(g, s) && d[s] == 0
    requires Distinct(g, s, order) && Frontier(g, d, order) && order <= chain && MarksExactly(visited, chain)
    ensures forall i | InRange(g, i) && !visited[i] :: 0 <= d[i]
  {
    assert order[0] == s && s in order;
    assert forall u | u in order :: u in chain;
  }

  // ---- entries at or above INFINITY ----

  // Entry i is the cost of its last hop on top of a settled entry; at or above INFINITY the hop
  // may be a heavy edge, or no edge at all.
  ghost predicate HangsBy(g: Graph, d: seq<int>, p: seq<int>, order: seq<int>, i: int)
    requires Square(g) && |d| == |p| == |g| && InRange(g, i)
  {
    InRange(g, p[i]) && p[i] in order && d[i] == d[p[i]] + Cost(g, p[i], i)
  }

  ghost predicate ByRelaxation(g: Graph, s: int, d: seq<int>, p: seq<int>, order: seq<int>)
    requires Square(g) && |d| == |p| == |g|
  {
    forall i {:trigger HangsBy(g, d, p, order, i)} | InRange(g, i) && i != s :: HangsBy(g, d, p, order, i)
  }

  // If no round ever selected a node, the first idle round relaxed from the initial value `junk`
  // of nextnode, at distance INFINITY.
  ghost predicate StaleAt(g: Graph, s: int, junk: int, d: seq<int>, p: seq<int>, i: int)
    requires Square(g) && |d| == |p| == |g| && InRange(g, i) && InRange(g, s) && InRange(g, junk)
  {
    if i != junk && INFINITY + Cost(g, junk, i) < Cost(g, s, i)
    then p[i] == junk && d[i] == INFINITY + Cost(g, junk, i)
    else p[i] == s && d[i] == Cost(g, s, i)
  }

  ghost predicate StaleEntries(g: Graph, s: int, junk: int, d: seq<int>, p: seq<int>)
    requires Square(g) && |d| == |p| == |g| && InRange(g, s) && InRange(g, junk)
  {
    forall i {:trigger StaleAt(g, s, junk, d, p, i)} | InRange(g, i) && i != s :: StaleAt(g, s, junk, d, p, i)
  }

  // How every entry came about, after `count` nodes were counted.
  ghost predicate Entries(g: Graph, s: int, junk: int, d: seq<int>, p: seq<int>, order: seq<int>, count: int)
    requires Square(g) && |d| == |p| == |g| && InRange(g, s) && InRange(g, junk)
  {
    if order == [s] && count >= 2 && junk != s then StaleEntries(g, s, junk, d, p)
    else ByRelaxation(g, s, d, p, order)
  }

  // What the variable nextnode holds between rounds.
  ghost predicate StaleNode(s: int, junk: int, order: seq<int>, x: int) {
    if order == [s] then x == junk else x in order
  }

  lemma ByRelaxationGrows(g: Graph, s: int, order: seq<int>, visited: seq<bool>, v: int,
                          d0: seq<int>, p0: seq<int>, d1: seq<int>, p1: seq<int>)
    requires Square(g) && |d0| == |p0| == |g| && ByRelaxation(g, s, d0, p0, order)
    requires InRange(g, v) && |visited| == |g| && MarksExactly(visited, order + [v])
    requires Relaxed(g, visited, v, d0[v], d0, p0, d1, p1)
    ensures ByRelaxation(g, s, d1, p1, order + [v])
  {
    NeverRaised(g, visited, v, d0[v], d0, p0, d1, p1);
    assert visited[v] by { assert v in order + [v]; }
    forall i | InRange(g, i) && i != s
      ensures HangsBy(g, d1, p1, order + [v], i)
    {
      if d1[i] == d0[i] && p1[i] == p0[i] {
        assert HangsBy(g, d0, p0, order, i);
        assert p0[i] in order + [v];
      }
    }
  }

  // An idle round on a settled node changes nothing at all.
  lemma IdleOnSettled(g: Graph, order: seq<int>, visited: seq<bool>, x: int,
                      d0: seq<int>, p0: seq<int>, d1: seq<int>, p1: seq<int>)
    requires Square(g) && |d0| == |p0| == |g| && Frontier(g, d0, order)
    requires InRange(g, x) && x in order && d0[x] < INFINITY
    requires |visited| == |g| && forall u | InRange(g, u) && u in order :: visited[u]
    requires Relaxed(g, visited, x, INFINITY, d0, p0, d1, p1)
    ensures d1 == d0 && p1 == p0
  {
    forall i | InRange(g, i)
      ensures d1[i] == d0[i] && p1[i] == p0[i]
    {
      assert RelaxedAt(g, visited, x, INFINITY, d0, p0, d1, p1, i);
      if i !in order {
        assert d0[i] <= d0[x] + Cost(g, x, i);
      }
    }
  }

  // The first round was already idle: it relaxes from the initial value of nextnode.
  lemma FirstIdleOnJunk(g: Graph, s: int, junk: int, visited: seq<bool>,
                        d0: seq<int>, p0: seq<int>, d1: seq<int>, p1: seq<int>)
    requires Square(g) && |d0| == |p0| == |g| && InRange(g, s) && d0[s] == 0 && ByRelaxation(g, s, d0, p0, [s])
    requires InRange(g, junk) && junk != s
    requires |visited| == |g| && forall i | InRange(g, i) :: visited[i] <==> i == s || i == junk
    requires Relaxed(g, visited, junk, INFINITY, d0, p0, d1, p1)
    ensures StaleEntries(g, s, junk, d1, p1)
  {
    forall i | InRange(g, i) && i != s
      ensures StaleAt(g, s, junk, d1, p1, i)
    {
      assert HangsBy(g, d0, p0, [s], i);
      assert RelaxedAt(g, visited, junk, INFINITY, d0, p0, d1, p1, i);
    }
  }

  // Further idle rounds on it change nothing.
  lemma LaterIdleOnJunk(g: Graph, s: int, junk: int, visited: seq<bool>,
                        d0: seq<int>, p0: seq<int>, d1: seq<int>, p1: seq<int>)
    requires Square(g) && |d0| == |p0| == |g| && InRange(g, s) && InRange(g, junk) && StaleEntries(g, s, junk, d0, p0)
    requires |visited| == |g| && visited[s] && visited[junk]
    requires Relaxed(g, visited, junk, INFINITY, d0, p0, d1, p1)
    ensures d1 == d0 && p1 == p0
  {
    forall i | InRange(g, i)
      ensures d1[i] == d0[i] && p1[i] == p0[i]
    {
      assert RelaxedAt(g, visited, junk, INFINITY, d0, p0, d1, p1, i);
      assert i != s ==> StaleAt(g, s, junk, d0, p0, i);
    }
  }

  lemma EntriesNearest(g: Graph, s: int, junk: int, visited: seq<bool>,
                       order: seq<int>, chain: seq<int>, settledAt: seq<int>,
                       count: int, v: int, d0: seq<int>, p0: seq<int>, d1: seq<int>, p1: seq<int>)
    requires IsGraph(g) && InRange(g, junk) && AtRound(g, s, d0, p0, visited, order, chain, settledAt, count)
    requires Entries(g, s, junk, d0, p0, order, count)
    requires InRange(g, v) && d0[v] < INFINITY && Selected(g, d0, visited, d0[v], v)
    requires Relaxed(g, visited[v := true], v, d0[v], d0, p0, d1, p1)
    ensures Entries(g, s, junk, d1, p1, order + [v], count + 1) && StaleNode(s, junk, order + [v], v)
  {
    assert v !in order by { assert order <= chain; assert MarksExactly(visited, chain); }
    assert chain == order && |order| == count;
    ByRelaxationGrows(g, s, order, visited[v := true], v, d0, p0, d1, p1);
    assert |order + [v]| >= 2 && v in order + [v];
  }

  lemma EntriesIdle(g: Graph, s: int, junk: int, visited: seq<bool>,
                    order: seq<int>, chain: seq<int>, settledAt: seq<int>,
                    count: int, v: int, d0: seq<int>, p0: seq<int>, d1: seq<int>, p1: seq<int>)
    requires IsGraph(g) && InRange(g, junk) && AtRound(g, s, d0, p0, visited, order, chain, settledAt, count)
    requires count >= 1 && Entries(g, s, junk, d0, p0, order, count) && StaleNode(s, junk, order, v) && InRange(g, v)
    requires Relaxed(g, visited[v := true], v, INFINITY, d0, p0, d1, p1)
    ensures Entries(g, s, junk, d1, p1, order, count + 1)
  {
    assert forall u | InRange(g, u) && u in order :: visited[u] by {
      assert MarksExactly(visited, chain);
    }
    assert s in order;
    if v in order {
      IdleOnSettled(g, order, visited[v := true], v, d0, p0, d1, p1);
    } else if count == 1 {
      assert chain == [s];
      FirstIdleOnJunk(g, s, junk, visited[v := true], d0, p0, d1, p1);
    } else {
      LaterIdleOnJunk(g, s, junk, visited[v := true], d0, p0, d1, p1);
    }
  }
}
