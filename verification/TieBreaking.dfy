/** Which of several equally short ways the shortest-path loop takes: nodes are settled by distance and
    then by number, and each entry hangs below the first settled node that gives it its value. Line
    numbers refer to the file `Dijikstra algorihm`. */
module TieBreaking {
  import opened Graphs
  import opened Settling

  // u is nearer than v, or as near and of a lower number.
  predicate Before(d: seq<int>, u: int, v: int)
    requires 0 <= u < |d| && 0 <= v < |d|
  {
    d[u] < d[v] || (d[u] == d[v] && u < v)
  }

  // Settled nodes come before unsettled ones.
  ghost predicate InOrder(g: Graph, d: seq<int>, order: seq<int>)
    requires |d| == |g|
  {
    forall u, i | InRange(g, u) && u in order && InRange(g, i) && i !in order :: Before(d, u, i)
  }

  // Of the settled nodes that give entry i its value the predecessor is the first.
  ghost predicate FirstAt(g: Graph, d: seq<int>, p: seq<int>, order: seq<int>, i: int)
    requires Square(g) && |d| == |p| == |g| && InRange(g, i)
  {
    InRange(g, p[i]) && p[i] in order ==>
      forall u | InRange(g, u) && u in order && d[u] + Cost(g, u, i) == d[i] :: u == p[i] || Before(d, p[i], u)
  }

  ghost predicate FirstOnes(g: Graph, s: int, d: seq<int>, p: seq<int>, order: seq<int>)
    requires Square(g) && |d| == |p| == |g|
  {
    forall i {:trigger FirstAt(g, d, p, order, i)} | InRange(g, i) && i != s :: FirstAt(g, d, p, order, i)
  }

  ghost predicate Canonical(g: Graph, s: int, d: seq<int>, p: seq<int>, order: seq<int>)
    requires Square(g)
  {
    |d| == |p| == |g| && InOrder(g, d, order) && FirstOnes(g, s, d, p, order)
  }

  lemma InitiallyCanonical(g: Graph, s: int, d: seq<int>, p: seq<int>)
    requires IsGraph(g) && InRange(g, s) && |d| == |p| == |g|
    requires forall i | InRange(g, i) :: d[i] == (if i == s then 0 else Cost(g, s, i)) && p[i] == s
    ensures Canonical(g, s, d, p, [s])
  {
  }

  // The selected node is the first of the unsettled ones.
  ghost predicate FirstUnsettled(g: Graph, d: seq<int>, order: seq<int>, v: int)
    requires |d| == |g| && InRange(g, v)
  {
    v !in order && forall i | InRange(g, i) && i !in order && i != v :: Before(d, v, i)
  }

  lemma InOrderGrows(g: Graph, s: int, order: seq<int>, visited: seq<bool>, v: int,
                     d0: seq<int>, p0: seq<int>, d1: seq<int>, p1: seq<int>)
    requires IsGraph(g) && Settled(g, s, d0, p0, order) && InOrder(g, d0, order)
    requires InRange(g, v) && FirstUnsettled(g, d0, order, v)
    requires |visited| == |g| && MarksExactly(visited, order + [v])
    requires Relaxed(g, visited, v, d0[v], d0, p0, d1, p1)
    ensures InOrder(g, d1, order + [v])
  {
    var order' := order + [v];
    NeverRaised(g, visited, v, d0[v], d0, p0, d1, p1);
    forall u, i | InRange(g, u) && u in order' && InRange(g, i) && i !in order'
      ensures Before(d1, u, i)
    {
      assert visited[u] && i !in order && i != v;
      assert Before(d0, v, i);
      if u != v {
        assert u in order && Before(d0, u, v) && Before(d0, u, i);
      }
      assert Cost(g, v, i) > 0;
    }
  }

  lemma FirstKept(g: Graph, s: int, order: seq<int>, visited: seq<bool>, v: int, i: int,
                  d0: seq<int>, p0: seq<int>, d1: seq<int>, p1: seq<int>)
    requires IsGraph(g) && Settled(g, s, d0, p0, order) && InOrder(g, d0, order)
    requires InRange(g, v) && v !in order && InRange(g, i) && FirstAt(g, d0, p0, order, i) && p0[i] in order
    requires |visited| == |g| && MarksExactly(visited, order + [v])
    requires Relaxed(g, visited, v, d0[v], d0, p0, d1, p1)
    ensures FirstAt(g, d1, p1, order + [v], i)
  {
    var order' := order + [v];
    NeverRaised(g, visited, v, d0[v], d0, p0, d1, p1);
    assert InRange(g, p0[i]);
    forall u | InRange(g, u) && u in order' && d1[u] + Cost(g, u, i) == d1[i]
      ensures u == p1[i] || Before(d1, p1[i], u)
    {
      assert visited[u] && visited[v] by { assert v in order'; }
      if p1[i] == v && d1[i] < d0[i] {
        if u != v {
          assert false;
        }
      } else {
        assert RelaxedAt(g, visited, v, d0[v], d0, p0, d1, p1, i);
        assert visited[p0[i]] by { assert p0[i] in order'; }
        if u == v {
          assert Before(d0, p0[i], v);
        }
      }
    }
  }

  // A round that selects the first unsettled node.
  lemma SelectingIsCanonical(g: Graph, s: int, order: seq<int>, visited: seq<bool>, v: int,
                             d0: seq<int>, p0: seq<int>, d1: seq<int>, p1: seq<int>)
    requires IsGraph(g) && Settled(g, s, d0, p0, order) && Canonical(g, s, d0, p0, order)
    requires forall i | InRange(g, i) && i != s :: p0[i] in order
    requires InRange(g, v) && FirstUnsettled(g, d0, order, v)
    requires |visited| == |g| && MarksExactly(visited, order + [v])
    requires Relaxed(g, visited, v, d0[v], d0, p0, d1, p1)
    ensures Canonical(g, s, d1, p1, order + [v])
  {
    InOrderGrows(g, s, order, visited, v, d0, p0, d1, p1);
    forall i | InRange(g, i) && i != s
      ensures FirstAt(g, d1, p1, order + [v], i)
    {
      FirstKept(g, s, order, visited, v, i, d0, p0, d1, p1);
    }
  }

  // An idle round alters no entry that hangs below a settled node.
  lemma IdleIsCanonical(g: Graph, s: int, order: seq<int>, visited: seq<bool>, x: int,
                        d0: seq<int>, p0: seq<int>, d1: seq<int>, p1: seq<int>)
    requires IsGraph(g) && Settled(g, s, d0, p0, order) && Canonical(g, s, d0, p0, order)
    requires InRange(g, x) && |visited| == |g| && forall u | InRange(g, u) && u in order :: visited[u]
    requires Relaxed(g, visited, x, INFINITY, d0, p0, d1, p1)
    ensures Canonical(g, s, d1, p1, order)
  {
    NeverRaised(g, visited, x, INFINITY, d0, p0, d1, p1);
    if x in order {
      IdleOnSettled(g, order, visited, x, d0, p0, d1, p1);
    } else {
      forall i | InRange(g, i) && i != s
        ensures FirstAt(g, d1, p1, order, i)
      {
        assert FirstAt(g, d0, p0, order, i);
      }
    }
  }
}
