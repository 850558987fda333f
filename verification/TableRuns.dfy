/** The tables of the shortest-path loop as functions of the input, round by round, and when the
    sums behind them stay within the range of an int. Line numbers refer to the file
    `Dijikstra algorihm`. */
module TableRuns {
  import opened Basics
  import opened Graphs
  import opened Settling
  import opened TieBreaking

  const INT_MAX := 0x7fff_ffff

  // The three arrays, and the variable nextnode.
  datatype Tables = Tables(d: seq<int>, p: seq<int>, visited: seq<bool>, next: int)

  predicate IsTables(g: Graph, t: Tables) {
    |t.d| == |t.p| == |t.visited| == |g| && InRange(g, t.next)
  }

  // The selection loop after n entries (lines 56-64): mindistance and nextnode.
  function Nearest(d: seq<int>, visited: seq<bool>, stale: int, n: nat): (int, int)
    requires n <= |d| == |visited|
  {
    if n == 0 then (INFINITY, stale)
    else
      var (m, v) := Nearest(d, visited, stale, n - 1);
      if d[n - 1] < m && !visited[n - 1] then (d[n - 1], n - 1) else (m, v)
  }

  lemma {:induction false} NearestBounds(d: seq<int>, visited: seq<bool>, stale: int, n: nat)
    requires n <= |d| == |visited| && 0 <= stale < |d|
    ensures var (m, v) := Nearest(d, visited, stale, n); m <= INFINITY && 0 <= v < |d|
  {
    if n > 0 {
      NearestBounds(d, visited, stale, n - 1);
    }
  }

  // Lines 43-52, for the first n nodes.
  function FirstDistances(g: Graph, s: int, n: nat): (r: seq<int>)
    requires Square(g) && InRange(g, s) && n <= |g|
    ensures |r| == n
  {
    if n == 0 then [] else FirstDistances(g, s, n - 1) + [if n - 1 == s then 0 else Cost(g, s, n - 1)]
  }

  function Repeat(s: int, n: nat): (r: seq<int>)
    ensures |r| == n
  {
    if n == 0 then [] else Repeat(s, n - 1) + [s]
  }

  function Mark(s: int, n: nat): (r: seq<bool>)
    ensures |r| == n
  {
    if n == 0 then [] else Mark(s, n - 1) + [n - 1 == s]
  }

  function Begin(g: Graph, s: int, junk: int): (t: Tables)
    requires Square(g) && InRange(g, s) && InRange(g, junk)
    ensures IsTables(g, t)
  {
    Tables(FirstDistances(g, s, |g|), Repeat(s, |g|), Mark(s, |g|), junk)
  }

  // The relaxation loop after n entries (lines 68-74).
  function Distances(g: Graph, visited: seq<bool>, v: int, m: int, d: seq<int>, n: nat): (r: seq<int>)
    requires Square(g) && InRange(g, v) && n <= |visited| == |d| == |g|
    ensures |r| == n
  {
    if n == 0 then []
    else
      var i := n - 1;
      Distances(g, visited, v, m, d, i) + [if !visited[i] && m + Cost(g, v, i) < d[i] then m + Cost(g, v, i) else d[i]]
  }

  function Predecessors(g: Graph, visited: seq<bool>, v: int, m: int, d: seq<int>, p: seq<int>, n: nat): (r: seq<int>)
    requires Square(g) && InRange(g, v) && n <= |visited| == |d| == |p| == |g|
    ensures |r| == n
  {
    if n == 0 then []
    else
      var i := n - 1;
      Predecessors(g, visited, v, m, d, p, i) + [if !visited[i] && m + Cost(g, v, i) < d[i] then v else p[i]]
  }

  // One pass of the outer loop (lines 56-74).
  function Next(g: Graph, t: Tables): (r: Tables)
    requires Square(g) && IsTables(g, t)
    ensures IsTables(g, r)
  {
    NearestBounds(t.d, t.visited, t.next, |g|);
    var (m, v) := Nearest(t.d, t.visited, t.next, |g|);
    var visited := t.visited[v := true];
    Tables(Distances(g, visited, v, m, t.d, |g|), Predecessors(g, visited, v, m, t.d, t.p, |g|), visited, v)
  }

  // The final value of the variable count.
  function Counted(g: Graph): (n: nat)
    requires |g| >= 1
    ensures n >= 1
  {
    if |g| == 1 then 1 else |g| - 1
  }

  ghost predicate RoundOk(g: Graph, run: seq<Tables>, k: nat)
    requires Square(g) && k + 1 < |run|
  {
    IsTables(g, run[k]) && run[k + 1] == Next(g, run[k])
  }

  ghost predicate RoundsOk(g: Graph, run: seq<Tables>)
    requires Square(g)
  {
    forall k: nat | k + 1 < |run| :: RoundOk(g, run, k)
  }

  // The tables before the first round and after each of the n-2 rounds.
  ghost predicate IsRun(g: Graph, s: int, junk: int, run: seq<Tables>)
    requires Square(g) && InRange(g, s) && InRange(g, junk)
  {
    |run| == Counted(g) && run[0] == Begin(g, s, junk) && RoundsOk(g, run)
  }

  // There is exactly one run.
  lemma TheRun(g: Graph, s: int, junk: int) returns (run: seq<Tables>)
    requires Square(g) && InRange(g, s) && InRange(g, junk)
    ensures IsRun(g, s, junk, run)
    ensures forall other | IsRun(g, s, junk, other) :: other == run
  {
    run := RunUpTo(g, s, junk, Counted(g) - 1);
    forall other | IsRun(g, s, junk, other)
      ensures other == run
    {
      forall k: nat | k < |run|
        ensures other[k] == run[k]
      {
        SameRun(g, run, other, k);
      }
    }
  }

  lemma {:induction false} RunUpTo(g: Graph, s: int, junk: int, rounds: nat) returns (run: seq<Tables>)
    requires Square(g) && InRange(g, s) && InRange(g, junk)
    ensures |run| == rounds + 1 && run[0] == Begin(g, s, junk) && IsTables(g, run[rounds]) && RoundsOk(g, run)
  {
    if rounds == 0 {
      run := [Begin(g, s, junk)];
    } else {
      var before := RunUpTo(g, s, junk, rounds - 1);
      run := RunGrows(g, before);
    }
  }

  lemma RunGrows(g: Graph, before: seq<Tables>) returns (run: seq<Tables>)
    requires Square(g) && before != [] && IsTables(g, before[|before| - 1]) && RoundsOk(g, before)
    ensures |run| == |before| + 1 && run[0] == before[0] && IsTables(g, run[|before|]) && RoundsOk(g, run)
  {
    run := before + [Next(g, before[|before| - 1])];
    forall k: nat | k + 1 < |run|
      ensures RoundOk(g, run, k)
    {
      if k + 1 < |before| {
        assert RoundOk(g, before, k);
      }
    }
  }

  lemma {:induction false} SameRun(g: Graph, a: seq<Tables>, b: seq<Tables>, k: nat)
    requires Square(g) && |a| == |b| && k < |a| && a[0] == b[0] && RoundsOk(g, a) && RoundsOk(g, b)
    ensures a[k] == b[k]
  {
    if k > 0 {
      SameRun(g, a, b, k - 1);
      assert RoundOk(g, a, k - 1) && RoundOk(g, b, k - 1);
    }
  }

  lemma {:induction false} FirstDistancesAt(g: Graph, s: int, n: nat)
    requires Square(g) && InRange(g, s) && n <= |g|
    ensures forall i | 0 <= i < n :: FirstDistances(g, s, n)[i] == if i == s then 0 else Cost(g, s, i)
  {
    if n > 0 {
      FirstDistancesAt(g, s, n - 1);
    }
  }

  lemma {:induction false} RepeatAt(s: int, n: nat)
    ensures forall i | 0 <= i < n :: Repeat(s, n)[i] == s
  {
    if n > 0 {
      RepeatAt(s, n - 1);
    }
  }

  lemma {:induction false} MarkAt(s: int, n: nat)
    ensures forall i | 0 <= i < n :: Mark(s, n)[i] <==> i == s
  {
    if n > 0 {
      MarkAt(s, n - 1);
    }
  }

  // The tables before the first round (lines 43-52).
  lemma BeginAt(g: Graph, s: int, junk: int)
    requires Square(g) && InRange(g, s) && InRange(g, junk)
    ensures var t := Begin(g, s, junk);
            forall i | InRange(g, i) ::
              t.d[i] == (if i == s then 0 else Cost(g, s, i)) && t.p[i] == s && (t.visited[i] <==> i == s)
  {
    FirstDistancesAt(g, s, |g|);
    RepeatAt(s, |g|);
    MarkAt(s, |g|);
  }

  // Both tables after the relaxation of the first n entries.
  lemma {:induction false} RelaxedTo(g: Graph, visited: seq<bool>, v: int, m: int, d: seq<int>, p: seq<int>, n: nat)
    requires Square(g) && InRange(g, v) && n <= |visited| == |d| == |p| == |g|
    ensures var d1, p1 := Distances(g, visited, v, m, d, n), Predecessors(g, visited, v, m, d, p, n);
            forall i | 0 <= i < n ::
              if !visited[i] && m + Cost(g, v, i) < d[i] then d1[i] == m + Cost(g, v, i) && p1[i] == v
              else d1[i] == d[i] && p1[i] == p[i]
  {
    if n > 0 {
      RelaxedTo(g, visited, v, m, d, p, n - 1);
    }
  }

  // The relaxation loop computes exactly these tables.
  lemma RelaxedDetermines(g: Graph, visited: seq<bool>, v: int, m: int,
                          d0: seq<int>, p0: seq<int>, d1: seq<int>, p1: seq<int>)
    requires Square(g) && InRange(g, v) && Relaxed(g, visited, v, m, d0, p0, d1, p1)
    ensures d1 == Distances(g, visited, v, m, d0, |g|) && p1 == Predecessors(g, visited, v, m, d0, p0, |g|)
  {
    var d, p := Distances(g, visited, v, m, d0, |g|), Predecessors(g, visited, v, m, d0, p0, |g|);
    RelaxedTo(g, visited, v, m, d0, p0, |g|);
    forall i | 0 <= i < |g|
      ensures d1[i] == d[i] && p1[i] == p[i]
    {
      assert RelaxedAt(g, visited, v, m, d0, p0, d1, p1, i);
    }
    assert d1 == d && p1 == p;
  }

  lemma NextIsRelaxed(g: Graph, visited: seq<bool>, v: int, m: int, d: seq<int>, p: seq<int>)
    requires Square(g) && InRange(g, v) && |visited| == |d| == |p| == |g|
    ensures var r := Distances(g, visited, v, m, d, |g|);
            Relaxed(g, visited, v, m, d, p, r, Predecessors(g, visited, v, m, d, p, |g|))
  {
    RelaxedTo(g, visited, v, m, d, p, |g|);
  }

  // What the scan finds is the first of the nearest unvisited nodes, or nothing below INFINITY and the
  // old choice.
  lemma {:induction false} NearestIsSelected(d: seq<int>, visited: seq<bool>, stale: int, n: nat)
    requires n <= |d| == |visited| && 0 <= stale < |d|
    ensures var (m, v) := Nearest(d, visited, stale, n);
            && (forall i | 0 <= i < n && !visited[i] :: m <= d[i])
            && (if m == INFINITY then v == stale else m < INFINITY && 0 <= v < n && !visited[v] && d[v] == m)
            && (m < INFINITY ==> forall i | 0 <= i < v && !visited[i] :: m < d[i])
  {
    if n > 0 {
      NearestIsSelected(d, visited, stale, n - 1);
    }
  }

  // ---- what every round keeps ----

  // What holds after a number of rounds, with the nodes settled so far in `order`.
  ghost predicate RoundInvariant(g: Graph, s: int, junk: int, t: Tables, order: seq<int>, chain: seq<int>,
                                 settledAt: seq<int>, rounds: nat)
    requires Square(g) && InRange(g, s) && InRange(g, junk)
  {
    && IsTables(g, t)
    && AtRound(g, s, t.d, t.p, t.visited, order, chain, settledAt, rounds + 1)
    && Entries(g, s, junk, t.d, t.p, order, rounds + 1) && StaleNode(s, junk, order, t.next)
    && Canonical(g, s, t.d, t.p, order)
  }

  ghost predicate HoldsAt(g: Graph, s: int, junk: int, run: seq<Tables>, k: nat,
                          order: seq<int>, chain: seq<int>, settledAt: seq<int>)
    requires Square(g) && InRange(g, s) && InRange(g, junk)
  {
    k < |run| && RoundInvariant(g, s, junk, run[k], order, chain, settledAt, k)
  }

  lemma BeginKeeps(g: Graph, s: int, junk: int)
    requires IsGraph(g) && InRange(g, s) && InRange(g, junk)
    ensures RoundInvariant(g, s, junk, Begin(g, s, junk), [s], [s], [0], 0)
  {
    var t := Begin(g, s, junk);
    BeginAt(g, s, junk);
    InitiallySettled(g, s, t.d, t.p);
    InitiallyCanonical(g, s, t.d, t.p);
    forall i | InRange(g, i) && i != s
      ensures HangsBy(g, t.d, t.p, [s], i)
    {
    }
  }

  // One round only extends the settled nodes and the distances at which they were settled, so a
  // settled distance never changes.
  lemma RoundKeeps(g: Graph, s: int, junk: int, run: seq<Tables>, k: nat,
                   order: seq<int>, chain: seq<int>, settledAt: seq<int>)
    returns (order': seq<int>, chain': seq<int>, settledAt': seq<int>)
    requires IsGraph(g) && InRange(g, s) && InRange(g, junk) && 0 < k < |run| && RoundsOk(g, run)
    requires HoldsAt(g, s, junk, run, k - 1, order, chain, settledAt)
    ensures HoldsAt(g, s, junk, run, k, order', chain', settledAt')
    ensures order <= order' && settledAt <= settledAt'
  {
    assert RoundOk(g, run, k - 1);
    var t, r := run[k - 1], run[k];
    var m, v := Nearest(t.d, t.visited, t.next, |g|).0, r.next;
    NearestIsSelected(t.d, t.visited, t.next, |g|);
    NextIsRelaxed(g, r.visited, v, m, t.d, t.p);
    order', chain', settledAt' := Round(g, s, t.visited, order, chain, settledAt, k, m, v, t.d, t.p, r.d, r.p);
    if m < INFINITY {
      EntriesNearest(g, s, junk, t.visited, order, chain, settledAt, k, v, t.d, t.p, r.d, r.p);
    } else {
      EntriesIdle(g, s, junk, t.visited, order, chain, settledAt, k, v, t.d, t.p, r.d, r.p);
    }
    CanonicalKept(g, s, t, r, order, chain, settledAt, k, m, v);
  }

  lemma CanonicalKept(g: Graph, s: int, t: Tables, r: Tables, order: seq<int>, chain: seq<int>, settledAt: seq<int>,
                      count: int, m: int, v: int)
    requires IsGraph(g) && IsTables(g, t) && AtRound(g, s, t.d, t.p, t.visited, order, chain, settledAt, count)
    requires Canonical(g, s, t.d, t.p, order) && InRange(g, v) && r.visited == t.visited[v := true]
    requires forall i | InRange(g, i) && !t.visited[i] :: m <= t.d[i] && (m < INFINITY && i < v ==> m < t.d[i])
    requires m == INFINITY || (m < INFINITY && !t.visited[v] && t.d[v] == m)
    requires Relaxed(g, r.visited, v, m, t.d, t.p, r.d, r.p)
    ensures Canonical(g, s, r.d, r.p, if m < INFINITY then order + [v] else order)
  {
    if m < INFINITY {
      FirstIsSelected(g, s, t, order, chain, settledAt, count, v);
      SelectingIsCanonical(g, s, order, r.visited, v, t.d, t.p, r.d, r.p);
    } else {
      assert forall u | InRange(g, u) && u in order :: r.visited[u] by {
        assert order <= chain && MarksExactly(t.visited, chain);
      }
      IdleIsCanonical(g, s, order, r.visited, v, t.d, t.p, r.d, r.p);
    }
  }

  // The first of the nearest unvisited nodes is the first of the unsettled ones.
  lemma FirstIsSelected(g: Graph, s: int, t: Tables, order: seq<int>, chain: seq<int>, settledAt: seq<int>,
                        count: int, v: int)
    requires IsGraph(g) && IsTables(g, t) && AtRound(g, s, t.d, t.p, t.visited, order, chain, settledAt, count)
    requires InRange(g, v) && !t.visited[v] && t.d[v] < INFINITY
    requires forall i | InRange(g, i) && !t.visited[i] :: t.d[v] <= t.d[i] && (i < v ==> t.d[v] < t.d[i])
    ensures FirstUnsettled(g, t.d, order, v) && chain == order
    ensures MarksExactly(t.visited[v := true], order + [v])
    ensures forall i | InRange(g, i) && i != s :: t.p[i] in order
  {
    assert v !in order by { assert order <= chain; assert MarksExactly(t.visited, chain); }
    assert chain == order;
  }

  lemma {:induction false} RunKeeps(g: Graph, s: int, junk: int, run: seq<Tables>, k: nat)
    returns (order: seq<int>, chain: seq<int>, settledAt: seq<int>)
    requires IsGraph(g) && InRange(g, s) && InRange(g, junk) && IsRun(g, s, junk, run) && k < |run|
    ensures HoldsAt(g, s, junk, run, k, order, chain, settledAt)
  {
    if k == 0 {
      BeginKeeps(g, s, junk);
      order, chain, settledAt := [s], [s], [0];
    } else {
      order, chain, settledAt := RunKeeps(g, s, junk, run, k - 1);
      order, chain, settledAt := RoundKeeps(g, s, junk, run, k, order, chain, settledAt);
    }
  }

  // What the loops leave behind.
  ghost predicate FinalTables(g: Graph, s: int, junk: int, d: seq<int>, p: seq<int>, order: seq<int>, chain: seq<int>)
    requires IsGraph(g) && InRange(g, s) && InRange(g, junk)
  {
    && Settled(g, s, d, p, order) && PredChain(g, s, p, chain) && order <= chain
    && (Exhausted(g, d, order) || |g| - 1 <= |order|)
    && |chain| <= Counted(g)
    && Entries(g, s, junk, d, p, order, Counted(g)) && Canonical(g, s, d, p, order)
  }

  lemma RunIsSettled(g: Graph, s: int, junk: int, run: seq<Tables>) returns (order: seq<int>, chain: seq<int>)
    requires IsGraph(g) && InRange(g, s) && InRange(g, junk) && IsRun(g, s, junk, run)
    ensures FinalTables(g, s, junk, run[|run| - 1].d, run[|run| - 1].p, order, chain)
  {
    var settledAt;
    order, chain, settledAt := RunKeeps(g, s, junk, run, |run| - 1);
    LastIsSettled(g, s, junk, run, order, chain, settledAt);
  }

  lemma LastIsSettled(g: Graph, s: int, junk: int, run: seq<Tables>,
                      order: seq<int>, chain: seq<int>, settledAt: seq<int>)
    requires IsGraph(g) && InRange(g, s) && InRange(g, junk) && |run| == Counted(g)
    requires HoldsAt(g, s, junk, run, |run| - 1, order, chain, settledAt)
    ensures FinalTables(g, s, junk, run[|run| - 1].d, run[|run| - 1].p, order, chain)
  {
  }

  // ---- sums in an int ----

  // The sums that the relaxation loop forms are at most INT_MAX; by SumsAreNotNegative that is all
  // there is to ask.
  ghost predicate SumsFit(g: Graph, visited: seq<bool>, v: int, m: int)
    requires Square(g) && InRange(g, v) && |visited| == |g|
  {
    forall i | InRange(g, i) && !visited[i] :: m + Cost(g, v, i) <= INT_MAX
  }

  ghost predicate RoundFits(g: Graph, t: Tables)
    requires Square(g) && IsTables(g, t)
  {
    NearestBounds(t.d, t.visited, t.next, |g|);
    var (m, v) := Nearest(t.d, t.visited, t.next, |g|);
    SumsFit(g, t.visited[v := true], v, m)
  }

  // What C demands: no sum of line 70 overflows in any round of the run.
  ghost predicate NeverOverflows(g: Graph, s: int, junk: int)
    requires Square(g) && InRange(g, s) && InRange(g, junk)
  {
    forall run | IsRun(g, s, junk, run) :: RunFits(g, run)
  }

  ghost predicate RunFits(g: Graph, run: seq<Tables>)
    requires Square(g)
  {
    forall k: nat | k + 1 < |run| && IsTables(g, run[k]) :: RoundFits(g, run[k])
  }

  ghost predicate WeightsNeverOverflow(most: nat) {
    forall g, s, junk | IsGraph(g) && WeightsAtMost(g, most) && InRange(g, s) && InRange(g, junk) ::
      NeverOverflows(g, s, junk)
  }

  // mindistance is never negative, and neither is a cost.
  lemma SumsAreNotNegative(g: Graph, s: int, junk: int, t: Tables, order: seq<int>, chain: seq<int>,
                           settledAt: seq<int>, rounds: nat)
    requires IsGraph(g) && InRange(g, s) && InRange(g, junk)
    requires RoundInvariant(g, s, junk, t, order, chain, settledAt, rounds)
    ensures 0 <= Nearest(t.d, t.visited, t.next, |g|).0
  {
    UnvisitedNotNegative(g, s, t.d, t.visited, order, chain);
    NearestIsSelected(t.d, t.visited, t.next, |g|);
  }

  // The bound a caller can check, and the best there is: weights up to this one never overflow,
  // whatever the graph, the start and the initial nextnode.
  lemma WeightsNeverOverflowIff(most: nat)
    ensures WeightsNeverOverflow(most) <==> most <= INT_MAX - INFINITY
  {
    if most <= INT_MAX - INFINITY {
      forall g, s, junk | IsGraph(g) && WeightsAtMost(g, most) && InRange(g, s) && InRange(g, junk)
        ensures NeverOverflows(g, s, junk)
      {
        SmallWeightsFit(g, s, junk, most);
      }
    } else {
      IdleRoundOverflows(most);
    }
  }

  lemma SmallWeightsFit(g: Graph, s: int, junk: int, most: nat)
    requires IsGraph(g) && WeightsAtMost(g, most) && InRange(g, s) && InRange(g, junk) && most <= INT_MAX - INFINITY
    ensures NeverOverflows(g, s, junk)
  {
    forall t | IsTables(g, t)
      ensures RoundFits(g, t)
    {
      NearestBounds(t.d, t.visited, t.next, |g|);
    }
  }

  // Three nodes make one round, which overflows if the sum at its selected node does not fit.
  lemma FirstRoundOverflows(g: Graph, s: int, junk: int, m: int, v: int, i: int)
    requires Square(g) && |g| == 3 && InRange(g, s) && InRange(g, junk) && InRange(g, v) && InRange(g, i) && i != v
    requires var t := Begin(g, s, junk); Nearest(t.d, t.visited, t.next, 3) == (m, v) && !t.visited[i]
    requires m + Cost(g, v, i) > INT_MAX
    ensures !NeverOverflows(g, s, junk)
  {
    var t := Begin(g, s, junk);
    assert !RoundFits(g, t) by {
      assert !t.visited[v := true][i];
    }
    var run := [t, Next(g, t)];
    assert forall k: nat | k + 1 < |run| :: RoundOk(g, run, k);
    assert IsRun(g, s, junk, run) && !RunFits(g, run);
  }

  // One edge of weight w, out of the node that nextnode happened to hold; the start has no edge.
  function Lonely(w: nat): Graph {
    [[0, 0, 0], [0, 0, w], [0, 0, 0]]
  }

  lemma LonelyIsGraph(w: nat)
    ensures IsGraph(Lonely(w)) && WeightsAtMost(Lonely(w), w)
  {
  }

  lemma LonelyBegins(w: nat)
    ensures Square(Lonely(w)) && |Lonely(w)| == 3
    ensures var t := Begin(Lonely(w), 0, 1); t.d == [0, INFINITY, INFINITY] && t.visited == [true, false, false]
  {
    BeginAt(Lonely(w), 0, 1);
  }

  lemma LonelySelects()
    ensures Nearest([0, INFINITY, INFINITY], [true, false, false], 1, 3) == (INFINITY, 1)
  {
    assert Nearest([0, INFINITY, INFINITY], [true, false, false], 1, 1) == (INFINITY, 1);
    assert Nearest([0, INFINITY, INFINITY], [true, false, false], 1, 2) == (INFINITY, 1);
  }

  // The first round finds nothing and adds 9999 to the weight of that edge.
  lemma IdleRoundOverflows(w: nat)
    requires w > INT_MAX - INFINITY
    ensures IsGraph(Lonely(w)) && WeightsAtMost(Lonely(w), w) && !NeverOverflows(Lonely(w), 0, 1)
  {
    LonelyIsGraph(w);
    LonelyBegins(w);
    LonelySelects();
    FirstRoundOverflows(Lonely(w), 0, 1, INFINITY, 1, 2);
  }

  const STEEP: Graph := [[0, 1, 5], [0, 0, INT_MAX], [0, 0, 0]]

  // How the usual two's complement hardware wraps a sum of two ints that are not negative.
  function Wrap(x: int): int {
    if x <= INT_MAX then x else x - 0x1_0000_0000
  }

  lemma SteepIsGraph()
    ensures IsGraph(STEEP)
  {
  }

  lemma SteepBegins(junk: int)
    requires InRange(STEEP, junk)
    ensures var t := Begin(STEEP, 0, junk); t.d == [0, 1, 5] && t.visited == [true, false, false] && t.next == junk
  {
    BeginAt(STEEP, 0, junk);
  }

  lemma SteepSelects(junk: int)
    ensures Nearest([0, 1, 5], [true, false, false], junk, 3) == (1, 1)
  {
    assert Nearest([0, 1, 5], [true, false, false], junk, 1) == (INFINITY, junk);
    assert Nearest([0, 1, 5], [true, false, false], junk, 2) == (1, 1);
  }

  // The round settles node 1 and adds 1 to the weight of the edge out of it. Wrapped, the sum
  // undercuts the distance 5 of node 2.
  lemma SelectingRoundOverflows(junk: int)
    requires InRange(STEEP, junk)
    ensures IsGraph(STEEP) && !NeverOverflows(STEEP, 0, junk)
    ensures Wrap(1 + Cost(STEEP, 1, 2)) == -0x8000_0000 < 5 && IsDistance(STEEP, 0, 2, 5)
  {
    SteepBegins(junk);
    SteepSelects(junk);
    SteepIsGraph();
    FirstRoundOverflows(STEEP, 0, junk, 1, 1, 2);
    SteepDistance();
  }

  lemma SteepDistance()
    ensures IsDistance(STEEP, 0, 2, 5)
  {
    assert [0, 2][..1] == [0] && Weight(STEEP, [0]) == 0;
    assert IsPathFromTo(STEEP, 0, 2, [0, 2]) && Weight(STEEP, [0, 2]) == 5;
    forall q | IsPathFromTo(STEEP, 0, 2, q)
      ensures 5 <= Weight(STEEP, q)
    {
      var rest := q[..|q| - 1];
      assert STEEP[q[|q| - 2]][q[|q| - 1]] >= 5;
      WeightNonNegative(STEEP, rest);
    }
  }
}
