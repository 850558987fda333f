/** Shared notions: optional values, sums of an integer measure over a sequence and what a single
    update does to them, and two small facts. */
module Basics {

  datatype Option<+T> = None | Some(value: T)

  function Sum<T>(ts: seq<T>, f: T -> int): int {
    if ts == [] then 0 else f(ts[0]) + Sum(ts[1..], f)
  }

  lemma {:induction false} SumUpdate<T>(ts: seq<T>, k: nat, t: T, f: T -> int)
    requires k < |ts|
    ensures Sum(ts[k := t], f) == Sum(ts, f) - f(ts[k]) + f(t)
  {
    if k == 0 {
      assert ts[0 := t][1..] == ts[1..];
    } else {
      assert ts[k := t][1..] == ts[1..][k - 1 := t];
      SumUpdate(ts[1..], k - 1, t, f);
    }
  }

  lemma {:induction false} SumAtLeast<T>(ts: seq<T>, k: nat, f: T -> int)
    requires k < |ts| && forall i | 0 <= i < |ts| :: 0 <= f(ts[i])
    ensures f(ts[k]) <= Sum(ts, f)
  {
    SumNonNegative(ts[1..], f);
    if k > 0 {
      SumAtLeast(ts[1..], k - 1, f);
    }
  }

  lemma {:induction false} SumNonNegative<T>(ts: seq<T>, f: T -> int)
    requires forall i | 0 <= i < |ts| :: 0 <= f(ts[i])
    ensures 0 <= Sum(ts, f)
  {
    if ts != [] {
      SumNonNegative(ts[1..], f);
    }
  }

  lemma {:induction false} SumPointwise<T>(ts: seq<T>, f: T -> int, g: T -> int, h: T -> int)
    requires forall i | 0 <= i < |ts| :: h(ts[i]) == f(ts[i]) + g(ts[i])
    ensures Sum(ts, h) == Sum(ts, f) + Sum(ts, g)
  {
    if ts != [] {
      SumPointwise(ts[1..], f, g, h);
    }
  }

  lemma {:induction false} SumZero<T>(ts: seq<T>, f: T -> int)
    requires forall i | 0 <= i < |ts| :: f(ts[i]) == 0
    ensures Sum(ts, f) == 0
  {
    if ts != [] {
      SumZero(ts[1..], f);
    }
  }

  lemma {:induction false} SumAtMost<T>(ts: seq<T>, f: T -> int, g: T -> int)
    requires forall i | 0 <= i < |ts| :: f(ts[i]) <= g(ts[i])
    ensures Sum(ts, f) <= Sum(ts, g)
    ensures forall k | 0 <= k < |ts| && f(ts[k]) < g(ts[k]) :: Sum(ts, f) < Sum(ts, g)
  {
    if ts != [] {
      SumAtMost(ts[1..], f, g);
      assert forall k | 0 < k < |ts| :: ts[k] == ts[1..][k - 1];
    }
  }

  lemma {:induction false} SumSame<T>(ts: seq<T>, us: seq<T>, f: T -> int)
    requires |ts| == |us| && forall i | 0 <= i < |ts| :: f(ts[i]) == f(us[i])
    ensures Sum(ts, f) == Sum(us, f)
  {
    if ts != [] {
      SumSame(ts[1..], us[1..], f);
    }
  }

  lemma {:induction false} SumAtLeastTwo<T>(ts: seq<T>, j: nat, k: nat, f: T -> int)
    requires j < k < |ts| && forall i | 0 <= i < |ts| :: 0 <= f(ts[i])
    ensures f(ts[j]) + f(ts[k]) <= Sum(ts, f)
  {
    if j == 0 {
      SumAtLeast(ts[1..], k - 1, f);
    } else {
      SumAtLeastTwo(ts[1..], j - 1, k - 1, f);
    }
  }

  // A nonempty set has a member.
  lemma Pick<T>(a: set<T>) returns (x: T)
    requires a != {}
    ensures x in a
  {
    x :| x in a;
  }

  lemma ScaledOrder(a: nat, b: nat, n: nat)
    requires a <= b
    ensures a * n <= b * n
  {
  }
}
