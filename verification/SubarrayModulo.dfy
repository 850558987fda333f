/** The largest residue, modulo m, of the sum of a contiguous subarray: the quadratic search over
    prefix residues, what it really computes, and exactly when that is the optimum.
    Line numbers refer to the file `hacker rank`. */
module SubarrayModulo {
  import opened Basics

  const LONG_MAX := 0x7fff_ffff_ffff_ffff
  const LONG_MIN := -LONG_MAX - 1

  // Non-negative elements whose addition to a residue cannot overflow.
  predicate Valid(a: seq<int>, m: int) {
    1 <= m <= LONG_MAX && forall i | 0 <= i < |a| :: 0 <= a[i] <= LONG_MAX - m + 1
  }

  // C's remainder, which takes the sign of its left operand.
  function Rem(x: int, m: int): (r: int)
    requires m >= 1
    ensures -m < r < m && (r == 0 || (0 < r <==> 0 < x))
    decreases if x < 0 then -x else x
  {
    if -m < x < m then x else if x > 0 then Rem(x - m, m) else Rem(x + m, m)
  }

  // The value of prefix_sum after n rounds.
  function Remainder(a: seq<int>, m: int, n: nat): (r: int)
    requires m >= 1 && n <= |a|
    ensures -m < r < m
  {
    if n == 0 then 0 else Rem(Remainder(a, m, n - 1) + a[n - 1], m)
  }

  function Remainders(a: seq<int>, m: int): (p: seq<int>)
    requires m >= 1
    ensures |p| == |a| && forall i | 0 <= i < |a| :: p[i] == Remainder(a, m, i + 1)
  {
    seq(|a|, i requires 0 <= i < |a| => Remainder(a, m, i + 1))
  }

  // What C demands: no sum and no difference leaves the range of a long.
  predicate NoOverflow(a: seq<int>, m: int)
    requires m >= 1
  {
    && (forall i: nat | i < |a| :: SumFits(a, m, i))
    && (forall i: nat | i < |a| :: GapFits(Remainders(a, m), i))
  }

  predicate SumFits(a: seq<int>, m: int, i: nat)
    requires m >= 1 && i < |a|
  {
    LONG_MIN <= Remainder(a, m, i) + a[i] <= LONG_MAX
  }

  predicate GapFits(p: seq<int>, i: nat)
    requires i < |p|
  {
    Found(p, i).Some? ==> LONG_MIN <= p[i] - Found(p, i).value
  }

  function RangeSum(a: seq<int>, i: nat, j: nat): int
    requires i <= j <= |a|
  {
    if i == j then 0 else RangeSum(a, i, j - 1) + a[j - 1]
  }

  // The residue of the sum of a[i..j].
  function Residue(a: seq<int>, m: int, i: nat, j: nat): (r: int)
    requires i <= j <= |a| && m >= 1
    ensures 0 <= r < m
  {
    RangeSum(a, i, j) % m
  }

  // The residue of each nonempty prefix.
  function Prefixes(a: seq<int>, m: int): (p: seq<int>)
    requires m >= 1
    ensures |p| == |a| && forall i | 0 <= i < |a| :: p[i] == Residue(a, m, 0, i + 1)
  {
    seq(|a|, i requires 0 <= i < |a| => Residue(a, m, 0, i + 1))
  }

  function Max(x: int, y: int): int {
    if x > y then x else y
  }

  function FirstGreater(p: seq<int>, x: int): Option<int> {
    if p == [] then None else if p[0] > x then Some(p[0]) else FirstGreater(p[1..], x)
  }

  // What the inner loop finds at prefix i.
  function Found(p: seq<int>, i: nat): Option<int>
    requires i < |p|
  {
    FirstGreater(p[..i], p[i])
  }

  // The residue that the inner loop contributes at prefix i.
  function Wrapped(p: seq<int>, m: int, i: nat): int
    requires i < |p|
  {
    match Found(p, i)
    case None => 0
    case Some(g) => p[i] - g + m
  }

  // What the outer loop has accumulated after n rounds.
  function Scan(p: seq<int>, m: int, n: nat): int
    requires n <= |p|
  {
    if n == 0 then 0 else Max(Max(Scan(p, m, n - 1), p[n - 1]), Wrapped(p, m, n - 1))
  }

  lemma {:induction false} FirstGreaterIsFirst(p: seq<int>, x: int)
    ensures match FirstGreater(p, x)
            case None => forall k | 0 <= k < |p| :: p[k] <= x
            case Some(g) => exists k | 0 <= k < |p| :: p[k] == g && g > x && forall j | 0 <= j < k :: p[j] <= x
  {
    if p != [] && p[0] <= x {
      FirstGreaterIsFirst(p[1..], x);
      if FirstGreater(p[1..], x).None? {
        assert forall k | 0 < k < |p| :: p[k] == p[1..][k - 1];
      } else {
        var g := FirstGreater(p[1..], x).value;
        var k :| 0 <= k < |p[1..]| && p[1..][k] == g && g > x && forall j | 0 <= j < k :: p[1..][j] <= x;
        assert p[k + 1] == g;
        assert forall j | 0 < j < k + 1 :: p[j] == p[1..][j - 1];
      }
    }
  }

  lemma {:induction false} FirstGreaterSplit(p: seq<int>, x: int, k: nat)
    requires k < |p| && p[k] > x && forall j | 0 <= j < k :: p[j] <= x
    ensures FirstGreater(p, x) == Some(p[k])
  {
    if k > 0 {
      FirstGreaterSplit(p[1..], x, k - 1);
    }
  }

  // The inner loop (lines 80-86).
  method FindGreater(prefixSet: array<int>, count: nat, x: int) returns (found: int)
    requires 1 <= count <= prefixSet.Length
    requires forall k | 0 <= k < count :: prefixSet[k] < LONG_MAX
    ensures found == match FirstGreater(prefixSet[..count - 1], x) case None => LONG_MAX case Some(g) => g
  {
    found := LONG_MAX;
    for j := 0 to count - 1
      invariant found == LONG_MAX && forall k | 0 <= k < j :: prefixSet[k] <= x
    {
      if prefixSet[j] > x {
        found := prefixSet[j];
        FirstGreaterSplit(prefixSet[..count - 1], x, j);
        break;
      }
    }
    if found == LONG_MAX {
      FirstGreaterIsFirst(prefixSet[..count - 1], x);
    }
  }

  lemma PrefixStep(a: seq<int>, m: int, i: nat)
    requires m >= 1 && i < |a|
    ensures Residue(a, m, 0, i + 1) == (Residue(a, m, 0, i) + a[i]) % m
  {
    AddResidue(RangeSum(a, 0, i), a[i], m);
  }

  lemma AddResidue(x: int, y: int, m: int)
    requires m >= 1
    ensures (x + y) % m == (x % m + y) % m
  {
    var q, r := (x % m + y) / m, (x % m + y) % m;
    assert x + y == (x / m + q) * m + r;
    RemainderIs(x + y, m, x / m + q, r);
  }

  lemma Distribute(x: int, y: int, m: int)
    ensures (x - y) * m == x * m - y * m
  {
  }

  lemma AtLeastFactor(d: int, m: int)
    requires d >= 1 && m >= 1
    ensures d * m >= m
  {
  }

  // Quotient and remainder are unique.
  lemma RemainderIs(x: int, m: int, q: int, r: int)
    requires m >= 1 && 0 <= r < m && x == q * m + r
    ensures x % m == r
  {
    var q', r' := x / m, x % m;
    assert x == q' * m + r';
    Distribute(q, q', m);
    Distribute(q', q, m);
    if q' < q {
      AtLeastFactor(q - q', m);
    } else if q' > q {
      AtLeastFactor(q' - q, m);
    }
  }

  lemma SmallRemainder(x: int, m: int)
    requires 0 <= x < m
    ensures x % m == x
  {
    RemainderIs(x, m, 0, x);
  }

  // C's remainder has the residue of its left operand.
  lemma {:induction false} RemCongruent(x: int, m: int)
    requires m >= 1
    ensures Rem(x, m) % m == x % m
    decreases if x < 0 then -x else x
  {
    if x >= m {
      RemCongruent(x - m, m);
      Congruent(x, x - m, m, 1);
    } else if x <= -m {
      RemCongruent(x + m, m);
      Congruent(x, x + m, m, -1);
    }
  }

  lemma Congruent(x: int, y: int, m: int, q: int)
    requires m >= 1 && x == y + q * m
    ensures x % m == y % m
  {
    assert x == (y / m + q) * m + y % m;
    RemainderIs(x, m, y / m + q, y % m);
  }

  // What one round of the outer loop does to the maximum.
  lemma RoundIsScan(p: seq<int>, m: int, i: nat, found: int)
    requires i < |p| && 1 <= m <= LONG_MAX && GapFits(p, i) && forall k | 0 <= k < |p| :: -m < p[k] < m
    requires found == match FirstGreater(p[..i], p[i]) case None => LONG_MAX case Some(g) => g
    ensures found != LONG_MAX ==> LONG_MIN <= p[i] - found < 0
    ensures Scan(p, m, i + 1) ==
            var best := Max(Scan(p, m, i), p[i]);
            if found == LONG_MAX then best else Max(best, Rem(p[i] - found + m, m))
  {
    ScanNonNegative(p, m, i);
    FirstGreaterIsFirst(p[..i], p[i]);
    if FirstGreater(p[..i], p[i]).Some? {
      var k :| 0 <= k < i && p[..i][k] == found && found > p[i];
      assert -m < p[k] < m && p[k] == found && -m < p[i];
      assert Rem(p[i] - found + m, m) == Wrapped(p, m, i);
    }
  }

  // The program as written, with C's remainder, for all inputs on which no operation overflows.
  method MaximumSum(a: array<int>, m: int) returns (best: int)
    requires 1 <= m <= LONG_MAX && NoOverflow(a[..], m)
    ensures best == Scan(Remainders(a[..], m), m, a.Length)
  {
    ghost var s := a[..];
    ghost var p := Remainders(s, m);
    best := 0;
    var prefixSum := 0;
    var prefixSet := new int[a.Length];
    for i := 0 to a.Length
      invariant a[..] == s && prefixSum == Remainder(s, m, i)
      invariant prefixSet[..i] == p[..i]
      invariant best == Scan(p, m, i)
    {
      assert a[i] == s[i] && SumFits(s, m, i) && GapFits(p, i);
      prefixSum := Rem(prefixSum + a[i], m);
      assert prefixSum == p[i];
      best := Max(best, prefixSum);
      prefixSet[i] := prefixSum;
      assert prefixSet[..i + 1] == p[..i] + [p[i]] == p[..i + 1];
      BelowLongMax(p, m, i + 1, prefixSet[..i + 1]);
      var greater := FindGreater(prefixSet, i + 1, prefixSum);
      assert prefixSet[..i + 1 - 1] == p[..i];
      RoundIsScan(p, m, i, greater);
      if greater != LONG_MAX {
        assert LONG_MIN <= prefixSum - greater < 0;
        best := Max(best, Rem(prefixSum - greater + m, m));
      }
    }
  }

  lemma BelowLongMax(p: seq<int>, m: int, n: nat, stored: seq<int>)
    requires n <= |p| && stored == p[..n] && m <= LONG_MAX && forall k | 0 <= k < |p| :: p[k] < m
    ensures forall k | 0 <= k < n :: stored[k] < LONG_MAX
  {
  }

  // On non-negative elements nothing overflows, and the program scans the residues themselves.
  lemma ValidIsPlain(a: seq<int>, m: int)
    requires Valid(a, m)
    ensures NoOverflow(a, m) && Remainders(a, m) == Prefixes(a, m)
  {
    forall i: nat | i <= |a|
      ensures Remainder(a, m, i) == Residue(a, m, 0, i)
    {
      RemainderIsResidue(a, m, i);
    }
    FirstGreaterGaps(Remainders(a, m), m);
  }

  lemma {:induction false} RemainderIsResidue(a: seq<int>, m: int, n: nat)
    requires m >= 1 && n <= |a| && forall i | 0 <= i < |a| :: 0 <= a[i]
    ensures Remainder(a, m, n) == Residue(a, m, 0, n)
  {
    if n > 0 {
      RemainderIsResidue(a, m, n - 1);
      PrefixStep(a, m, n - 1);
      var x := Remainder(a, m, n - 1) + a[n - 1];
      RemCongruent(x, m);
      SmallRemainder(Rem(x, m), m);
    } else {
      SmallRemainder(0, m);
    }
  }

  // Two remainders differ by 2m-2 at most, and by m-1 if neither is negative.
  lemma FirstGreaterGaps(p: seq<int>, m: int)
    requires m >= 1 && forall k | 0 <= k < |p| :: -m < p[k] < m
    ensures forall i: nat | i < |p| && Found(p, i).Some? ::
              p[i] - Found(p, i).value >= (if forall k | 0 <= k < |p| :: 0 <= p[k] then 1 - m else 2 - 2 * m)
  {
    forall i: nat | i < |p| && Found(p, i).Some?
      ensures -m < Found(p, i).value < m
    {
      FirstGreaterIsFirst(p[..i], p[i]);
    }
  }

  // Elements of either sign cannot overflow either, if m is at most 2 to the 62nd plus one.
  lemma SmallModulusNeverOverflows(a: seq<int>, m: int)
    requires 1 <= m && 2 * m - 2 <= -LONG_MIN && forall i | 0 <= i < |a| :: LONG_MIN + m - 1 <= a[i] <= LONG_MAX - m + 1
    ensures NoOverflow(a, m)
  {
    FirstGreaterGaps(Remainders(a, m), m);
  }

  // ---- what it computes ----

  // The residue of a subarray from the residues of two prefixes.
  lemma ResidueFromPrefixes(a: seq<int>, m: int, i: nat, j: nat)
    requires m >= 1 && i <= j <= |a|
    ensures Residue(a, m, i, j) ==
            var d := Residue(a, m, 0, j) - Residue(a, m, 0, i); if d >= 0 then d else d + m
  {
    SplitSum(a, i, j);
    var x, y := RangeSum(a, 0, j), RangeSum(a, 0, i);
    var d := x % m - y % m;
    assert RangeSum(a, i, j) == (x / m - y / m) * m + d;
    if d >= 0 {
      RemainderIs(RangeSum(a, i, j), m, x / m - y / m, d);
    } else {
      assert RangeSum(a, i, j) == (x / m - y / m - 1) * m + (d + m);
      RemainderIs(RangeSum(a, i, j), m, x / m - y / m - 1, d + m);
    }
  }

  lemma {:induction false} SplitSum(a: seq<int>, i: nat, j: nat)
    requires i <= j <= |a|
    ensures RangeSum(a, 0, j) == RangeSum(a, 0, i) + RangeSum(a, i, j)
  {
    if i < j {
      SplitSum(a, i, j - 1);
    }
  }

  ghost predicate IsResidueOfSome(a: seq<int>, m: int, r: int)
    requires m >= 1
  {
    exists i: nat, j: nat | i < j <= |a| :: Residue(a, m, i, j) == r
  }

  ghost predicate BoundsAll(a: seq<int>, m: int, r: int)
    requires m >= 1
  {
    forall i: nat, j: nat | i < j <= |a| :: Residue(a, m, i, j) <= r
  }

  // r is the maximum the program is meant to find.
  ghost predicate IsMaximum(a: seq<int>, m: int, r: int)
    requires m >= 1
  {
    IsResidueOfSome(a, m, r) && BoundsAll(a, m, r)
  }

  // Where a result comes from: a prefix, or a prefix and the first greater one before it.
  ghost predicate FromPrefix(p: seq<int>, r: int) {
    exists i | 0 <= i < |p| :: p[i] == r
  }

  ghost predicate FromFirstPair(p: seq<int>, m: int, r: int) {
    exists i: nat | i < |p| :: Found(p, i).Some? && Wrapped(p, m, i) == r
  }

  lemma {:induction false} ScanIsAttained(p: seq<int>, m: int, n: nat)
    requires n <= |p|
    ensures Scan(p, m, n) == 0 || FromPrefix(p, Scan(p, m, n)) || FromFirstPair(p, m, Scan(p, m, n))
  {
    if n > 0 {
      ScanIsAttained(p, m, n - 1);
      assert p[n - 1] == p[n - 1];
    }
  }

  lemma {:induction false} ScanNonNegative(p: seq<int>, m: int, n: nat)
    requires n <= |p|
    ensures 0 <= Scan(p, m, n)
  {
    if n > 0 {
      ScanNonNegative(p, m, n - 1);
    }
  }

  // With non-negative residues even a zero is the residue of a prefix.
  lemma PlainScanIsAttained(p: seq<int>, m: int)
    requires 1 <= |p| && forall i | 0 <= i < |p| :: 0 <= p[i]
    ensures FromPrefix(p, Scan(p, m, |p|)) || FromFirstPair(p, m, Scan(p, m, |p|))
  {
    ScanIsAttained(p, m, |p|);
    ScanBounds(p, m, |p|, 0);
  }

  lemma {:induction false} ScanBounds(p: seq<int>, m: int, n: nat, i: nat)
    requires i < n <= |p|
    ensures p[i] <= Scan(p, m, n) && Wrapped(p, m, i) <= Scan(p, m, n)
  {
    if i < n - 1 {
      ScanBounds(p, m, n - 1, i);
    }
  }

  lemma WrappedIsResidue(a: seq<int>, m: int, i: nat)
    requires m >= 1 && i < |a| && Found(Prefixes(a, m), i).Some?
    ensures IsResidueOfSome(a, m, Wrapped(Prefixes(a, m), m, i)) && Wrapped(Prefixes(a, m), m, i) < m
  {
    var p := Prefixes(a, m);
    FirstGreaterIsFirst(p[..i], p[i]);
    var k :| 0 <= k < i && p[..i][k] == Found(p, i).value && p[..i][k] > p[i];
    ResidueFromPrefixes(a, m, k + 1, i + 1);
    assert Residue(a, m, k + 1, i + 1) == Wrapped(p, m, i);
  }

  // Sound on every input: the result is the residue of some nonempty subarray, and no prefix
  // has a larger one.
  lemma ResultIsSound(a: seq<int>, m: int)
    requires m >= 1 && |a| >= 1
    ensures var r := Scan(Prefixes(a, m), m, |a|);
            && IsResidueOfSome(a, m, r) && 0 <= r < m
            && forall j: nat | 1 <= j <= |a| :: Residue(a, m, 0, j) <= r
  {
    var p := Prefixes(a, m);
    var r := Scan(p, m, |a|);
    PlainScanIsAttained(p, m);
    if FromPrefix(p, r) {
      var i :| 0 <= i < |p| && p[i] == r;
      assert Residue(a, m, 0, i + 1) == r;
    } else {
      var i: nat :| i < |p| && Found(p, i).Some? && Wrapped(p, m, i) == r;
      WrappedIsResidue(a, m, i);
    }
    forall j: nat | 1 <= j <= |a|
      ensures Residue(a, m, 0, j) <= r
    {
      ScanBounds(p, m, |a|, j - 1);
    }
  }

  // Prefix k comes before prefix i and is greater.
  predicate Descends(p: seq<int>, k: nat, i: nat) {
    k < i < |p| && p[k] > p[i]
  }

  // The gap of a closest such pair.
  ghost predicate LeastGap(p: seq<int>, gap: int) {
    && (exists k: nat, i: nat :: Descends(p, k, i) && p[k] - p[i] == gap)
    && (forall k: nat, i: nat | Descends(p, k, i) :: gap <= p[k] - p[i])
  }

  ghost predicate FirstFoundAt(p: seq<int>, gap: int) {
    exists j: nat | j < |p| :: Found(p, j) == Some(p[j] + gap)
  }

  // No prefix comes after a greater one, or a pair found first is a closest pair, or some prefix
  // is large enough to outdo a closest pair.
  ghost predicate FirstFoundSuffices(p: seq<int>, m: int) {
    forall gap | LeastGap(p, gap) :: FirstFoundAt(p, gap) || exists j | 0 <= j < |p| :: p[j] + gap >= m
  }

  lemma {:induction false} LeastGapExists(p: seq<int>, k: nat, i: nat) returns (gap: int)
    requires Descends(p, k, i)
    ensures LeastGap(p, gap) && gap <= p[k] - p[i]
    decreases p[k] - p[i]
  {
    if k': nat, i': nat :| Descends(p, k', i') && p[k'] - p[i'] < p[k] - p[i] {
      gap := LeastGapExists(p, k', i');
    } else {
      gap := p[k] - p[i];
    }
  }

  lemma FirstFoundDescends(p: seq<int>, j: nat) returns (k: nat)
    requires j < |p| && Found(p, j).Some?
    ensures Descends(p, k, j) && Found(p, j) == Some(p[k])
  {
    FirstGreaterIsFirst(p[..j], p[j]);
    k :| 0 <= k < j && p[..j][k] == Found(p, j).value && p[..j][k] > p[j];
  }

  // r bounds every prefix and what every descending pair is worth.
  ghost predicate PairsBound(p: seq<int>, m: int, r: int) {
    && (forall j | 0 <= j < |p| :: p[j] <= r)
    && (forall k: nat, i: nat | Descends(p, k, i) :: p[i] - p[k] + m <= r)
  }

  lemma BoundsAllIff(a: seq<int>, m: int, r: int)
    requires m >= 1
    ensures BoundsAll(a, m, r) <==> PairsBound(Prefixes(a, m), m, r)
  {
    var p := Prefixes(a, m);
    if BoundsAll(a, m, r) {
      forall j: nat | j < |p|
        ensures p[j] <= r
      {
        assert Residue(a, m, 0, j + 1) <= r;
      }
      forall k: nat, i: nat | Descends(p, k, i)
        ensures p[i] - p[k] + m <= r
      {
        ResidueFromPrefixes(a, m, k + 1, i + 1);
        assert Residue(a, m, k + 1, i + 1) <= r;
      }
    }
    if PairsBound(p, m, r) {
      forall i: nat, j: nat | i < j <= |a|
        ensures Residue(a, m, i, j) <= r
      {
        PairsBoundResidue(a, m, r, i, j);
      }
    }
  }

  lemma PairsBoundResidue(a: seq<int>, m: int, r: int, i: nat, j: nat)
    requires m >= 1 && i < j <= |a| && PairsBound(Prefixes(a, m), m, r)
    ensures Residue(a, m, i, j) <= r
  {
    var p := Prefixes(a, m);
    assert p[j - 1] <= r;
    if i > 0 {
      ResidueFromPrefixes(a, m, i, j);
      assert p[j - 1] < p[i - 1] ==> Descends(p, i - 1, j - 1);
    }
  }

  lemma LeastGapDecides(p: seq<int>, m: int, r: int)
    ensures PairsBound(p, m, r) <==>
            (forall j | 0 <= j < |p| :: p[j] <= r) && (forall gap | LeastGap(p, gap) :: m - gap <= r)
  {
    if forall gap | LeastGap(p, gap) :: m - gap <= r {
      forall k: nat, i: nat | Descends(p, k, i)
        ensures p[i] - p[k] + m <= r
      {
        var gap := LeastGapExists(p, k, i);
      }
    }
  }

  // A scan that reaches a least gap found it first, or did not need it.
  lemma ReachedGap(p: seq<int>, m: int, gap: int)
    requires |p| >= 1 && (forall i | 0 <= i < |p| :: 0 <= p[i]) && LeastGap(p, gap) && m - gap <= Scan(p, m, |p|)
    ensures FirstFoundAt(p, gap) || exists j | 0 <= j < |p| :: p[j] + gap >= m
  {
    var r := Scan(p, m, |p|);
    PlainScanIsAttained(p, m);
    if !FromPrefix(p, r) {
      var j: nat :| j < |p| && Found(p, j).Some? && Wrapped(p, m, j) == r;
      var k := FirstFoundDescends(p, j);
      assert gap <= p[k] - p[j];
      assert Found(p, j) == Some(p[j] + gap);
    }
  }

  lemma ReachesGap(p: seq<int>, m: int, gap: int)
    requires FirstFoundAt(p, gap) || exists j | 0 <= j < |p| :: p[j] + gap >= m
    ensures m - gap <= Scan(p, m, |p|)
  {
    if FirstFoundAt(p, gap) {
      var t: nat :| t < |p| && Found(p, t) == Some(p[t] + gap);
      ScanBounds(p, m, |p|, t);
    } else {
      var t :| 0 <= t < |p| && p[t] + gap >= m;
      ScanBounds(p, m, |p|, t);
    }
  }

  lemma SufficesIff(p: seq<int>, m: int)
    requires |p| >= 1 && forall i | 0 <= i < |p| :: 0 <= p[i]
    ensures PairsBound(p, m, Scan(p, m, |p|)) <==> FirstFoundSuffices(p, m)
  {
    forall j: nat | j < |p|
      ensures p[j] <= Scan(p, m, |p|)
    {
      ScanBounds(p, m, |p|, j);
    }
    forall gap | LeastGap(p, gap)
      ensures m - gap <= Scan(p, m, |p|) <==> FirstFoundAt(p, gap) || exists j | 0 <= j < |p| :: p[j] + gap >= m
    {
      if m - gap <= Scan(p, m, |p|) {
        ReachedGap(p, m, gap);
      } else if FirstFoundAt(p, gap) || exists j | 0 <= j < |p| :: p[j] + gap >= m {
        ReachesGap(p, m, gap);
      }
    }
    LeastGapDecides(p, m, Scan(p, m, |p|));
  }

  // The program finds the maximum exactly when taking the first greater prefix loses nothing.
  lemma OptimalIff(a: seq<int>, m: int)
    requires m >= 1 && |a| >= 1
    ensures IsMaximum(a, m, Scan(Prefixes(a, m), m, |a|)) <==> FirstFoundSuffices(Prefixes(a, m), m)
  {
    var r := Scan(Prefixes(a, m), m, |a|);
    ResultIsSound(a, m);
    BoundsAllIff(a, m, r);
    SufficesIff(Prefixes(a, m), m);
  }

  // The sufficient condition a reader of the source would name: wherever a greater prefix is
  // found, it is also the smallest greater one.
  lemma SmallestFoundIsOptimal(a: seq<int>, m: int)
    requires m >= 1 && |a| >= 1 && FindsSmallest(Prefixes(a, m))
    ensures IsMaximum(a, m, Scan(Prefixes(a, m), m, |a|))
  {
    SmallestSuffices(Prefixes(a, m), m);
    OptimalIff(a, m);
  }

  ghost predicate FindsSmallest(p: seq<int>) {
    forall k: nat, i: nat | Descends(p, k, i) :: Found(p, i).Some? && Found(p, i).value <= p[k]
  }

  lemma SmallestSuffices(p: seq<int>, m: int)
    requires FindsSmallest(p)
    ensures FirstFoundSuffices(p, m)
  {
    forall gap | LeastGap(p, gap)
      ensures FirstFoundAt(p, gap)
    {
      var k: nat, i: nat :| Descends(p, k, i) && p[k] - p[i] == gap;
      var k' := FirstFoundDescends(p, i);
      assert gap <= p[k'] - p[i];
      assert Found(p, i) == Some(p[i] + gap);
    }
  }

  // On [8, 7, 9] modulo 10 the program answers 8, and [9] alone has residue 9.
  lemma FirstFoundIsNotOptimal()
    ensures var a := [8, 7, 9];
            Scan(Prefixes(a, 10), 10, 3) == 8 && IsMaximum(a, 10, 9) && !IsMaximum(a, 10, 8)
  {
    var a := [8, 7, 9];
    var p := Prefixes(a, 10);
    assert RangeSum(a, 0, 0) == 0 && RangeSum(a, 0, 1) == 8 && RangeSum(a, 0, 2) == 15 && RangeSum(a, 0, 3) == 24;
    assert p[0] == 8 && p[1] == 5 && p[2] == 4;
    assert p == [8, 5, 4];
    assert p[..0] == [] && p[..1] == [8] && p[..2] == [8, 5];
    assert Scan(p, 10, 0) == 0 && Scan(p, 10, 1) == 8;
    assert Wrapped(p, 10, 1) == 7 && Wrapped(p, 10, 2) == 6;
    assert Scan(p, 10, 2) == 8;
    assert RangeSum(a, 2, 2) == 0 && RangeSum(a, 2, 3) == 9;
    assert Residue(a, 10, 2, 3) == 9;
  }

  // ---- elements of either sign ----

  lemma {:induction false} RemainderCongruent(a: seq<int>, m: int, n: nat)
    requires m >= 1 && n <= |a|
    ensures Remainder(a, m, n) % m == Residue(a, m, 0, n)
  {
    if n > 0 {
      RemainderCongruent(a, m, n - 1);
      PrefixStep(a, m, n - 1);
      AddResidue(Remainder(a, m, n - 1), a[n - 1], m);
      RemCongruent(Remainder(a, m, n - 1) + a[n - 1], m);
    }
  }

  lemma SameRemainder(x: int, y: int, m: int) returns (q: int)
    requires m >= 1 && x % m == y % m
    ensures x == y + q * m
  {
    q := x / m - y / m;
    Distribute(x / m, y / m, m);
  }

  lemma DifferenceResidue(sx: int, sy: int, x: int, y: int, m: int)
    requires m >= 1 && sx % m == x % m && sy % m == y % m && 0 <= x - y + m < m
    ensures (sx - sy) % m == x - y + m
  {
    var qx := SameRemainder(sx, x, m);
    var qy := SameRemainder(sy, y, m);
    Distribute(qx, qy, m);
    Distribute(qx - qy, 1, m);
    RemainderIs(sx - sy, m, qx - qy - 1, x - y + m);
  }

  // A difference of two remainders, plus m, is the residue of the subarray between them if it is
  // in range.
  lemma ResidueFromRemainders(a: seq<int>, m: int, i: nat, j: nat)
    requires m >= 1 && i <= j <= |a|
    requires 0 <= Remainder(a, m, j) - Remainder(a, m, i) + m < m
    ensures Residue(a, m, i, j) == Remainder(a, m, j) - Remainder(a, m, i) + m
  {
    RemainderCongruent(a, m, i);
    RemainderCongruent(a, m, j);
    SplitSum(a, i, j);
    DifferenceResidue(RangeSum(a, 0, j), RangeSum(a, 0, i), Remainder(a, m, j), Remainder(a, m, i), m);
  }

  lemma RemainderIsAttained(a: seq<int>, m: int, r: int)
    requires m >= 1 && 0 <= r && FromPrefix(Remainders(a, m), r)
    ensures IsResidueOfSome(a, m, r)
  {
    var p := Remainders(a, m);
    var i: nat :| i < |p| && p[i] == r;
    RemainderCongruent(a, m, i + 1);
    SmallRemainder(r, m);
    assert Residue(a, m, 0, i + 1) == r;
  }

  lemma PairIsAttained(a: seq<int>, m: int, r: int)
    requires m >= 1 && 0 <= r && FromFirstPair(Remainders(a, m), m, r)
    ensures IsResidueOfSome(a, m, r) && r < m
  {
    var p := Remainders(a, m);
    var i: nat :| i < |p| && Found(p, i).Some? && Wrapped(p, m, i) == r;
    var k := FirstFoundDescends(p, i);
    ResidueFromRemainders(a, m, k + 1, i + 1);
    assert Residue(a, m, k + 1, i + 1) == r;
  }

  // On every input the result lies between 0 and m-1, and it is 0 or the residue of some nonempty
  // subarray.
  lemma SignedResultIsSound(a: seq<int>, m: int)
    requires m >= 1
    ensures var r := Scan(Remainders(a, m), m, |a|); 0 <= r < m && (r == 0 || IsResidueOfSome(a, m, r))
  {
    var p := Remainders(a, m);
    var r := Scan(p, m, |a|);
    ScanNonNegative(p, m, |a|);
    ScanIsAttained(p, m, |a|);
    if FromPrefix(p, r) {
      RemainderIsAttained(a, m, r);
    } else if r != 0 {
      PairIsAttained(a, m, r);
    }
  }

  lemma PrefixFromRemainder(a: seq<int>, m: int, j: nat)
    requires m >= 1 && j < |a|
    ensures var x := Remainders(a, m)[j]; Prefixes(a, m)[j] == if x < 0 then x + m else x
  {
    var x := Remainder(a, m, j + 1);
    RemainderCongruent(a, m, j + 1);
    if x < 0 {
      Congruent(x + m, x, m, 1);
      SmallRemainder(x + m, m);
    } else {
      SmallRemainder(x, m);
    }
  }

  // Some prefix, or some pair that is found first, is worth x.
  ghost predicate Reaches(p: seq<int>, m: int, x: int) {
    || (exists j | 0 <= j < |p| :: p[j] >= x)
    || (exists j: nat | j < |p| :: Found(p, j).Some? && Found(p, j).value - p[j] <= m - x)
  }

  lemma ScanReachesIff(p: seq<int>, m: int, x: int)
    requires x > 0
    ensures x <= Scan(p, m, |p|) <==> Reaches(p, m, x)
  {
    ScanIsAttained(p, m, |p|);
    if j :| 0 <= j < |p| && p[j] >= x {
      ScanBounds(p, m, |p|, j);
    } else if j: nat :| j < |p| && Found(p, j).Some? && Found(p, j).value - p[j] <= m - x {
      ScanBounds(p, m, |p|, j);
    }
  }

  // For elements of either sign: each negative remainder stands for one that is larger by m, which
  // the scan must reach some other way, as it must reach what a closest pair of residues is worth.
  ghost predicate NegativesReached(p: seq<int>, m: int) {
    forall j | 0 <= j < |p| && p[j] < 0 :: Reaches(p, m, p[j] + m)
  }

  ghost predicate ClosestReached(p: seq<int>, m: int, residues: seq<int>) {
    forall gap | LeastGap(residues, gap) :: Reaches(p, m, m - gap)
  }

  lemma PrefixesBoundIff(a: seq<int>, m: int)
    requires m >= 1
    ensures var p := Remainders(a, m);
            (forall j | 0 <= j < |a| :: Prefixes(a, m)[j] <= Scan(p, m, |p|)) <==> NegativesReached(p, m)
  {
    var p, r := Remainders(a, m), Scan(Remainders(a, m), m, |a|);
    forall j: nat | j < |a|
      ensures Prefixes(a, m)[j] <= r <==> (p[j] < 0 ==> Reaches(p, m, p[j] + m))
    {
      PrefixFromRemainder(a, m, j);
      ScanBounds(p, m, |p|, j);
      if p[j] < 0 {
        ScanReachesIff(p, m, p[j] + m);
      }
    }
  }

  lemma ClosestBoundIff(p: seq<int>, m: int, residues: seq<int>)
    requires forall j | 0 <= j < |residues| :: 0 <= residues[j] < m
    ensures (forall gap | LeastGap(residues, gap) :: m - gap <= Scan(p, m, |p|)) <==> ClosestReached(p, m, residues)
  {
    forall gap | LeastGap(residues, gap)
      ensures m - gap <= Scan(p, m, |p|) <==> Reaches(p, m, m - gap)
    {
      ScanReachesIff(p, m, m - gap);
    }
  }

  // On every input the program finds the maximum exactly when it reaches these.
  lemma SignedOptimalIff(a: seq<int>, m: int)
    requires m >= 1 && |a| >= 1
    ensures var p := Remainders(a, m);
            IsMaximum(a, m, Scan(p, m, |a|)) <==> NegativesReached(p, m) && ClosestReached(p, m, Prefixes(a, m))
  {
    var r := Scan(Remainders(a, m), m, |a|);
    SignedResultIsSound(a, m);
    BoundsAllIff(a, m, r);
    LeastGapDecides(Prefixes(a, m), m, r);
    PrefixesBoundIff(a, m);
    ClosestBoundIff(Remainders(a, m), m, Prefixes(a, m));
    if BoundsAll(a, m, r) && r == 0 {
      assert Residue(a, m, 0, 1) == 0;
    }
  }

  // On [-1] modulo 10 the program answers 0, which is the residue of no subarray; 9 is the only one.
  lemma NegativeElementIsLost()
    ensures var a := [-1];
            Scan(Remainders(a, 10), 10, 1) == 0 && IsMaximum(a, 10, 9) && !IsResidueOfSome(a, 10, 0)
  {
    var a := [-1];
    assert RangeSum(a, 0, 0) == 0 && RangeSum(a, 0, 1) == -1;
    assert Residue(a, 10, 0, 1) == 9;
    var p := Remainders(a, 10);
    assert p[0] == Rem(Remainder(a, 10, 0) + -1, 10) == -1;
    assert p[..0] == [] && Scan(p, 10, 0) == 0;
  }

  // ---- the variant that line 79 describes ----

  // Keeps the smallest greater prefix instead of the first one.
  method SmallestGreater(prefixSet: array<int>, count: nat, x: int) returns (found: int)
    requires 1 <= count <= prefixSet.Length
    requires forall k | 0 <= k < count :: prefixSet[k] < LONG_MAX
    ensures forall k | 0 <= k < count - 1 && prefixSet[k] > x :: found <= prefixSet[k]
    ensures found == LONG_MAX || (found > x && exists k | 0 <= k < count - 1 :: prefixSet[k] == found)
  {
    found := LONG_MAX;
    for j := 0 to count - 1
      invariant forall k | 0 <= k < j && prefixSet[k] > x :: found <= prefixSet[k]
      invariant found == LONG_MAX || (found > x && exists k | 0 <= k < j :: prefixSet[k] == found)
    {
      if x < prefixSet[j] < found {
        found := prefixSet[j];
      }
    }
  }

  ghost predicate MaximumUpTo(a: seq<int>, m: int, n: nat, r: int)
    requires m >= 1 && n <= |a|
  {
    && (forall i: nat, j: nat | i < j <= n :: Residue(a, m, i, j) <= r)
    && (if n == 0 then r == 0 else IsResidueOfSome(a, m, r))
  }

  // What the variant's round adds: the best subarray that ends with element n.
  ghost predicate RoundFinds(p: seq<int>, m: int, n: nat, r: int, found: int, r': int)
    requires n < |p|
  {
    && (forall k | 0 <= k < n && p[k] > p[n] :: found <= p[k])
    && (found >= m || (found > p[n] && exists k | 0 <= k < n :: p[k] == found))
    && r' == Max(Max(r, p[n]), if found >= m then 0 else p[n] - found + m)
  }

  lemma VariantBound(a: seq<int>, m: int, n: nat, r: int, found: int, r': int, i: nat)
    requires m >= 1 && i <= n < |a| && RoundFinds(Prefixes(a, m), m, n, r, found, r')
    ensures Residue(a, m, i, n + 1) <= r'
  {
    var p := Prefixes(a, m);
    ResidueFromPrefixes(a, m, i, n + 1);
    SmallRemainder(0, m);
    if i > 0 {
      assert Residue(a, m, 0, i) == p[i - 1];
    }
  }

  lemma VariantAttained(a: seq<int>, m: int, n: nat, r: int, found: int, r': int)
    requires m >= 1 && n < |a| && RoundFinds(Prefixes(a, m), m, n, r, found, r')
    ensures r' == r || r' == 0 || IsResidueOfSome(a, m, r')
  {
    var p := Prefixes(a, m);
    if r' == p[n] {
      assert Residue(a, m, 0, n + 1) == r';
    } else if found < m && r' == p[n] - found + m {
      var k :| 0 <= k < n && p[k] == found;
      ResidueFromPrefixes(a, m, k + 1, n + 1);
      assert Residue(a, m, k + 1, n + 1) == r';
    }
  }

  // One round of the variant: the candidates that end at n are all accounted for.
  lemma VariantRound(a: seq<int>, m: int, n: nat, r: int, found: int, r': int)
    requires m >= 1 && n < |a| && MaximumUpTo(a, m, n, r)
    requires RoundFinds(Prefixes(a, m), m, n, r, found, r')
    ensures MaximumUpTo(a, m, n + 1, r')
  {
    forall i: nat, j: nat | i < j <= n + 1
      ensures Residue(a, m, i, j) <= r'
    {
      if j == n + 1 {
        VariantBound(a, m, n, r, found, r', i);
      }
    }
    VariantAttained(a, m, n, r, found, r');
    assert r' >= Prefixes(a, m)[n] == Residue(a, m, 0, n + 1) >= 0;
  }

  // With the smallest greater prefix the answer is the maximum on every input.
  method MaximumSumVariant(a: array<int>, m: int) returns (best: int)
    requires Valid(a[..], m)
    ensures a.Length >= 1 ==> IsMaximum(a[..], m, best)
    ensures a.Length == 0 ==> best == 0
  {
    ghost var s := a[..];
    ghost var p := Prefixes(s, m);
    best := 0;
    var prefixSum := 0;
    var prefixSet := new int[a.Length];
    for i := 0 to a.Length
      invariant a[..] == s && prefixSum == Residue(s, m, 0, i)
      invariant forall k | 0 <= k < i :: prefixSet[k] == p[k]
      invariant MaximumUpTo(s, m, i, best)
    {
      PrefixStep(s, m, i);
      prefixSum := (prefixSum + a[i]) % m;
      ghost var before := best;
      best := Max(best, prefixSum);
      prefixSet[i] := prefixSum;
      var greater := SmallestGreater(prefixSet, i + 1, prefixSum);
      assert forall k | 0 <= k < i :: prefixSet[k] == p[k];
      if greater != LONG_MAX {
        assert 0 <= prefixSum < greater < m;
        SmallRemainder(prefixSum - greater + m, m);
        best := Max(best, (prefixSum - greater + m) % m);
      }
      VariantRound(s, m, i, before, greater, best);
    }
  }
}
