/** Extremes and variance of a window of pixels around a given average, in 32-bit arithmetic.
    Line numbers refer to the file `kadapt dbg.c`. */
module PixelStatistics {
  import opened Basics

  const WORD := 0x1_0000_0000
  const LIMIT := 1024
  const WORST := 39601  // 199 squared

  datatype Pixel = Pixel(y: nat, cb: nat, cr: nat)

  datatype Channel = Y | Cb | Cr

  datatype Stats = Stats(min: int, max: int, squares: nat)

  const START := Stats(1024, 0, 0)

  function Value(p: Pixel, ch: Channel): nat {
    match ch
    case Y => p.y
    case Cb => p.cb
    case Cr => p.cr
  }

  predicate InRange(p: Pixel) {
    p.y <= LIMIT && p.cb <= LIMIT && p.cr <= LIMIT
  }

  // abs() of the difference of two unsigned words, which wraps before it is read as signed.
  function AbsDiff(x: nat, y: nat): nat {
    var d := (x - y) % WORD;
    if d >= WORD / 2 then WORD - d else d
  }

  lemma AbsDiffIsDistance(x: nat, y: nat)
    requires x <= LIMIT && y <= LIMIT
    ensures AbsDiff(x, y) == if x >= y then x - y else y - x
  {
  }

  predicate Accepted(p: Pixel, avg: Pixel) {
    AbsDiff(p.cr, avg.cr) < 200 && AbsDiff(p.y, avg.y) < 200 && AbsDiff(p.cb, avg.cb) < 200
  }

  // Lines 1218-1230, and the same for the other two channels.
  function Add(s: Stats, value: nat, average: nat): Stats {
    Stats(if value < s.min then value else s.min,
          if value > s.max then value else s.max,
          (s.squares + AbsDiff(average, value) * AbsDiff(average, value)) % WORD)
  }

  function Fold(seen: seq<Pixel>, avg: Pixel, ch: Channel): Stats {
    if seen == [] then START
    else
      var before, p := Fold(seen[..|seen| - 1], avg, ch), seen[|seen| - 1];
      if Accepted(p, avg) then Add(before, Value(p, ch), Value(avg, ch)) else before
  }

  // The pixels of a window in the order in which they are read.
  function Flat(rows: seq<seq<Pixel>>): seq<Pixel> {
    if rows == [] then [] else Flat(rows[..|rows| - 1]) + rows[|rows| - 1]
  }

  // ---- what the numbers mean ----

  ghost predicate AllInRange(seen: seq<Pixel>) {
    forall k | 0 <= k < |seen| :: InRange(seen[k])
  }

  // The sum of squared deviations, without any wrap-around.
  function Squares(seen: seq<Pixel>, avg: Pixel, ch: Channel): nat {
    if seen == [] then 0
    else
      var p := seen[|seen| - 1];
      var d := AbsDiff(Value(avg, ch), Value(p, ch));
      Squares(seen[..|seen| - 1], avg, ch) + if Accepted(p, avg) then d * d else 0
  }

  lemma SquareBound(d: nat)
    requires d < 200
    ensures d * d <= WORST
  {
    assert d * d <= d * 199 <= 199 * 199;
  }

  lemma AcceptedDeviation(p: Pixel, avg: Pixel, ch: Channel)
    requires InRange(p) && InRange(avg) && Accepted(p, avg)
    ensures AbsDiff(Value(avg, ch), Value(p, ch)) < 200
  {
    AbsDiffIsDistance(Value(p, ch), Value(avg, ch));
    AbsDiffIsDistance(Value(avg, ch), Value(p, ch));
  }

  lemma {:induction false} SquaresBound(seen: seq<Pixel>, avg: Pixel, ch: Channel)
    requires InRange(avg) && AllInRange(seen)
    ensures Squares(seen, avg, ch) <= WORST * |seen|
  {
    if seen != [] {
      var rest, p := seen[..|seen| - 1], seen[|seen| - 1];
      SquaresBound(rest, avg, ch);
      assert InRange(p);
      if Accepted(p, avg) {
        AcceptedDeviation(p, avg, ch);
        SquareBound(AbsDiff(Value(avg, ch), Value(p, ch)));
      }
      assert WORST * |seen| == WORST * |rest| + WORST;
    }
  }

  lemma WrappedSum(x: nat, y: nat)
    ensures (x % WORD + y) % WORD == (x + y) % WORD
  {
  }

  lemma {:induction false} FoldKeepsRemainder(seen: seq<Pixel>, avg: Pixel, ch: Channel)
    ensures Fold(seen, avg, ch).squares == Squares(seen, avg, ch) % WORD
  {
    if seen != [] {
      var rest, p := seen[..|seen| - 1], seen[|seen| - 1];
      FoldKeepsRemainder(rest, avg, ch);
      var d := AbsDiff(Value(avg, ch), Value(p, ch));
      WrappedSum(Squares(rest, avg, ch), d * d);
    }
  }

  const SAFE_PIXELS := 108456

  // Pixels that all deviate by 199.
  function Worst(n: nat): (seen: seq<Pixel>)
    ensures |seen| == n && forall k | 0 <= k < n :: seen[k] == Pixel(699, 500, 500)
  {
    if n == 0 then [] else Worst(n - 1) + [Pixel(699, 500, 500)]
  }

  lemma {:induction false} WorstSquares(n: nat)
    ensures Squares(Worst(n), Pixel(500, 500, 500), Y) == WORST * n
  {
    if n > 0 {
      WorstSquares(n - 1);
      assert Worst(n)[..n - 1] == Worst(n - 1);
      WorstPixel();
    }
  }

  lemma WorstPixel()
    ensures var p, avg := Pixel(699, 500, 500), Pixel(500, 500, 500);
            Accepted(p, avg) && AbsDiff(avg.y, p.y) == 199 && 199 * 199 == WORST
  {
  }

  ghost predicate NeverWraps(n: nat) {
    forall seen: seq<Pixel>, avg: Pixel, ch: Channel | |seen| == n && InRange(avg) && AllInRange(seen) ::
      Squares(seen, avg, ch) < WORD
  }

  // The 32-bit sum is exact for every stream exactly up to this many pixels; the program's
  // window of 400 by 100 is within it.
  lemma NeverWrapsIff(n: nat)
    ensures NeverWraps(n) <==> n <= SAFE_PIXELS
    ensures 400 * 100 <= SAFE_PIXELS
  {
    if n <= SAFE_PIXELS {
      forall seen: seq<Pixel>, avg: Pixel, ch: Channel | |seen| == n && InRange(avg) && AllInRange(seen)
        ensures Squares(seen, avg, ch) < WORD
      {
        SquaresBound(seen, avg, ch);
      }
    } else {
      WorstSquares(n);
      assert InRange(Pixel(500, 500, 500)) && AllInRange(Worst(n));
      assert Squares(Worst(n), Pixel(500, 500, 500), Y) >= WORD;
    }
  }

  function Mean(total: nat, n: nat): nat
    requires n > 0
  {
    total / n
  }

  // Lines 1265-1267: within the safe size the variance is that of the true sum, and at most 39601.
  lemma VarianceIsExact(seen: seq<Pixel>, avg: Pixel, ch: Channel)
    requires InRange(avg) && AllInRange(seen) && 0 < |seen| <= SAFE_PIXELS
    ensures Fold(seen, avg, ch).squares == Squares(seen, avg, ch)
    ensures Mean(Fold(seen, avg, ch).squares, |seen|) <= WORST
  {
    SquaresBound(seen, avg, ch);
    FoldKeepsRemainder(seen, avg, ch);
    FitsWord(Squares(seen, avg, ch), |seen|);
    UnwrappedIs(Squares(seen, avg, ch));
    QuotientBound(Squares(seen, avg, ch), |seen|, WORST);
  }

  lemma FitsWord(x: nat, n: nat)
    requires x <= WORST * n && n <= SAFE_PIXELS
    ensures x < WORD
  {
  }

  lemma UnwrappedIs(x: nat)
    requires x < WORD
    ensures x % WORD == x
  {
  }

  lemma QuotientBound(x: nat, n: nat, q: nat)
    requires n > 0 && x <= q * n
    ensures x / n <= q
  {
    if x / n > q {
      ScaledOrder(q + 1, x / n, n);
    }
  }

  // ---- rejected pixels ----

  // The pixels that were not rejected.
  function Kept(seen: seq<Pixel>, avg: Pixel): (kept: seq<Pixel>)
    ensures |kept| <= |seen|
  {
    if seen == [] then []
    else Kept(seen[..|seen| - 1], avg) + if Accepted(seen[|seen| - 1], avg) then [seen[|seen| - 1]] else []
  }

  lemma {:induction false} KeptSquares(seen: seq<Pixel>, avg: Pixel, ch: Channel)
    ensures Squares(Kept(seen, avg), avg, ch) == Squares(seen, avg, ch)
  {
    if seen != [] {
      var rest, p := seen[..|seen| - 1], seen[|seen| - 1];
      KeptSquares(rest, avg, ch);
      var kept := Kept(rest, avg);
      assert kept + [] == kept && (kept + [p])[..|kept|] == kept;
    }
  }

  lemma {:induction false} KeptAllIff(seen: seq<Pixel>, avg: Pixel)
    ensures |Kept(seen, avg)| == |seen| <==> forall k | 0 <= k < |seen| :: Accepted(seen[k], avg)
  {
    if seen != [] {
      var rest := seen[..|seen| - 1];
      KeptAllIff(rest, avg);
      assert forall k | 0 <= k < |rest| :: rest[k] == seen[k];
    }
  }

  // A pixel all of whose samples are less than 200 away from the averages.
  predicate Near(p: Pixel, avg: Pixel) {
    -200 < p.y - avg.y < 200 && -200 < p.cb - avg.cb < 200 && -200 < p.cr - avg.cr < 200
  }

  lemma AcceptedIffNear(p: Pixel, avg: Pixel)
    requires InRange(p) && InRange(avg)
    ensures Accepted(p, avg) <==> Near(p, avg)
  {
    AbsDiffIsDistance(p.y, avg.y);
    AbsDiffIsDistance(p.cb, avg.cb);
    AbsDiffIsDistance(p.cr, avg.cr);
  }

  // The kept pixels are exactly the near ones of the window, as often as they occur in it.
  lemma {:induction false} KeptAreNear(seen: seq<Pixel>, avg: Pixel, p: Pixel)
    requires InRange(avg) && AllInRange(seen)
    ensures multiset(Kept(seen, avg))[p] == if Near(p, avg) then multiset(seen)[p] else 0
  {
    if seen != [] {
      var rest, last := seen[..|seen| - 1], seen[|seen| - 1];
      KeptAreNear(rest, avg, p);
      assert InRange(last) && seen == rest + [last];
      AcceptedIffNear(last, avg);
    }
  }

  function Square(d: int): nat {
    d * d
  }

  // The sum of squared deviations in plain integers.
  function Deviations(kept: seq<Pixel>, avg: Pixel, ch: Channel): nat {
    if kept == [] then 0
    else Deviations(kept[..|kept| - 1], avg, ch) + Square(Value(kept[|kept| - 1], ch) - Value(avg, ch))
  }

  lemma SquaredDistance(x: nat, y: nat)
    requires x <= LIMIT && y <= LIMIT
    ensures AbsDiff(x, y) * AbsDiff(x, y) == Square(y - x)
  {
    AbsDiffIsDistance(x, y);
  }

  lemma SquaresGrow(seen: seq<Pixel>, avg: Pixel, ch: Channel, p: Pixel)
    requires InRange(avg) && InRange(p)
    ensures Squares(seen + [p], avg, ch) ==
            Squares(seen, avg, ch) + if Accepted(p, avg) then Square(Value(p, ch) - Value(avg, ch)) else 0
  {
    assert (seen + [p])[..|seen|] == seen;
    SquaredDistance(Value(avg, ch), Value(p, ch));
  }

  lemma KeptGrow(seen: seq<Pixel>, avg: Pixel, p: Pixel)
    ensures Kept(seen + [p], avg) == if Accepted(p, avg) then Kept(seen, avg) + [p] else Kept(seen, avg)
  {
    assert (seen + [p])[..|seen|] == seen;
  }

  lemma {:induction false} SquaresAreDeviations(seen: seq<Pixel>, avg: Pixel, ch: Channel)
    requires InRange(avg) && AllInRange(seen)
    ensures Squares(seen, avg, ch) == Deviations(Kept(seen, avg), avg, ch)
  {
    if seen != [] {
      var rest, p := seen[..|seen| - 1], seen[|seen| - 1];
      SquaresAreDeviations(rest, avg, ch);
      assert seen == rest + [p] && InRange(p);
      SquaresGrow(rest, avg, ch, p);
      KeptGrow(rest, avg, p);
      DeviationsGrow(Kept(rest, avg), avg, ch, p);
    }
  }

  lemma DeviationsGrow(kept: seq<Pixel>, avg: Pixel, ch: Channel, p: Pixel)
    ensures Deviations(kept + [p], avg, ch) == Deviations(kept, avg, ch) + Square(Value(p, ch) - Value(avg, ch))
  {
    assert (kept + [p])[..|kept|] == kept;
  }

  // A window of one pixel: its own samples in each channel if it is near, and the initial values if not.
  lemma OnePixel(p: Pixel, avg: Pixel)
    requires InRange(p) && InRange(avg)
    ensures Near(p, avg) ==>
              && Fold([p], avg, Y) == Stats(p.y, p.y, Square(p.y - avg.y))
              && Fold([p], avg, Cb) == Stats(p.cb, p.cb, Square(p.cb - avg.cb))
              && Fold([p], avg, Cr) == Stats(p.cr, p.cr, Square(p.cr - avg.cr))
    ensures !Near(p, avg) ==> forall ch: Channel :: Fold([p], avg, ch) == Stats(1024, 0, 0)
  {
    AcceptedIffNear(p, avg);
    assert [p][..0] == [];
    if Near(p, avg) {
      OneSample(p.y, avg.y);
      OneSample(p.cb, avg.cb);
      OneSample(p.cr, avg.cr);
    }
  }

  lemma OneSample(x: nat, average: nat)
    requires x <= LIMIT && average <= LIMIT && -200 < x - average < 200
    ensures Add(START, x, average) == Stats(x, x, Square(x - average))
  {
    AbsDiffIsDistance(average, x);
    SquareBound(AbsDiff(average, x));
    SquaredDistance(average, x);
    UnwrappedIs(AbsDiff(average, x) * AbsDiff(average, x));
  }

  lemma QuotientIs(x: nat, n: nat, q: nat)
    requires n > 0
    ensures x / n == q <==> q * n <= x < (q + 1) * n
  {
    var r := x / n;
    assert r * n <= x < (r + 1) * n;
    if q < r {
      ScaledOrder(q + 1, r, n);
    } else if r < q {
      ScaledOrder(r + 1, q, n);
    }
  }

  lemma SmallerDivisor(x: nat, c: nat, n: nat)
    requires 0 < c <= n
    ensures Mean(x, n) <= Mean(x, c)
    ensures Mean(x, n) == Mean(x, c) <==> x < (Mean(x, n) + 1) * c
  {
    var v, w := Mean(x, n), Mean(x, c);
    QuotientIs(x, n, v);
    QuotientIs(x, c, v);
    QuotientIs(x, c, w);
    ScaledOrder(c, n, v);
    if v > w {
      ScaledOrder(w + 1, v, c);
    }
  }

  // A rejected pixel adds nothing to the sum and still counts in the divisor. So the printed value
  // never exceeds the variance of the accepted pixels, and is equal to it exactly when the sum
  // leaves the same quotient; in particular when nothing was rejected.
  lemma RejectedPixelsDilute(seen: seq<Pixel>, avg: Pixel, ch: Channel)
    requires Kept(seen, avg) != []
    ensures var kept, v := Kept(seen, avg), Mean(Squares(seen, avg, ch), |seen|);
            && v <= Mean(Squares(kept, avg, ch), |kept|)
            && (v == Mean(Squares(kept, avg, ch), |kept|) <==> Squares(kept, avg, ch) < (v + 1) * |kept|)
            && ((forall k | 0 <= k < |seen| :: Accepted(seen[k], avg)) ==> v == Mean(Squares(kept, avg, ch), |kept|))
  {
    KeptSquares(seen, avg, ch);
    KeptAllIff(seen, avg);
    SmallerDivisor(Squares(seen, avg, ch), |Kept(seen, avg)|, |seen|);
  }

  // With c accepted pixels out of n the two agree, whatever the pixels are.
  ghost predicate NeverDiluted(n: nat, c: nat)
    requires 0 < c <= n
  {
    forall seen: seq<Pixel>, avg: Pixel, ch: Channel
      | |seen| == n && |Kept(seen, avg)| == c && InRange(avg) && AllInRange(seen) ::
      Mean(Squares(seen, avg, ch), n) == Mean(Squares(Kept(seen, avg), avg, ch), c)
  }

  // They do exactly if nothing was rejected, however few pixels there are.
  lemma NeverDilutedIff(n: nat, c: nat)
    requires 0 < c <= n
    ensures NeverDiluted(n, c) <==> c == n
  {
    if c == n {
      forall seen: seq<Pixel>, avg: Pixel, ch: Channel | |seen| == n && |Kept(seen, avg)| == c
        ensures Mean(Squares(seen, avg, ch), n) == Mean(Squares(Kept(seen, avg), avg, ch), c)
      {
        KeptSquares(seen, avg, ch);
      }
    } else {
      DilutedWindow(n, c);
    }
  }

  // c pixels that all deviate by 199, and then pixels that are rejected.
  function Mixed(c: nat, rejected: nat): (seen: seq<Pixel>)
    ensures |seen| == c + rejected && AllInRange(seen)
  {
    if rejected == 0 then Worst(c) else Mixed(c, rejected - 1) + [Pixel(900, 500, 500)]
  }

  lemma {:induction false} WorstKept(n: nat)
    ensures Kept(Worst(n), Pixel(500, 500, 500)) == Worst(n)
  {
    if n > 0 {
      WorstKept(n - 1);
      WorstPixel();
      assert Worst(n)[..n - 1] == Worst(n - 1);
    }
  }

  lemma {:induction false} MixedKept(c: nat, rejected: nat)
    ensures Kept(Mixed(c, rejected), Pixel(500, 500, 500)) == Worst(c)
  {
    if rejected == 0 {
      WorstKept(c);
    } else {
      MixedKept(c, rejected - 1);
      FarPixel();
      KeptGrow(Mixed(c, rejected - 1), Pixel(500, 500, 500), Pixel(900, 500, 500));
    }
  }

  lemma FarPixel()
    ensures !Accepted(Pixel(900, 500, 500), Pixel(500, 500, 500))
  {
  }

  lemma DilutedWindow(n: nat, c: nat)
    requires 0 < c < n
    ensures !NeverDiluted(n, c)
  {
    var seen, avg := Mixed(c, n - c), Pixel(500, 500, 500);
    MixedKept(c, n - c);
    KeptSquares(seen, avg, Y);
    WorstSquares(c);
    QuotientIs(WORST * c, c, WORST);
    QuotientIs(WORST * c, n, WORST);
    assert Mean(Squares(seen, avg, Y), n) != WORST == Mean(Squares(Kept(seen, avg), avg, Y), c);
  }

  // One of two pixels is rejected: 5000 is printed where the accepted one deviates by 100.
  lemma RejectedPixelHalvesVariance()
    ensures var avg, seen := Pixel(500, 500, 500), [Pixel(600, 500, 500), Pixel(900, 500, 500)];
            && Kept(seen, avg) == [seen[0]]
            && Mean(Fold(seen, avg, Y).squares, 2) == 5000 && Mean(Squares(Kept(seen, avg), avg, Y), 1) == 10000
  {
    var avg, p, q := Pixel(500, 500, 500), Pixel(600, 500, 500), Pixel(900, 500, 500);
    assert [p, q][..1] == [p] && [p][..0] == [];
    assert AbsDiff(500, 600) == 100 && AbsDiff(900, 500) == 400;
    assert Kept([p], avg) == [p];
  }

  ghost predicate AcceptedAt(seen: seq<Pixel>, avg: Pixel, k: nat) {
    k < |seen| && Accepted(seen[k], avg)
  }

  lemma {:induction false} ExtremesBound(seen: seq<Pixel>, avg: Pixel, ch: Channel, k: nat)
    requires AcceptedAt(seen, avg, k)
    ensures var s := Fold(seen, avg, ch); s.min <= Value(seen[k], ch) <= s.max
  {
    if k < |seen| - 1 {
      ExtremesBound(seen[..|seen| - 1], avg, ch, k);
    }
  }

  lemma {:induction false} ExtremesAttained(seen: seq<Pixel>, avg: Pixel, ch: Channel) returns (lo: nat, hi: nat)
    requires AllInRange(seen) && exists k: nat :: AcceptedAt(seen, avg, k)
    ensures AcceptedAt(seen, avg, lo) && AcceptedAt(seen, avg, hi)
    ensures var s := Fold(seen, avg, ch); s.min == Value(seen[lo], ch) && s.max == Value(seen[hi], ch)
  {
    var rest, last := seen[..|seen| - 1], |seen| - 1;
    assert InRange(seen[last]);
    if exists k: nat :: AcceptedAt(rest, avg, k) {
      lo, hi := ExtremesAttained(rest, avg, ch);
      if Accepted(seen[last], avg) {
        var v := Value(seen[last], ch);
        if v < Fold(rest, avg, ch).min {
          lo := last;
        }
        if v > Fold(rest, avg, ch).max {
          hi := last;
        }
      }
    } else {
      var k: nat :| AcceptedAt(seen, avg, k);
      assert k == last by {
        if k < last {
          assert AcceptedAt(rest, avg, k);
        }
      }
      lo, hi := last, last;
      NothingAccepted(rest, avg, ch);
    }
  }

  lemma {:induction false} NothingAccepted(seen: seq<Pixel>, avg: Pixel, ch: Channel)
    requires forall k: nat :: !AcceptedAt(seen, avg, k)
    ensures Fold(seen, avg, ch) == START
  {
    if seen != [] {
      var rest := seen[..|seen| - 1];
      assert !AcceptedAt(seen, avg, |seen| - 1);
      forall k: nat
        ensures !AcceptedAt(rest, avg, k)
      {
        assert !AcceptedAt(seen, avg, k);
      }
      NothingAccepted(rest, avg, ch);
    }
  }

  // If any pixel was accepted, the reported extremes are exactly those of the accepted samples,
  // and they are at most 398 apart.
  lemma ExtremesAreExact(seen: seq<Pixel>, avg: Pixel, ch: Channel)
    requires InRange(avg) && AllInRange(seen) && exists k: nat :: AcceptedAt(seen, avg, k)
    ensures var s := Fold(seen, avg, ch);
            && (forall k: nat | AcceptedAt(seen, avg, k) :: s.min <= Value(seen[k], ch) <= s.max)
            && (exists k: nat :: AcceptedAt(seen, avg, k) && Value(seen[k], ch) == s.min)
            && (exists k: nat :: AcceptedAt(seen, avg, k) && Value(seen[k], ch) == s.max)
            && 0 <= s.max - s.min <= 398
  {
    forall k: nat | AcceptedAt(seen, avg, k)
      ensures var s := Fold(seen, avg, ch); s.min <= Value(seen[k], ch) <= s.max
    {
      ExtremesBound(seen, avg, ch, k);
    }
    var lo, hi := ExtremesAttained(seen, avg, ch);
    assert InRange(seen[lo]) && InRange(seen[hi]);
    AbsDiffIsDistance(Value(seen[lo], ch), Value(avg, ch));
    AbsDiffIsDistance(Value(seen[hi], ch), Value(avg, ch));
  }

  // ---- the program ----

  // The loops of lines 1194-1264. Each entry of `rows` is the reading that ended the retry loop of
  // its pixel.
  method Measure(rows: seq<seq<Pixel>>, width: nat, avg: Pixel) returns (y: Stats, cb: Stats, cr: Stats)
    requires forall i | 0 <= i < |rows| :: |rows[i]| == width
    ensures y == Fold(Flat(rows), avg, Y) && cb == Fold(Flat(rows), avg, Cb) && cr == Fold(Flat(rows), avg, Cr)
  {
    y, cb, cr := START, START, START;
    for i := 0 to |rows|
      invariant y == Fold(Flat(rows[..i]), avg, Y)
      invariant cb == Fold(Flat(rows[..i]), avg, Cb)
      invariant cr == Fold(Flat(rows[..i]), avg, Cr)
    {
      ghost var done := Flat(rows[..i]);
      assert done + rows[i][..0] == done;
      for j := 0 to width
        invariant y == Fold(done + rows[i][..j], avg, Y)
        invariant cb == Fold(done + rows[i][..j], avg, Cb)
        invariant cr == Fold(done + rows[i][..j], avg, Cr)
      {
        var p := rows[i][j];
        assert done + rows[i][..j + 1] == (done + rows[i][..j]) + [p];
        assert ((done + rows[i][..j]) + [p])[..|done| + j] == done + rows[i][..j];
        if AbsDiff(p.cr, avg.cr) < 200 && AbsDiff(p.y, avg.y) < 200 && AbsDiff(p.cb, avg.cb) < 200 {
          y := Add(y, p.y, avg.y);
          cb := Add(cb, p.cb, avg.cb);
          cr := Add(cr, p.cr, avg.cr);
        }
      }
      assert rows[i][..width] == rows[i];
      assert rows[..i + 1][..i] == rows[..i];
    }
    assert rows[..|rows|] == rows;
  }

  lemma {:induction false} FlatLength(rows: seq<seq<Pixel>>, width: nat)
    requires forall i | 0 <= i < |rows| :: |rows[i]| == width
    ensures |Flat(rows)| == |rows| * width
  {
    if rows != [] {
      FlatLength(rows[..|rows| - 1], width);
      assert |rows| * width == (|rows| - 1) * width + width;
    }
  }

  // What the printed variance of one channel is: the squared deviations of the accepted pixels,
  // divided by the number of all pixels.
  ghost predicate CorrectVariance(window: seq<Pixel>, avg: Pixel, ch: Channel, v: int) {
    0 < |window| && v == Mean(Deviations(Kept(window, avg), avg, ch), |window|) && 0 <= v <= WORST
  }

  // Lines 1194-1267.
  method MeasureWindow(rows: seq<seq<Pixel>>, width: nat, avg: Pixel)
    returns (y: Stats, cb: Stats, cr: Stats, varY: int, varCb: int, varCr: int)
    requires forall i | 0 <= i < |rows| :: |rows[i]| == width
    requires 0 < |rows| * width <= SAFE_PIXELS && InRange(avg) && AllInRange(Flat(rows))
    ensures y == Fold(Flat(rows), avg, Y) && cb == Fold(Flat(rows), avg, Cb) && cr == Fold(Flat(rows), avg, Cr)
    ensures CorrectVariance(Flat(rows), avg, Y, varY)
    ensures CorrectVariance(Flat(rows), avg, Cb, varCb)
    ensures CorrectVariance(Flat(rows), avg, Cr, varCr)
  {
    y, cb, cr := Measure(rows, width, avg);
    var n := |rows| * width;
    FlatLength(rows, width);
    VarianceIsExact(Flat(rows), avg, Y);
    SquaresAreDeviations(Flat(rows), avg, Y);
    VarianceIsExact(Flat(rows), avg, Cb);
    SquaresAreDeviations(Flat(rows), avg, Cb);
    VarianceIsExact(Flat(rows), avg, Cr);
    SquaresAreDeviations(Flat(rows), avg, Cr);
    varY, varCb, varCr := Mean(y.squares, n), Mean(cb.squares, n), Mean(cr.squares, n);
  }
}
