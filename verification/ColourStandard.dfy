/** The colour standard and timing that the decoder reports, with the hysteresis that three static
    variables keep between calls. Standards are numbered as in the default timing table.
    Line numbers refer to the file `kadaptor.c`. */
module ColourStandard {
  import opened Basics

  const DEFAULT := 0
  const NTSC_M := 1
  const NTSC_443 := 3
  const PAL_BG := 4
  const PAL_N := 5
  const PAL_CN := 7
  const PAL_60 := 8
  const SECAM := 9
  const NON_STANDARD := 10

  // One row of the default timing table (lines 189-204).
  datatype Geometry = Geometry(hFreq: nat, hTotal: nat, hStart: nat, vStart: nat, hSize: nat, vSize: nat)

  const GEOMETRY_60 := Geometry(157, 858, 96, 18, 704, 480)
  const GEOMETRY_50 := Geometry(156, 864, 93, 22, 704, 576)
  const VFREQ_60 := 599
  const VFREQ_50 := 500

  // What one call reads from the driver and from the settings of the module.
  datatype Input = Input(raw: int, stableCount: int, vFreq: nat, status: Status,
                         ntscOnly: bool, rfSource: bool, ioctl: int)

  datatype Status = Status(chromaLock: bool, palDetected: bool, secamDetected: bool,
                           cs0ChromaLock: bool, cs0SecamDetected: bool)

  datatype Output = Output(standard: int, vFreq: nat, geometry: Geometry, ret: int)

  datatype Memory = Memory(prev: int, locked: int, prevVFreq: nat)

  const POWER_ON := Memory(DEFAULT, DEFAULT, 0)

  // Lines 880-912.
  function Needed(i: Input): int {
    if i.raw == PAL_BG && i.status.cs0ChromaLock && i.status.cs0SecamDetected then 8
    else if i.ntscOnly then 1
    else 3
  }

  // Lines 914-916.
  predicate ColourLock(i: Input) {
    || (NTSC_M <= i.raw <= NTSC_443 && i.status.chromaLock)
    || (PAL_BG <= i.raw <= PAL_60 && i.status.chromaLock && i.status.palDetected)
    || (i.raw == SECAM && i.status.secamDetected)
  }

  predicate OutOfRange(raw: int) {
    raw >= NON_STANDARD || raw < NTSC_M
  }

  // The three cases that matter.
  function Decide(prev: int, i: Input): int {
    if OutOfRange(i.raw) then NON_STANDARD
    else if i.stableCount < Needed(i) then prev
    else i.raw
  }

  predicate Is50Hz(standard: int) {
    standard == PAL_BG || standard == PAL_N || standard == PAL_CN || standard == SECAM
  }

  function Remember(m: Memory, standard: int): Memory {
    var m1 := if m.prev != standard
              then m.(prev := standard, locked := if standard < NON_STANDARD then standard else m.locked)
              else m;
    m1.(prevVFreq := if Is50Hz(m1.locked) then VFREQ_50 else VFREQ_60)
  }

  function Step(m: Memory, i: Input): (Memory, Output) {
    var standard := Decide(m.prev, i);
    var m' := Remember(m, standard);
    (m', Output(standard, m'.prevVFreq, if i.vFreq > 550 then GEOMETRY_60 else GEOMETRY_50, i.ioctl))
  }

  class TimingReader {
    // The function's static variables.
    var prevStandard: int
    var lockedStandard: int
    var prevVFreq: nat

    ghost function Memorised(): Memory
      reads this
    {
      Memory(prevStandard, lockedStandard, prevVFreq)
    }

    constructor ()
      ensures Memorised() == POWER_ON
    {
      prevStandard, lockedStandard, prevVFreq := DEFAULT, DEFAULT, 0;
    }

    // The call as written (lines 865-1048). Without an initialised device or a place for the
    // result nothing is remembered and nothing reported.
    method GetTimingInfo(deviceReady: bool, hasTarget: bool, i: Input) returns (reported: Option<Output>)
      modifies this
      ensures !deviceReady || !hasTarget ==> reported.None? && Memorised() == old(Memorised())
      ensures deviceReady && hasTarget ==>
                reported.Some? && (Memorised(), reported.value) == Step(old(Memorised()), i)
      ensures deviceReady && hasTarget ==>
                (reported.value.standard == NON_STANDARD <==>
                 OutOfRange(i.raw) || (i.stableCount < Needed(i) && old(prevStandard) == NON_STANDARD))
      ensures deviceReady && hasTarget ==> reported.value.ret == i.ioctl
    {
      if !deviceReady || !hasTarget {
        return None;
      }
      var stable := 3;
      if i.raw == PAL_BG && i.status.cs0ChromaLock && i.status.cs0SecamDetected {
        stable := 8;
      } else if i.ntscOnly {
        stable := 1;
      }
      var standard := i.raw;
      if ColourLock(i) && i.stableCount >= stable {
      } else if i.raw >= NON_STANDARD || i.raw < NTSC_M {
        standard := NON_STANDARD;
      } else if (i.stableCount < stable && !i.rfSource) || (i.stableCount < stable && i.rfSource) {
        standard := prevStandard;
      }
      if prevStandard != standard {
        prevStandard := standard;
        if prevStandard < NON_STANDARD {
          lockedStandard := prevStandard;
        }
      }
      var geometry, vFreq;
      if i.vFreq > 550 {
        geometry, vFreq := GEOMETRY_60, VFREQ_60;
      } else {
        geometry, vFreq := GEOMETRY_50, VFREQ_50;
      }
      if lockedStandard == PAL_BG || lockedStandard == PAL_N || lockedStandard == PAL_CN || lockedStandard == SECAM {
        vFreq := VFREQ_50;
      } else {
        vFreq := VFREQ_60;
      }
      if prevVFreq != vFreq {
        prevVFreq := vFreq;
      }
      reported := Some(Output(standard, vFreq, geometry, i.ioctl));
    }
  }

  // ---- whole histories ----

  function After(inputs: seq<Input>): Memory {
    if inputs == [] then POWER_ON else Step(After(inputs[..|inputs| - 1]), inputs[|inputs| - 1]).0
  }

  // The output of the last call of a nonempty history.
  function Last(inputs: seq<Input>): Output
    requires inputs != []
  {
    Step(After(inputs[..|inputs| - 1]), inputs[|inputs| - 1]).1
  }

  // The output of call k.
  function At(inputs: seq<Input>, k: nat): Output
    requires k < |inputs|
  {
    Last(inputs[..k + 1])
  }

  // The most recent reported standard below NON_STANDARD, or DEFAULT.
  function LastSupported(inputs: seq<Input>): int {
    if inputs == [] then DEFAULT
    else if Last(inputs).standard < NON_STANDARD then Last(inputs).standard
    else LastSupported(inputs[..|inputs| - 1])
  }

  lemma {:induction false} LockedIsLastSupported(inputs: seq<Input>)
    ensures var m := After(inputs);
            && m.locked == LastSupported(inputs)
            && (m.prev < NON_STANDARD ==> m.prev == m.locked)
            && (inputs != [] ==> m.prev == Last(inputs).standard)
            && DEFAULT <= m.prev <= NON_STANDARD && DEFAULT <= m.locked < NON_STANDARD
  {
    if inputs != [] {
      LockedIsLastSupported(inputs[..|inputs| - 1]);
    }
  }

  // The reported field rate follows the last supported standard and nothing else.
  lemma VFreqFollowsStandard(inputs: seq<Input>)
    requires inputs != []
    ensures var standard := LastSupported(inputs);
            Last(inputs).vFreq ==
            if standard == PAL_BG || standard == PAL_N || standard == PAL_CN || standard == SECAM then 500 else 599
  {
    LockedIsLastSupported(inputs);
  }

  // Two histories that differ at most in the raw field rates (and in ioctl results).
  ghost predicate SameButVFreq(a: seq<Input>, b: seq<Input>) {
    |a| == |b| && forall k | 0 <= k < |a| :: a[k].(vFreq := 0, ioctl := 0) == b[k].(vFreq := 0, ioctl := 0)
  }

  lemma {:induction false} VFreqIgnoresRawVFreq(a: seq<Input>, b: seq<Input>)
    requires SameButVFreq(a, b)
    ensures After(a) == After(b)
    ensures a != [] ==> Last(a).vFreq == Last(b).vFreq && Last(a).standard == Last(b).standard
  {
    if a != [] {
      VFreqIgnoresRawVFreq(a[..|a| - 1], b[..|b| - 1]);
      var x, y := a[|a| - 1], b[|b| - 1];
      assert x.(vFreq := 0, ioctl := 0) == y.(vFreq := 0, ioctl := 0);
      assert x == y.(vFreq := x.vFreq, ioctl := x.ioctl);
    }
  }

  // The geometry, on the other hand, does follow the raw field rate, so that the two can disagree.
  lemma GeometryCanDisagree(inputs: seq<Input>)
    requires inputs != []
    ensures (Last(inputs).geometry == GEOMETRY_60) == (inputs[|inputs| - 1].vFreq > 550)
    ensures (Last(inputs).geometry == GEOMETRY_60 <==> Last(inputs).vFreq == VFREQ_60)
       <==> (inputs[|inputs| - 1].vFreq > 550 <==> !Is50Hz(LastSupported(inputs)))
  {
    VFreqFollowsStandard(inputs);
  }

  // A stable NTSC_M signal read with a field rate of 500: the rate of 60 Hz is reported together
  // with the geometry of 50 Hz.
  lemma GeometryDisagrees()
    ensures var i := Input(NTSC_M, 3, 500, Status(true, false, false, false, false), false, false, 0);
            Last([i]) == Output(NTSC_M, 599, Geometry(156, 864, 93, 22, 704, 576), 0)
  {
    var i := Input(NTSC_M, 3, 500, Status(true, false, false, false, false), false, false, 0);
    assert [i][..0] == [];
  }

  // A stable PAL_BG signal read with a field rate of 599: the other way round.
  lemma GeometryDisagreesAt50()
    ensures var i := Input(PAL_BG, 3, 599, Status(true, true, false, false, false), false, false, 0);
            Last([i]) == Output(PAL_BG, 500, Geometry(157, 858, 96, 18, 704, 480), 0)
  {
    var i := Input(PAL_BG, 3, 599, Status(true, true, false, false, false), false, false, 0);
    assert [i][..0] == [];
  }

  // PAL and SECAM are both locked in, so that PAL_BG must prove itself for longer.
  predicate DoubleLock(i: Input) {
    i.raw == PAL_BG && i.status.cs0ChromaLock && i.status.cs0SecamDetected
  }

  // What was reported before the last call.
  function ReportBefore(inputs: seq<Input>): int
    requires inputs != []
  {
    if |inputs| == 1 then DEFAULT else Last(inputs[..|inputs| - 1]).standard
  }

  // What each call reports, over any history: a reading in range once it was stable for 8 calls with
  // the double lock, otherwise for 1 call in an NTSC-only system and for 3 in any other, whatever was
  // reported before; the previous report as long as it was not; and NON_STANDARD out of range.
  lemma StableReadingIsReported(inputs: seq<Input>)
    requires inputs != []
    ensures var i, standard := inputs[|inputs| - 1], Last(inputs).standard;
            && (1 <= i.raw <= 9 && i.stableCount >= 8 ==> standard == i.raw)
            && (1 <= i.raw <= 9 && i.stableCount >= 3 && !DoubleLock(i) ==> standard == i.raw)
            && (1 <= i.raw <= 9 && i.stableCount >= 1 && !DoubleLock(i) && i.ntscOnly ==> standard == i.raw)
            && (1 <= i.raw <= 9 && i.stableCount < 8 && DoubleLock(i) ==> standard == ReportBefore(inputs))
            && (1 <= i.raw <= 9 && i.stableCount < 3 && !i.ntscOnly ==> standard == ReportBefore(inputs))
            && (1 <= i.raw <= 9 && i.stableCount < 1 ==> standard == ReportBefore(inputs))
            && (!(1 <= i.raw <= 9) ==> standard == NON_STANDARD)
  {
    LockedIsLastSupported(inputs[..|inputs| - 1]);
  }

  lemma PrefixAfter(inputs: seq<Input>, k: nat)
    requires k < |inputs|
    ensures After(inputs[..k + 1]).prev == At(inputs, k).standard
  {
    LockedIsLastSupported(inputs[..k + 1]);
  }

  // Once anything but DEFAULT was reported, DEFAULT is never reported again.
  lemma {:induction false} DefaultNeverReturns(inputs: seq<Input>, j: nat, k: nat)
    requires j <= k < |inputs| && At(inputs, j).standard != DEFAULT
    ensures At(inputs, k).standard != DEFAULT
    decreases k
  {
    if j < k {
      DefaultNeverReturns(inputs, j, k - 1);
      PrefixAfter(inputs, k - 1);
      assert inputs[..k + 1][..k] == inputs[..k];
    }
  }

  // A report of a supported standard that differs from the one before has been stable for as
  // long as required, and it is what the decoder saw.
  lemma ChangeNeedsStability(inputs: seq<Input>, k: nat)
    requires 0 < k < |inputs|
    requires At(inputs, k).standard != At(inputs, k - 1).standard && At(inputs, k).standard < NON_STANDARD
    ensures inputs[k].raw == At(inputs, k).standard && inputs[k].stableCount >= Needed(inputs[k]) >= 1
  {
    PrefixAfter(inputs, k - 1);
    assert inputs[..k + 1][..k] == inputs[..k];
  }
}
