/** One-time-programmable calibration slots: six 16-bit values as twelve bytes, written only into
    an empty slot and read back for comparison.
    Line numbers refer to the file `kadaptor.c`. */
module OtpStore {

  const SIZE := 12
  const RET_OK := 0
  const RET_ERROR := -1

  type Bytes = s: seq<bv8> | |s| == SIZE witness [0, 0, 0, 0, 0, 0, 0, 0, 0, 0, 0, 0]

  const ZEROES: Bytes := [0, 0, 0, 0, 0, 0, 0, 0, 0, 0, 0, 0]

  datatype Gain = Gain(r: bv16, g: bv16, b: bv16)
  datatype Offset = Offset(r: bv16, g: bv16, b: bv16)

  function High(x: bv16): bv8 {
    ((x >> 8) & 0xFF) as bv8
  }

  function Low(x: bv16): bv8 {
    (x & 0xFF) as bv8
  }

  function Join(high: bv8, low: bv8): bv16 {
    ((high as bv16) << 8) | (low as bv16)
  }

  function Encode(gain: Gain, offset: Offset): Bytes {
    [High(gain.r), Low(gain.r), High(gain.g), Low(gain.g), High(gain.b), Low(gain.b),
     High(offset.r), Low(offset.r), High(offset.g), Low(offset.g), High(offset.b), Low(offset.b)]
  }

  function DecodeGain(d: Bytes): Gain {
    Gain(Join(d[0], d[1]), Join(d[2], d[3]), Join(d[4], d[5]))
  }

  function DecodeOffset(d: Bytes): Offset {
    Offset(Join(d[6], d[7]), Join(d[8], d[9]), Join(d[10], d[11]))
  }

  lemma JoinSplit(x: bv16)
    ensures Join(High(x), Low(x)) == x
  {
  }

  lemma SplitJoin(h: bv8, l: bv8)
    ensures High(Join(h, l)) == h && Low(Join(h, l)) == l
  {
  }

  // The two directions of the round trip.
  lemma DecodeEncode(gain: Gain, offset: Offset)
    ensures DecodeGain(Encode(gain, offset)) == gain && DecodeOffset(Encode(gain, offset)) == offset
  {
    JoinSplit(gain.r); JoinSplit(gain.g); JoinSplit(gain.b);
    JoinSplit(offset.r); JoinSplit(offset.g); JoinSplit(offset.b);
  }

  lemma EncodeDecode(d: Bytes)
    ensures Encode(DecodeGain(d), DecodeOffset(d)) == d
  {
    SplitJoin(d[0], d[1]); SplitJoin(d[2], d[3]); SplitJoin(d[4], d[5]);
    SplitJoin(d[6], d[7]); SplitJoin(d[8], d[9]); SplitJoin(d[10], d[11]);
  }

  // The more significant byte of each value comes first, and the values come in this order.
  lemma BytesInOrder()
    ensures High(0x0102) == 0x01 && Low(0x0102) == 0x02
    ensures Encode(Gain(0x0102, 0x0304, 0x0506), Offset(0x0708, 0x090A, 0x0B0C)) ==
            [1, 2, 3, 4, 5, 6, 7, 8, 9, 10, 11, 12]
  {
  }

  // The contents of all slots; a slot never written is all zeroes.
  type Slots = map<int, Bytes>

  function Slot(slots: Slots, index: int): Bytes {
    if index in slots then slots[index] else ZEROES
  }

  // Later chips have only the slot with index 0.
  predicate Supported(newChip: bool, index: int) {
    !(newChip && index > 0)
  }

  datatype Request = Request(index: int, write: bool, gain: Gain, offset: Offset)

  // The effect of one request, and whether it is reported as done.
  function Apply(slots: Slots, newChip: bool, q: Request): (Slots, bool) {
    var data := Encode(q.gain, q.offset);
    if !Supported(newChip, q.index) then (slots, false)
    else if !q.write then (slots, Slot(slots, q.index) == data)
    else if Slot(slots, q.index) != ZEROES then (slots, false)
    else (slots[q.index := data], true)
  }

  function ApplyAll(slots: Slots, newChip: bool, requests: seq<Request>): Slots {
    if requests == [] then slots
    else Apply(ApplyAll(slots, newChip, requests[..|requests| - 1]), newChip, requests[|requests| - 1]).0
  }

  class OtpAdapter {
    const newChip: bool
    var slots: Slots

    constructor (newChip: bool, slots: Slots)
      ensures this.newChip == newChip && this.slots == slots
    {
      this.newChip, this.slots := newChip, slots;
    }

    // The faithful store behind the two calls into the secure engine.
    method StoreGet(index: int) returns (ret: int, data: Bytes)
      ensures ret == RET_OK && data == Slot(slots, index)
    {
      ret, data := RET_OK, if index in slots then slots[index] else ZEROES;
    }

    method StoreSet(index: int, data: Bytes) returns (ret: int)
      modifies this
      ensures ret == RET_OK && slots == old(slots)[index := data]
    {
      slots := slots[index := data];
      ret := RET_OK;
    }

    // Lines 2651-2666.
    method GetGain(index: int) returns (ret: int, gain: Gain)
      ensures ret == if Supported(newChip, index) then RET_OK else RET_ERROR
      ensures gain == if Supported(newChip, index) then DecodeGain(Slot(slots, index)) else Gain(0, 0, 0)
    {
      var data: Bytes := ZEROES;
      ret := RET_ERROR;
      if !(newChip && index > 0) {
        ret, data := StoreGet(index);
      }
      gain := Gain(Join(data[0], data[1]), Join(data[2], data[3]), Join(data[4], data[5]));
    }

    // Lines 2676-2691.
    method GetOffset(index: int) returns (ret: int, offset: Offset)
      ensures ret == if Supported(newChip, index) then RET_OK else RET_ERROR
      ensures offset == if Supported(newChip, index) then DecodeOffset(Slot(slots, index)) else Offset(0, 0, 0)
    {
      var data: Bytes := ZEROES;
      ret := RET_ERROR;
      if !(newChip && index > 0) {
        ret, data := StoreGet(index);
      }
      offset := Offset(Join(data[6], data[7]), Join(data[8], data[9]), Join(data[10], data[11]));
    }

    // Lines 2703-2766.
    method SetGainOffset(q: Request) returns (ret: int)
      modifies this
      ensures slots == Apply(old(slots), newChip, q).0
      ensures ret == if Apply(old(slots), newChip, q).1 then RET_OK else RET_ERROR
    {
      ret := RET_ERROR;
      if newChip && q.index > 0 {
        return;
      }
      var data, check;
      ret, data := StoreGet(q.index);
      if q.write && data != ZEROES {
        return RET_ERROR;
      }
      data := data[0 := High(q.gain.r)][1 := Low(q.gain.r)][2 := High(q.gain.g)][3 := Low(q.gain.g)]
                  [4 := High(q.gain.b)][5 := Low(q.gain.b)];
      data := data[6 := High(q.offset.r)][7 := Low(q.offset.r)][8 := High(q.offset.g)][9 := Low(q.offset.g)]
                  [10 := High(q.offset.b)][11 := Low(q.offset.b)];
      assert data == Encode(q.gain, q.offset);
      if q.write {
        ret := StoreSet(q.index, data);
      }
      ret, check := StoreGet(q.index);
      if data != check {
        return RET_ERROR;
      }
    }
  }

  // Which requests are reported as done: on a later chip none above slot 0; a write into an empty slot;
  // and a dry run exactly if the slot already reads back as the six values.
  lemma SucceedsIff(slots: Slots, newChip: bool, q: Request)
    ensures var d := Slot(slots, q.index);
            Apply(slots, newChip, q).1 <==>
            && (!newChip || q.index <= 0)
            && (if q.write then d == ZEROES else DecodeGain(d) == q.gain && DecodeOffset(d) == q.offset)
    ensures !q.write ==> Apply(slots, newChip, q).0 == slots
    ensures !Apply(slots, newChip, q).1 ==> Apply(slots, newChip, q).0 == slots
  {
    DecodeEncode(q.gain, q.offset);
    EncodeDecode(Slot(slots, q.index));
  }

  // A slot that is not empty stays as it is, whatever is requested afterwards.
  lemma {:induction false} WrittenOnce(slots: Slots, newChip: bool, requests: seq<Request>, index: int)
    requires Slot(slots, index) != ZEROES
    ensures Slot(ApplyAll(slots, newChip, requests), index) == Slot(slots, index)
  {
    if requests != [] {
      WrittenOnce(slots, newChip, requests[..|requests| - 1], index);
    }
  }

  // A request changes its own slot at most, and only from empty to its data.
  lemma OtherSlotsUntouched(slots: Slots, newChip: bool, q: Request, index: int)
    ensures var after := Apply(slots, newChip, q).0;
            && (index != q.index ==> Slot(after, index) == Slot(slots, index))
            && (Slot(after, index) != Slot(slots, index) ==>
                  && index == q.index && q.write
                  && Slot(slots, index) == ZEROES && Slot(after, index) == Encode(q.gain, q.offset))
  {
  }

  // After a request that reported success the values read back are the six that were passed in,
  // and, unless they are all zero, so they are after any further requests.
  lemma ReadsBackWhatWasSet(slots: Slots, newChip: bool, q: Request, more: seq<Request>)
    requires Apply(slots, newChip, q).1 && (more == [] || Encode(q.gain, q.offset) != ZEROES)
    ensures var d := Slot(ApplyAll(Apply(slots, newChip, q).0, newChip, more), q.index);
            DecodeGain(d) == q.gain && DecodeOffset(d) == q.offset
  {
    if more != [] {
      WrittenOnce(Apply(slots, newChip, q).0, newChip, more, q.index);
    }
    DecodeEncode(q.gain, q.offset);
  }

  // The all-zero calibration is the exception: it is accepted, and leaves the slot open.
  lemma ZeroCalibrationLeavesSlotOpen(slots: Slots, newChip: bool, q: Request, next: Request)
    requires Supported(newChip, q.index) && q.write && Slot(slots, q.index) == ZEROES
    requires next.index == q.index && next.write
    ensures Encode(q.gain, q.offset) == ZEROES <==> q.gain == Gain(0, 0, 0) && q.offset == Offset(0, 0, 0)
    ensures Apply(Apply(slots, newChip, q).0, newChip, next).1 <==>
            q.gain == Gain(0, 0, 0) && q.offset == Offset(0, 0, 0)
  {
    DecodeEncode(q.gain, q.offset);
    DecodeEncode(Gain(0, 0, 0), Offset(0, 0, 0));
    assert Encode(Gain(0, 0, 0), Offset(0, 0, 0)) == ZEROES;
  }
}
