/** Power-down bits of the seven analog blocks: read-modify-write of 8-bit registers, and the
    decoder that reports a block as down, up, or partly up.
    Line numbers refer to the file `kadapt dbg.c`. */
module PowerDown {

  const BLOCKS := 7

  type Registers = map<int, bv8>

  // The bits of one register that belong to a block.
  datatype Field = Field(addr: int, mask: bv8)

  datatype Command = Command(block: nat, on: bool)

  function Read(regs: Registers, addr: int): bv8 {
    if addr in regs then regs[addr] else 0
  }

  // Audio, CVBS, VDAC, three-channel front end, GBB, AAD, LVDS.
  function Fields(block: nat): seq<Field>
    requires block < BLOCKS
  {
    if block == 0 then [Field(0x031d0000, 0x40), Field(0x481d0000, 0x0F), Field(0x491d0000, 0xFF)]
    else if block == 1 then
      [Field(0x01130000, 0x08), Field(0x03130000, 0x10), Field(0x04130000, 0x01), Field(0x05130000, 0x01),
       Field(0x0c130000, 0x04)]
    else if block == 2 then [Field(0x06130000, 0x01)]
    else if block == 3 then [Field(0x041a0000, 0x08), Field(0x201a0000, 0x3C)]
    else if block == 4 then [Field(0x01120000, 0x02)]
    else if block == 5 then [Field(0x001c0000, 0x01), Field(0x071c0000, 0x04), Field(0x0e1c0000, 0x02)]
    else [Field(0x00110000, 0x01)]
  }

  // The decoder leaves out the last register of the CVBS block.
  function Decoded(block: nat): seq<Field>
    requires block < BLOCKS
  {
    if block == 1 then Fields(1)[..4] else Fields(block)
  }

  predicate Up(regs: Registers, addr: int, bits: bv8) {
    Read(regs, addr) & bits == bits
  }

  predicate Down(regs: Registers, addr: int, bits: bv8) {
    Read(regs, addr) & bits == 0
  }

  predicate AllUp(regs: Registers, fs: seq<Field>) {
    forall k | 0 <= k < |fs| :: Up(regs, fs[k].addr, fs[k].mask)
  }

  predicate AllDown(regs: Registers, fs: seq<Field>) {
    forall k | 0 <= k < |fs| :: Down(regs, fs[k].addr, fs[k].mask)
  }

  function Status(regs: Registers, block: nat): nat
    requires block < BLOCKS
  {
    if AllUp(regs, Decoded(block)) then 2 else if AllDown(regs, Decoded(block)) then 0 else 1
  }

  function Change(before: bv8, mask: bv8, on: bool): bv8 {
    if on then before | mask else before & !mask
  }

  function SetField(regs: Registers, f: Field, on: bool): Registers {
    regs[f.addr := Change(Read(regs, f.addr), f.mask, on)]
  }

  function SetFields(regs: Registers, fs: seq<Field>, on: bool): Registers
    decreases |fs|
  {
    if fs == [] then regs else SetFields(SetField(regs, fs[0], on), fs[1..], on)
  }

  function Apply(regs: Registers, c: Command): Registers {
    if c.block >= BLOCKS then regs else SetFields(regs, Fields(c.block), c.on)
  }

  function ApplyAll(regs: Registers, commands: seq<Command>): Registers {
    if commands == [] then regs
    else Apply(ApplyAll(regs, commands[..|commands| - 1]), commands[|commands| - 1])
  }

  class AnalogDie {
    var regs: Registers

    constructor (regs: Registers)
      ensures this.regs == regs
    {
      this.regs := regs;
    }

    method Raise(addr: int, bits: bv8)
      modifies this
      ensures regs == SetField(old(regs), Field(addr, bits), true)
    {
      var data := if addr in regs then regs[addr] else 0;
      regs := regs[addr := data | bits];
    }

    method Keep(addr: int, bits: bv8)
      modifies this
      ensures regs == SetField(old(regs), Field(addr, !bits), false)
    {
      var data := if addr in regs then regs[addr] else 0;
      regs := regs[addr := data & bits];
    }

    // Lines 3229-3304: the audio and CVBS cases.
    method ControlAudioCvbs(item: nat, on: bool)
      requires item <= 1
      modifies this
      ensures regs == Apply(old(regs), Command(item, on))
    {
      if item == 0 {
        if on {
          Raise(0x031d0000, 0x40);
          Raise(0x481d0000, 0x0F);
          Raise(0x491d0000, 0xFF);
        } else {
          Keep(0x031d0000, 0xBF);
          Keep(0x481d0000, 0xF0);
          Keep(0x491d0000, 0x00);
        }
        UnfoldThree(old(regs), Fields(0), on);
      } else {
        if on {
          Raise(0x01130000, 0x08);
          Raise(0x03130000, 0x10);
          Raise(0x04130000, 0x1);
          Raise(0x05130000, 0x1);
          Raise(0x0c130000, 0x4);
        } else {
          Keep(0x01130000, 0xF7);
          Keep(0x03130000, 0xEF);
          Keep(0x04130000, 0xFE);
          Keep(0x05130000, 0xFE);
          Keep(0x0c130000, 0xFB);
        }
        UnfoldFive(old(regs), Fields(1), on);
      }
    }

    // Lines 3219-3407.
    method Control(item: nat, on: bool) returns (ret: int)
      modifies this
      ensures regs == Apply(old(regs), Command(item, on))
      ensures ret == if item >= BLOCKS then -1 else 0
    {
      if item > 6 {
        return -1;
      }
      if item <= 1 {
        ControlAudioCvbs(item, on);
      } else if item == 2 {
        if on {
          Raise(0x06130000, 0x1);
        } else {
          Keep(0x06130000, 0xFE);
        }
        UnfoldOne(old(regs), Fields(2), on);
      } else if item == 3 {
        if on {
          Raise(0x041a0000, 0x08);
          Raise(0x201a0000, 0x3C);
        } else {
          Keep(0x041a0000, 0xF7);
          Keep(0x201a0000, 0xC3);
        }
        UnfoldTwo(old(regs), Fields(3), on);
      } else if item == 4 {
        if on {
          Raise(0x01120000, 0x2);
        } else {
          Keep(0x01120000, 0xFD);
        }
        UnfoldOne(old(regs), Fields(4), on);
      } else if item == 5 {
        if on {
          Raise(0x001c0000, 0x01);
          Raise(0x071c0000, 0x04);
          Raise(0x0e1c0000, 0x02);
        } else {
          Keep(0x001c0000, 0xFE);
          Keep(0x071c0000, 0xFB);
          Keep(0x0e1c0000, 0xFD);
        }
        UnfoldThree(old(regs), Fields(5), on);
      } else {
        if on {
          Raise(0x00110000, 0x1);
        } else {
          Keep(0x00110000, 0xFE);
        }
        UnfoldOne(old(regs), Fields(6), on);
      }
      ret := 0;
    }

    // The 'u' and 'd' commands (lines 3579-3599).
    method ControlAll(on: bool)
      modifies this
      ensures forall b: nat | b < BLOCKS :: Status(regs, b) == if on then 2 else 0
    {
      ghost var commands := [];
      for loop := 0 to BLOCKS
        invariant regs == ApplyAll(old(regs), commands)
        invariant |commands| == loop && forall k | 0 <= k < loop :: commands[k] == Command(k, on)
      {
        var _ := Control(loop, on);
        assert (commands + [Command(loop, on)])[..|commands|] == commands;
        commands := commands + [Command(loop, on)];
      }
      forall b: nat | b < BLOCKS
        ensures Status(regs, b) == if on then 2 else 0
      {
        LastOfDistinct(commands, b);
        StatusFollowsLastCommand(old(regs), commands, b);
      }
    }
  }

  lemma UnfoldOne(regs: Registers, fs: seq<Field>, on: bool)
    requires |fs| == 1
    ensures SetFields(regs, fs, on) == SetField(regs, fs[0], on)
  {
    assert fs[1..] == [];
  }

  lemma UnfoldTwo(regs: Registers, fs: seq<Field>, on: bool)
    requires |fs| == 2
    ensures SetFields(regs, fs, on) == SetField(SetField(regs, fs[0], on), fs[1], on)
  {
    var r1 := SetField(regs, fs[0], on);
    var r2 := SetField(r1, fs[1], on);
    assert fs[1..][1..] == [] && SetFields(r2, [], on) == r2;
    assert SetFields(r1, fs[1..], on) == SetFields(r2, fs[1..][1..], on);
  }

  lemma UnfoldThree(regs: Registers, fs: seq<Field>, on: bool)
    requires |fs| == 3
    ensures SetFields(regs, fs, on) == SetField(SetField(SetField(regs, fs[0], on), fs[1], on), fs[2], on)
  {
    UnfoldTwo(SetField(regs, fs[0], on), fs[1..], on);
  }

  lemma UnfoldFive(regs: Registers, fs: seq<Field>, on: bool)
    requires |fs| == 5
    ensures SetFields(regs, fs, on) ==
            SetField(SetField(SetField(SetField(SetField(
              regs, fs[0], on), fs[1], on), fs[2], on), fs[3], on), fs[4], on)
  {
    var r2 := SetField(SetField(regs, fs[0], on), fs[1], on);
    assert fs[1..][1..] == fs[2..];
    UnfoldThree(r2, fs[2..], on);
  }

  // ---- what a command does ----

  ghost predicate DistinctAddresses(fs: seq<Field>) {
    forall j, k | 0 <= j < k < |fs| :: fs[j].addr != fs[k].addr
  }

  lemma {:induction false} SetFieldsReads(regs: Registers, fs: seq<Field>, on: bool, a: int)
    requires DistinctAddresses(fs)
    ensures (forall k | 0 <= k < |fs| :: fs[k].addr != a) ==> Read(SetFields(regs, fs, on), a) == Read(regs, a)
    ensures forall k | 0 <= k < |fs| && fs[k].addr == a ::
              Read(SetFields(regs, fs, on), a) == Change(Read(regs, a), fs[k].mask, on)
    decreases |fs|
  {
    if fs != [] {
      var first := SetField(regs, fs[0], on);
      assert forall k | 0 < k < |fs| :: fs[k] == fs[1..][k - 1];
      SetFieldsReads(first, fs[1..], on, a);
    }
  }

  // No register belongs to two blocks, or twice to one.
  lemma FieldsDistinct(b: nat)
    requires b < BLOCKS
    ensures DistinctAddresses(Fields(b))
  {
  }

  lemma BlocksDisjoint(b: nat, c: nat, j: nat, k: nat)
    requires b < BLOCKS && c < BLOCKS && b != c && j < |Fields(b)| && k < |Fields(c)|
    ensures Fields(b)[j].addr != Fields(c)[k].addr
  {
  }

  lemma MaskedChange(x: bv8, mask: bv8)
    ensures Change(x, mask, true) & mask == mask && Change(x, mask, false) & mask == 0
  {
  }

  lemma ChangeOutside(x: bv8, mask: bv8, on: bool)
    ensures Change(x, mask, on) & !mask == x & !mask
  {
  }

  lemma CommandedStatus(regs: Registers, b: nat, on: bool)
    requires b < BLOCKS
    ensures Status(SetFields(regs, Fields(b), on), b) == if on then 2 else 0
  {
    var after, fs := SetFields(regs, Fields(b), on), Fields(b);
    FieldsDistinct(b);
    forall k | 0 <= k < |fs|
      ensures Read(after, fs[k].addr) & fs[k].mask == if on then fs[k].mask else 0
    {
      SetFieldsReads(regs, fs, on, fs[k].addr);
      MaskedChange(Read(regs, fs[k].addr), fs[k].mask);
    }
    assert Decoded(b) <= fs && 0 < |Decoded(b)| && Decoded(b)[0] == fs[0] && fs[0].mask != 0;
    assert on ==> AllUp(after, Decoded(b));
    if !on {
      assert AllDown(after, Decoded(b));
      assert Read(after, fs[0].addr) & fs[0].mask == 0;
    }
  }

  lemma OtherStatus(regs: Registers, b: nat, on: bool, c: nat)
    requires b < BLOCKS && c < BLOCKS && b != c
    ensures Status(SetFields(regs, Fields(b), on), c) == Status(regs, c)
  {
    var after, fs, ds := SetFields(regs, Fields(b), on), Fields(b), Decoded(c);
    FieldsDistinct(b);
    forall k | 0 <= k < |ds|
      ensures Read(after, ds[k].addr) == Read(regs, ds[k].addr)
    {
      assert ds[k] == Fields(c)[k];
      forall j | 0 <= j < |fs|
        ensures fs[j].addr != ds[k].addr
      {
        BlocksDisjoint(b, c, j, k);
      }
      SetFieldsReads(regs, fs, on, ds[k].addr);
    }
  }

  function LastCommand(commands: seq<Command>, b: nat): int {
    if commands == [] then -1
    else
      var c := commands[|commands| - 1];
      if c.block == b then (if c.on then 2 else 0) else LastCommand(commands[..|commands| - 1], b)
  }

  // After any sequence of commands a block reports what its last command asked for, and a block
  // that was never commanded reports what it did before.
  lemma {:induction false} StatusFollowsLastCommand(regs: Registers, commands: seq<Command>, b: nat)
    requires b < BLOCKS
    ensures Status(ApplyAll(regs, commands), b) ==
            if LastCommand(commands, b) < 0 then Status(regs, b) else LastCommand(commands, b)
  {
    if commands != [] {
      var rest, c := commands[..|commands| - 1], commands[|commands| - 1];
      StatusFollowsLastCommand(regs, rest, b);
      if c.block == b {
        CommandedStatus(ApplyAll(regs, rest), b, c.on);
      } else if c.block < BLOCKS {
        OtherStatus(ApplyAll(regs, rest), c.block, c.on, b);
      }
    }
  }

  lemma {:induction false} LastOfDistinct(commands: seq<Command>, b: nat)
    requires forall k | 0 <= k < |commands| :: commands[k].block == k
    ensures b < |commands| ==> LastCommand(commands, b) == if commands[b].on then 2 else 0
  {
    if b < |commands| - 1 {
      LastOfDistinct(commands[..|commands| - 1], b);
    }
  }

  // A register that no block uses.
  predicate Unused(a: int) {
    forall b: nat, k | b < BLOCKS && 0 <= k < |Fields(b)| :: Fields(b)[k].addr != a
  }

  lemma {:induction false} UnusedRegistersKept(regs: Registers, commands: seq<Command>, a: int)
    requires Unused(a)
    ensures Read(ApplyAll(regs, commands), a) == Read(regs, a)
  {
    if commands != [] {
      var rest, c := commands[..|commands| - 1], commands[|commands| - 1];
      UnusedRegistersKept(regs, rest, a);
      if c.block < BLOCKS {
        FieldsDistinct(c.block);
        SetFieldsReads(ApplyAll(regs, rest), Fields(c.block), c.on, a);
      }
    }
  }

  lemma OwnCommandKeepsBits(regs: Registers, on: bool, b: nat, k: nat)
    requires b < BLOCKS && k < |Fields(b)|
    ensures var f := Fields(b)[k];
            Read(SetFields(regs, Fields(b), on), f.addr) & !f.mask == Read(regs, f.addr) & !f.mask
  {
    var f := Fields(b)[k];
    FieldsDistinct(b);
    SetFieldsReads(regs, Fields(b), on, f.addr);
    ChangeOutside(Read(regs, f.addr), f.mask, on);
  }

  lemma OtherCommandKeepsRegister(regs: Registers, c: nat, on: bool, b: nat, k: nat)
    requires b < BLOCKS && k < |Fields(b)| && c < BLOCKS && c != b
    ensures Read(SetFields(regs, Fields(c), on), Fields(b)[k].addr) == Read(regs, Fields(b)[k].addr)
  {
    FieldsDistinct(c);
    forall j | 0 <= j < |Fields(c)|
      ensures Fields(c)[j].addr != Fields(b)[k].addr
    {
      BlocksDisjoint(c, b, j, k);
    }
    SetFieldsReads(regs, Fields(c), on, Fields(b)[k].addr);
  }

  lemma OneCommandKeepsBits(regs: Registers, c: Command, b: nat, k: nat)
    requires b < BLOCKS && k < |Fields(b)| && c.block < BLOCKS
    ensures var f := Fields(b)[k]; Read(Apply(regs, c), f.addr) & !f.mask == Read(regs, f.addr) & !f.mask
  {
    if c.block == b {
      OwnCommandKeepsBits(regs, c.on, b, k);
    } else {
      OtherCommandKeepsRegister(regs, c.block, c.on, b, k);
    }
  }

  ghost predicate KeepsOutside(regs: Registers, c: Command, a: int, mask: bv8) {
    Read(Apply(regs, c), a) & !mask == Read(regs, a) & !mask
  }

  lemma {:induction false} KeptThroughout(regs: Registers, commands: seq<Command>, a: int, mask: bv8)
    requires forall r, c :: KeepsOutside(r, c, a, mask)
    ensures Read(ApplyAll(regs, commands), a) & !mask == Read(regs, a) & !mask
  {
    if commands != [] {
      var rest, c := commands[..|commands| - 1], commands[|commands| - 1];
      KeptThroughout(regs, rest, a, mask);
      assert KeepsOutside(ApplyAll(regs, rest), c, a, mask);
    }
  }

  lemma AnyCommandKeepsBits(regs: Registers, c: Command, b: nat, k: nat)
    requires b < BLOCKS && k < |Fields(b)|
    ensures KeepsOutside(regs, c, Fields(b)[k].addr, Fields(b)[k].mask)
  {
    if c.block < BLOCKS {
      OneCommandKeepsBits(regs, c, b, k);
    }
  }

  // No sequence of commands touches a bit outside the mask f.mask of a register f.addr of block b.
  lemma OtherBitsKept(regs: Registers, commands: seq<Command>, b: nat, f: Field)
    requires b < BLOCKS && f in Fields(b)
    ensures Read(ApplyAll(regs, commands), f.addr) & !f.mask == Read(regs, f.addr) & !f.mask
  {
    forall r, c
      ensures KeepsOutside(r, c, f.addr, f.mask)
    {
      var k :| 0 <= k < |Fields(b)| && Fields(b)[k] == f;
      AnyCommandKeepsBits(r, c, b, k);
    }
    KeptThroughout(regs, commands, f.addr, f.mask);
  }

  // Status 2 means that every bit a command would raise is up, except for the CVBS block, whose
  // last register the decoder does not look at.
  lemma UpMeansUp(regs: Registers, b: nat)
    requires b < BLOCKS
    ensures b != 1 ==> (Status(regs, b) == 2 <==> AllUp(regs, Fields(b)))
    ensures b == 1 ==> (AllUp(regs, Fields(b)) <==> Status(regs, b) == 2 && Read(regs, 0x0c130000) & 0x04 == 0x04)
  {
    if b == 1 {
      assert forall k | 0 <= k < 4 :: Fields(1)[k] == Decoded(1)[k];
      assert Fields(1)[4] == Field(0x0c130000, 0x04);
    }
  }

  lemma NotBothUpAndDown(regs: Registers, b: nat)
    requires b < BLOCKS
    ensures !(AllUp(regs, Decoded(b)) && AllDown(regs, Decoded(b)))
  {
    assert Decoded(b)[0].mask != 0;
  }

  // Status 0 means that every bit of the block is down, with the same exception; what is neither up
  // nor down has status 1.
  lemma DownMeansDown(regs: Registers, b: nat)
    requires b < BLOCKS
    ensures b != 1 ==> (Status(regs, b) == 0 <==> AllDown(regs, Fields(b)))
    ensures b == 1 ==> (AllDown(regs, Fields(b)) <==> Status(regs, b) == 0 && Read(regs, 0x0c130000) & 0x04 == 0)
    ensures Status(regs, b) == 0 || Status(regs, b) == 1 || Status(regs, b) == 2
  {
    NotBothUpAndDown(regs, b);
    if b == 1 {
      assert forall k | 0 <= k < 4 :: Fields(1)[k] == Decoded(1)[k];
      assert Fields(1)[4] == Field(0x0c130000, 0x04);
    }
  }

  // The decoder calls the CVBS block up with a bit of it down, and down with a bit of it up.
  lemma CvbsBlindSpot()
    ensures var regs: Registers := map[0x01130000 := 0x08, 0x03130000 := 0x10, 0x04130000 := 0x01, 0x05130000 := 0x01];
            Status(regs, 1) == 2 && !AllUp(regs, Fields(1))
  {
    var regs: Registers := map[0x01130000 := 0x08, 0x03130000 := 0x10, 0x04130000 := 0x01, 0x05130000 := 0x01];
    UpMeansUp(regs, 1);
  }

  lemma CvbsBlindSpotDown()
    ensures var regs: Registers := map[0x0c130000 := 0x04]; Status(regs, 1) == 0 && !AllDown(regs, Fields(1))
  {
    var regs: Registers := map[0x0c130000 := 0x04];
    assert Read(regs, 0x0c130000) & 0x04 == 0x04;
    DownMeansDown(regs, 1);
    assert AllDown(regs, Decoded(1));
    NotBothUpAndDown(regs, 1);
  }

  // ---- block by block ----

  // The bits of a register are raised or lowered, and its other bits stay.
  predicate Written(before: Registers, after: Registers, addr: int, bits: bv8, on: bool) {
    Read(after, addr) == if on then Read(before, addr) | bits else Read(before, addr) & !bits
  }

  lemma FieldWritten(regs: Registers, b: nat, on: bool, k: nat)
    requires b < BLOCKS && k < |Fields(b)|
    ensures Written(regs, Apply(regs, Command(b, on)), Fields(b)[k].addr, Fields(b)[k].mask, on)
  {
    FieldsDistinct(b);
    SetFieldsReads(regs, Fields(b), on, Fields(b)[k].addr);
  }

  // The audio block.
  lemma AudioBits(regs: Registers, on: bool)
    ensures var r := Apply(regs, Command(0, on));
            && Written(regs, r, 0x031d0000, 0x40, on) && Written(regs, r, 0x481d0000, 0x0F, on)
            && Written(regs, r, 0x491d0000, 0xFF, on)
    ensures Status(regs, 0) == 2 <==>
            Up(regs, 0x031d0000, 0x40) && Up(regs, 0x481d0000, 0x0F) && Up(regs, 0x491d0000, 0xFF)
    ensures Status(regs, 0) == 0 <==>
            Down(regs, 0x031d0000, 0x40) && Down(regs, 0x481d0000, 0x0F) && Down(regs, 0x491d0000, 0xFF)
  {
    FieldWritten(regs, 0, on, 0);
    FieldWritten(regs, 0, on, 1);
    FieldWritten(regs, 0, on, 2);
    NotBothUpAndDown(regs, 0);
  }

  // The CVBS block, whose last register is written and not decoded.
  lemma CvbsBits(regs: Registers, on: bool)
    ensures var r := Apply(regs, Command(1, on));
            && Written(regs, r, 0x01130000, 0x08, on) && Written(regs, r, 0x03130000, 0x10, on)
            && Written(regs, r, 0x04130000, 0x01, on) && Written(regs, r, 0x05130000, 0x01, on)
            && Written(regs, r, 0x0c130000, 0x04, on)
    ensures Status(regs, 1) == 2 <==>
            && Up(regs, 0x01130000, 0x08) && Up(regs, 0x03130000, 0x10) && Up(regs, 0x04130000, 0x01)
            && Up(regs, 0x05130000, 0x01)
    ensures Status(regs, 1) == 0 <==>
            && Down(regs, 0x01130000, 0x08) && Down(regs, 0x03130000, 0x10) && Down(regs, 0x04130000, 0x01)
            && Down(regs, 0x05130000, 0x01)
  {
    FieldWritten(regs, 1, on, 0);
    FieldWritten(regs, 1, on, 1);
    FieldWritten(regs, 1, on, 2);
    FieldWritten(regs, 1, on, 3);
    FieldWritten(regs, 1, on, 4);
    NotBothUpAndDown(regs, 1);
  }

  // The VDAC block.
  lemma VdacBits(regs: Registers, on: bool)
    ensures var r := Apply(regs, Command(2, on));
            Written(regs, r, 0x06130000, 0x01, on)
    ensures Status(regs, 2) == 2 <==>
            Up(regs, 0x06130000, 0x01)
    ensures Status(regs, 2) == 0 <==>
            Down(regs, 0x06130000, 0x01)
  {
    FieldWritten(regs, 2, on, 0);
    NotBothUpAndDown(regs, 2);
  }

  // The three-channel front end.
  lemma FrontEndBits(regs: Registers, on: bool)
    ensures var r := Apply(regs, Command(3, on));
            Written(regs, r, 0x041a0000, 0x08, on) && Written(regs, r, 0x201a0000, 0x3C, on)
    ensures Status(regs, 3) == 2 <==>
            Up(regs, 0x041a0000, 0x08) && Up(regs, 0x201a0000, 0x3C)
    ensures Status(regs, 3) == 0 <==>
            Down(regs, 0x041a0000, 0x08) && Down(regs, 0x201a0000, 0x3C)
  {
    FieldWritten(regs, 3, on, 0);
    FieldWritten(regs, 3, on, 1);
    NotBothUpAndDown(regs, 3);
  }

  // The GBB block.
  lemma GbbBits(regs: Registers, on: bool)
    ensures var r := Apply(regs, Command(4, on));
            Written(regs, r, 0x01120000, 0x02, on)
    ensures Status(regs, 4) == 2 <==>
            Up(regs, 0x01120000, 0x02)
    ensures Status(regs, 4) == 0 <==>
            Down(regs, 0x01120000, 0x02)
  {
    FieldWritten(regs, 4, on, 0);
    NotBothUpAndDown(regs, 4);
  }

  // The AAD block.
  lemma AadBits(regs: Registers, on: bool)
    ensures var r := Apply(regs, Command(5, on));
            && Written(regs, r, 0x001c0000, 0x01, on) && Written(regs, r, 0x071c0000, 0x04, on)
            && Written(regs, r, 0x0e1c0000, 0x02, on)
    ensures Status(regs, 5) == 2 <==>
            Up(regs, 0x001c0000, 0x01) && Up(regs, 0x071c0000, 0x04) && Up(regs, 0x0e1c0000, 0x02)
    ensures Status(regs, 5) == 0 <==>
            Down(regs, 0x001c0000, 0x01) && Down(regs, 0x071c0000, 0x04) && Down(regs, 0x0e1c0000, 0x02)
  {
    FieldWritten(regs, 5, on, 0);
    FieldWritten(regs, 5, on, 1);
    FieldWritten(regs, 5, on, 2);
    NotBothUpAndDown(regs, 5);
  }

  // The LVDS block.
  lemma LvdsBits(regs: Registers, on: bool)
    ensures var r := Apply(regs, Command(6, on));
            Written(regs, r, 0x00110000, 0x01, on)
    ensures Status(regs, 6) == 2 <==>
            Up(regs, 0x00110000, 0x01)
    ensures Status(regs, 6) == 0 <==>
            Down(regs, 0x00110000, 0x01)
  {
    FieldWritten(regs, 6, on, 0);
    NotBothUpAndDown(regs, 6);
  }
}
