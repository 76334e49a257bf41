/**
 Concrete inputs at which the source does not do what it is for: one for each failing side of the
 if-and-only-ifs proved elsewhere.
 */
module Witnesses {
  import opened Words
  import opened IntelDecoder
  import opened CopyTables
  import opened Relocation
  import opened Meaning
  import opened Prologue
  import opened MovedCode
  import opened RegionSearch
  import opened Trampolines
  import opened Pages
  import opened Simulation
  import Arm64
  import Arm64Literals
  import Arm64Relocator

  predicate BytesAt(m: Memory, a: nat, s: seq<Byte>) { Starts(m, a, s) }

  // VCVTTPS2UQQ with an implied 66 is six bytes long; the copier takes eight.
  lemma {:induction false} EvexWithImplied66(m: Memory, a: nat)
    requires BytesAt(m, a, [0x62, 0xF1, 0x7D, 0x48, 0x78, 0xC9])
    ensures DecodeAt(m, a) == Some(Insn(6, Sequential, Address32(0xC9)))
    ensures ReadAs(m, a, NO_PREFIXES, Insn(6, Sequential, Address32(0xC9))) == Whole(Insn(8, Sequential, Address32(0xC9)))
  {
    var s := [0x62, 0xF1, 0x7D, 0x48, 0x78, 0xC9];
    assert m[a + 0] == s[0] && m[a + 1] == s[1] && m[a + 2] == s[2] && m[a + 4] == s[4] && m[a + 5] == s[5];
  }

  // Without an implied prefix the same opcode is copied right.
  lemma {:induction false} EvexWithoutPrefix(m: Memory, a: nat)
    requires BytesAt(m, a, [0x62, 0xF1, 0x7C, 0x48, 0x78, 0xC9])
    ensures DecodeAt(m, a) == Some(Insn(6, Sequential, Address32(0xC9))) && ReadRight(m, a, Insn(6, Sequential, Address32(0xC9)))
  {
    var s := [0x62, 0xF1, 0x7C, 0x48, 0x78, 0xC9];
    assert m[a + 0] == s[0] && m[a + 1] == s[1] && m[a + 2] == s[2] && m[a + 4] == s[4] && m[a + 5] == s[5];
  }

  // VCVTUDQ2PD: the four bytes of EVEX are copied, its opcode is skipped and its operand is left.
  lemma {:induction false} EvexWithoutEntry(m: Memory, a: nat)
    requires BytesAt(m, a, [0x62, 0xF1, 0x7E, 0x48, 0x7A, 0xC9])
    ensures DecodeAt(m, a) == Some(Insn(6, Sequential, Address32(0xC9)))
    ensures ReadAs(m, a, NO_PREFIXES, Insn(6, Sequential, Address32(0xC9))) == HeadOnly(4)
  {
    var s := [0x62, 0xF1, 0x7E, 0x48, 0x7A, 0xC9];
    assert m[a + 0] == s[0] && m[a + 1] == s[1] && m[a + 2] == s[2] && m[a + 4] == s[4] && m[a + 5] == s[5];
  }

  // UD1 EAX, ECX: of its three bytes one is copied and one passed over.
  lemma {:induction false} Ud1WithoutEntry(m: Memory, a: nat)
    requires BytesAt(m, a, [0x0F, 0xB9, 0xC1])
    ensures DecodeAt(m, a) == Some(Insn(3, Departs, Address32(0xC1)))
    ensures ReadAs(m, a, NO_PREFIXES, Insn(3, Departs, Address32(0xC1))) == HeadOnly(1)
  {
    var s := [0x0F, 0xB9, 0xC1];
    assert m[a + 0] == s[0] && m[a + 1] == s[1] && m[a + 2] == s[2];
  }

  // MOV EAX, [1234h] with 16-bit addressing is five bytes long; the table measures three.
  lemma {:induction false} SixteenBitAddress(m: Memory, a: nat)
    requires BytesAt(m, a, [0x67, 0x8B, 0x06, 0x34, 0x12])
    ensures DecodeAt(m, a) == Some(Insn(5, Sequential, Address16(0x06)))
    ensures ReadAs(m, a, NO_PREFIXES, Insn(5, Sequential, Address16(0x06))) == Whole(Insn(3, Sequential, Address16(0x06)))
    ensures CopiedBytes(CopyTable(0x8B), false, true, m, a + 1) == 2
  {
    var s := [0x67, 0x8B, 0x06, 0x34, 0x12];
    assert m[a + 0] == s[0] && m[a + 1] == s[1] && m[a + 2] == s[2];
    assert Decode(m, a + 1, Note(NO_PREFIXES, 0x67)) == Some(Insn(4, Sequential, Address16(0x06)));
  }

  // LOOP -2, moved by a page: the byte is cut off, the copy goes elsewhere and is said to be three bytes shorter.
  lemma {:induction false} LoopDoesNotReach(m: Memory, a: nat)
    requires BytesAt(m, a, [0xE2, 0xFE])
    ensures
      var i := Insn(2, Relative(Short, Count(0xE2), -2), NoModRm);
      DecodeAt(m, a) == Some(i) && !Faithful(i, 0x1000) && !TargetStays(i, 0x1000) && Extra(i, 0x1000) == -3
  {
    var s := [0xE2, 0xFE];
    assert m[a + 0] == s[0] && m[a + 1] == s[1];
  }

  // JMP +5 behind an operand-size prefix, wherever it is moved.
  lemma {:induction false} PrefixedJump(m: Memory, a: nat, delta: int)
    requires BytesAt(m, a, [0x66, 0xEB, 0x05])
    ensures
      var i := Insn(3, Relative(Short16, Jump, 5), NoModRm);
      && DecodeAt(m, a) == Some(i) && !Faithful(i, delta) && !TargetStays(i, delta)
      && Copy(i, delta).length == 4 && i.length + Extra(i, delta) == 6
  {
    var s := [0x66, 0xEB, 0x05];
    assert m[a + 0] == s[0] && m[a + 1] == s[1] && m[a + 2] == s[2];
    assert Decode(m, a + 1, Note(NO_PREFIXES, 0x66)) == Some(Insn(2, Relative(Short16, Jump, 5), NoModRm));
  }

  // XBEGIN keeps its displacement, so it is wrong unless it is moved by a multiple of 2^32.
  lemma {:induction false} XbeginIsNotRelocated(m: Memory, a: nat, delta: int)
    requires BytesAt(m, a, [0xC7, 0xF8, 0x10, 0x00, 0x00, 0x00]) && delta % TWO32 != 0
    ensures
      var i := Insn(6, Relative(Near32, Transaction, 0x10), Address32(0xF8));
      DecodeAt(m, a) == Some(i) && !Faithful(i, delta) && Copy(i, delta) == i
  {
    var s := [0xC7, 0xF8, 0x10, 0x00, 0x00, 0x00];
    assert m[a + 0] == s[0] && m[a + 1] == s[1] && m[a + 2] == s[2] && m[a + 3] == s[3] && m[a + 4] == s[4] && m[a + 5] == s[5];
  }

  // LOOPNE is taken for the end of a function, but falls through.
  lemma {:induction false} LoopneFallsThrough(m: Memory, a: nat)
    requires BytesAt(m, a, [0xE0, 0x10])
    ensures EndsFunction(m, a) && DecodeAt(m, a).Some? && !NeverFallsThrough(DecodeAt(m, a).value)
  {
    var s := [0xE0, 0x10];
    assert m[a + 0] == s[0] && m[a + 1] == s[1];
  }

  // PUSH EBP; MOV EBP, ESP; MOV EAX, imm32.
  function EightBytes(): (plan: seq<Insn>)
  {
    [Insn(1, Sequential, NoModRm), Insn(2, Sequential, Address32(0xEC)), Insn(5, Sequential, NoModRm)]
  }

  /**
   A prologue of eight bytes. A thread at its first instruction is sent behind the moved code, as if it had run all
   of it, and one at the jump behind the moved code back to the first instruction, to run it again.
   */
  lemma {:induction false} EightBytePrologue(m: Memory, t: nat, imm: seq<Byte>)
    requires |imm| == 4 && BytesAt(m, t, [0x55, 0x8B, 0xEC, 0xB8] + imm)
    ensures Planned(m, t, EightBytes()) && SourceOffset(EightBytes(), 3) == 8
    ensures FirstTarget(Alignment(EightBytes()), SourceOffset(EightBytes(), 0), 0) == CodeOffset(EightBytes(), 3) == 8
    ensures FirstTrampoline(Alignment(EightBytes()), CodeOffset(EightBytes(), 3), 0) == SourceOffset(EightBytes(), 0) == 0
  {
    hide Decode, DecodeAt, ReadRight, Alignment, FirstTarget, FirstTrampoline;
    var plan := EightBytes();
    EightDecode(m, t, imm);
    assert SourceOffset(plan, 0) == 0 && SourceOffset(plan, 1) == 1 && SourceOffset(plan, 2) == 3 && SourceOffset(plan, 3) == 8;
    assert CodeOffset(plan, 0) == 0 && CodeOffset(plan, 1) == 1 && CodeOffset(plan, 2) == 3 && CodeOffset(plan, 3) == 8;
    EightAlign();
  }

  lemma {:induction false} EightDecode(m: Memory, t: nat, imm: seq<Byte>)
    requires |imm| == 4 && BytesAt(m, t, [0x55, 0x8B, 0xEC, 0xB8] + imm)
    ensures DecodeAt(m, t) == Some(EightBytes()[0]) && ReadRight(m, t, EightBytes()[0])
    ensures DecodeAt(m, t + 1) == Some(EightBytes()[1]) && ReadRight(m, t + 1, EightBytes()[1])
    ensures DecodeAt(m, t + 3) == Some(EightBytes()[2]) && ReadRight(m, t + 3, EightBytes()[2])
    ensures !EndsFunction(m, t) && !EndsFunction(m, t + 1)
  {
    var s := [0x55, 0x8B, 0xEC, 0xB8] + imm;
    assert m[t + 0] == s[0] && m[t + 1] == s[1] && m[t + 2] == s[2] && m[t + 3] == s[3];
  }

  lemma {:induction false} EightAlign()
    ensures FirstTarget(Alignment(EightBytes()), 0, 0) == 8 && FirstTrampoline(Alignment(EightBytes()), 8, 0) == 0
  {
    var plan, a := EightBytes(), Alignment(EightBytes());
    assert SourceOffset(plan, 1) == 1 && SourceOffset(plan, 2) == 3 && SourceOffset(plan, 3) == 8;
    assert CodeOffset(plan, 1) == 1 && CodeOffset(plan, 2) == 3 && CodeOffset(plan, 3) == 8;
    assert a[0] == Align(1, 1) && a[1] == Align(3, 3) && a[2] == Align(0, 8);
    FirstTargetIs(a, 0, 0, 2);
    FirstTrampolineIs(a, 8, 0, 2);
  }

  /**
   XOR EAX, EAX and RET, three bytes, directly before PUSH EBP: however they are moved, only they are taken, too few for a
   jump.
   */
  lemma {:induction false} ShortFunctionIsNotTaken(m: Memory, t: nat, plan: seq<Insn>)
    requires BytesAt(m, t, [0x33, 0xC0, 0xC3, 0x55, 0x8B, 0xEC]) && Planned(m, t, plan) && 0 < |plan|
    ensures |plan| == 2 && FillerEnd(m, t, SourceOffset(plan, |plan|)) == 3 < SIZE_OF_JMP
  {
    hide Planned, DecodeAt, EndsFunction, ReadRight, FillerSize, BytesAt, WellFormed;
    XorAndRet(m, t);
    PlannedAt(m, t, plan, 0);
    PlanStops(m, t, plan);
    assert SourceOffset(plan, 0) == 0 && SourceOffset(plan, 1) == 2;
    PlannedAt(m, t, plan, 1);
    assert SourceOffset(plan, 2) == 3;
  }

  lemma {:induction false} XorAndRet(m: Memory, t: nat)
    requires BytesAt(m, t, [0x33, 0xC0, 0xC3, 0x55, 0x8B, 0xEC])
    ensures DecodeAt(m, t) == Some(Insn(2, Sequential, Address32(0xC0))) && DecodeAt(m, t + 2) == Some(Insn(1, Departs, NoModRm))
    ensures !EndsFunction(m, t) && EndsFunction(m, t + 2) && FillerSize(m, t + 3) == 0
  {
    hide FillerSize;
    var s := [0x33, 0xC0, 0xC3, 0x55, 0x8B, 0xEC];
    assert m[t + 0] == s[0] && m[t + 1] == s[1] && m[t + 2] == s[2] && m[t + 3] == s[3];
    FillerIff(m, t + 3);
  }

  /**
   A target at C000_0000h that jumps to 3000_0000h, with free regions at BFFF_0000h and 9000_0000h: the search takes the
   first, which is out of reach of the jump, so that there is none for the target although the second is within reach.
   */
  lemma {:induction false} FoundOutOfReach(map_: AddressMap, m: Memory)
    requires |m| == TWO32 && BytesAt(m, 0xC000_0000, [0xE9, 0xFB, 0xFF, 0xFF, 0x6F])
    requires Usable(map_, 0xBFFF_0000) && Usable(map_, 0x9000_0000)
    ensures RegionInReach(m, 0xC000_0000, 0x9000_0000) && NoRegionFor(map_, m, 0xC000_0000)
  {
    hide Usable;
    var t := 0xC000_0000;
    JumpsDown(m);
    forall a: nat | 0xBFFF_0000 < a < t && Usable(map_, a)
      ensures false
    {
      UsableIsAligned(map_, a);
    }
    assert Found(map_, m, t, 0xBFFF_0000);
  }

  lemma {:induction false} JumpsDown(m: Memory)
    requires |m| == TWO32 && BytesAt(m, 0xC000_0000, [0xE9, 0xFB, 0xFF, 0xFF, 0x6F])
    ensures NearTarget(Bits32, m, 0xC000_0000) == Some(0x3000_0000)
  {
    var s, t := [0xE9, 0xFB, 0xFF, 0xFF, 0x6F], 0xC000_0000;
    assert m[t + 0] == s[0] && m[t + 1] == s[1] && m[t + 2] == s[2] && m[t + 3] == s[3] && m[t + 4] == s[4];
  }

  /**
   Five times INC EAX, and JMP back to the first: the moved instructions run, and then the jump behind the target's
   hook; there the original goes on with INC EAX, and the hooked program enters the detour.
   */
  lemma {:induction false} LoopToTheTarget<D>(cpu: Processor<D>, code: Memory, m: Memory, t: Word, detour: Word, d: D)
    requires BytesAt(code, t, [0x40, 0x40, 0x40, 0x40, 0x40, 0xEB, 0xF9]) && BytesAt(m, t + 5, [0xEB, 0xF9])
    requires Holds(m, t, JumpBytes(t, detour)) && t + 7 < TWO32
    ensures Steps(cpu, code, t + 5, d, 1) == Steps(cpu, m, t + 5, d, 1) == Some((t, d))
    ensures Steps(cpu, code, t + 5, d, 2) == Some((t + 1, cpu.effect(code, [0x40], d)))
    ensures Steps(cpu, m, t + 5, d, 2) == Some((detour, d))
  {
    hide JumpBytes, Holds;
    var s, j := [0x40, 0x40, 0x40, 0x40, 0x40, 0xEB, 0xF9], [0xEB, 0xF9];
    assert code[t + 0] == s[0] && code[t + 5] == s[5] && code[t + 6] == s[6];
    assert m[t + 5 + 0] == j[0] && m[t + 5 + 1] == j[1];
    IncIs(cpu, code, t, d);
    BackIs(cpu, code, t, d);
    BackIs(cpu, m, t, d);
    JumpGoes(cpu, m, t, detour, d);
    WordIsWrapped(detour);
    TwoSteps(cpu, code, t + 5, t, d, d);
    TwoSteps(cpu, m, t + 5, t, d, d);
  }

  lemma {:induction false} TwoSteps<D>(cpu: Processor<D>, m: Memory, a: Word, b: Word, d: D, x: D)
    requires Execute(cpu, m, a, d).Some? && Execute(cpu, m, a, d).value.eip == b && Execute(cpu, m, a, d).value.data == x
    requires Execute(cpu, m, b, x).Some?
    ensures Steps(cpu, m, a, d, 1) == Some((b, x))
    ensures Steps(cpu, m, a, d, 2) == Some((Execute(cpu, m, b, x).value.eip, Execute(cpu, m, b, x).value.data))
  {
    hide Execute;
    OneStep(cpu, m, a, d);
    OneStep(cpu, m, b, x);
  }

  lemma {:induction false} IncIs<D>(cpu: Processor<D>, code: Memory, a: Word, d: D)
    requires a < |code| && code[a] == 0x40 && a + 1 < TWO32
    ensures Execute(cpu, code, a, d) == Some(Step(a + 1, cpu.effect(code, [0x40], d), Ran([0x40]), false))
  {
    assert DecodeAt(code, a) == Some(Insn(1, Sequential, NoModRm));
    assert code[a..a + 1] == [0x40];
  }

  lemma {:induction false} BackIs<D>(cpu: Processor<D>, m: Memory, t: Word, d: D)
    requires t + 7 <= |m| && t + 7 < TWO32 && m[t + 5] == 0xEB && m[t + 6] == 0xF9
    ensures Execute(cpu, m, t + 5, d) == Some(Step(t, d, Decided(Jump, t, true), true))
  {
    assert DecodeAt(m, t + 5) == Some(Insn(2, Relative(Short, Jump, -7), NoModRm));
  }

  // Two pages protected alike. One target lies in the first and a later one crosses into the second: the later
  // change reports that the first was writable already, and the second stays so.
  lemma {:induction false} CrossingBehindAnother(start: Protections)
    requires start[0] == start[1] != PAGE_EXECUTE_READWRITE
    ensures
      var older, newer := Change(0, 5, start[0]), Change(PAGE_SIZE - 2, 5, PAGE_EXECUTE_READWRITE);
      && Uniform(start, PAGE_SIZE - 2, 5) && Reporting([newer, older], start)
      && !Restorable([newer, older], start)
  {
    var older, newer := Change(0, 5, start[0]), Change(PAGE_SIZE - 2, 5, PAGE_EXECUTE_READWRITE);
    var all := [newer, older];
    assert all[1..] == [older] && all[2..] == [] && [older][0] == older;
    assert Touches([older][0], 0) && Touched(all[1..], 0);
    assert !Touches(older, 1) && Touches(newer, 1);
    assert OldestAt(all, 0, 1);
  }

  // Two pages protected differently, and a target that crosses; but an older change has recorded the second.
  lemma {:induction false} CrossingBehindBoth(start: Protections)
    requires start[0] != start[1]
    ensures
      var older, newer := Change(PAGE_SIZE, 5, start[1]), Change(PAGE_SIZE - 2, 5, start[0]);
      && !Uniform(start, PAGE_SIZE - 2, 5) && Reporting([newer, older], start)
      && Restorable([newer, older], start)
  {
    var older, newer := Change(PAGE_SIZE, 5, start[1]), Change(PAGE_SIZE - 2, 5, start[0]);
    var all := [newer, older];
    assert all[1..] == [older] && all[2..] == [] && [older][0] == older;
    assert !Touched(all[1..], 0);
    assert Touches(older, 1) && !Touches(older, 0);
    assert start[1] == start[(PAGE_SIZE - 2) / PAGE_SIZE + 1];
    forall k, page | 0 <= k < |all| && 0 <= page < PAGES && OldestAt(all, k, page)
      ensures all[k].was == start[page]
    {
      if k == 0 {
        assert !Touches(all[1], page);
      }
    }
  }

  // ADR X0 to the next word but one, moved by 16 MB: a page and a 32-bit addition, which loses the upper half.
  lemma {:induction false} AdrAboveFourGigabytes()
    ensures
      var i, src, dst := Arm64.Address(false, 0, 8), 0x1_4000_1000, 0x1_4100_1000;
      && Arm64Literals.Named(i, src) == 0x1_4000_1008 && Arm64Literals.AddressFormOf(i, src, dst).PageAndAdd?
      && !Arm64Literals.AddressStays(i, src, dst)
  {
    var i, src, dst := Arm64.Address(false, 0, 8), 0x1_4000_1000, 0x1_4100_1000;
    assert Arm64Literals.Distance(i, src, dst) == -0xFF_FFF8 && Arm64Literals.Pages(i, src, dst) == -0x1000;
  }

  // LDR X0 from 8 bytes ahead, moved back by 1 MB: the displacement is stored in too few bits.
  lemma {:induction false} LiteralBeyondOneMegabyte()
    ensures
      var i, src, dst := Arm64.LoadLiteral(1, false, 0, 8), 0x1_4010_0000, 0x1_4000_0000;
      && Arm64Literals.Distance(i, src, dst) == 0x10_0008 && Arm64.Cut19(0x10_0008) == -0xF_FFF8
      && Arm64Literals.LiteralFormOf(i, src, dst).InReach? && !Arm64Literals.LiteralStays(i, src, dst)
  {
  }

  // A prefetch that is moved by 16 MB clears X3, when 3 was the number of its hint.
  lemma {:induction false} PrefetchOutOfReach()
    ensures
      var i, src, dst := Arm64.LoadLiteral(3, false, 3, 8), 0x1_4000_0000, 0x1_4100_0000;
      Arm64Literals.LiteralFormOf(i, src, dst).Constant? && !Arm64Literals.LiteralStays(i, src, dst)
  {
    var i, src, dst := Arm64.LoadLiteral(3, false, 3, 8), 0x1_4000_0000, 0x1_4100_0000;
    assert Arm64Literals.Distance(i, src, dst) == -0xFF_FFF8;
  }

  // B.AL moved out of the reach of a conditional branch, and CBZ X17 out of the reach of any.
  lemma {:induction false} BranchesThatAreNotInverted()
    ensures
      var i, src, dst := Arm64.BranchIf(14, 8), 0x1_4000_0000, 0x1_4100_0000;
      Arm64Relocator.FormOf(i, src, dst).Skip? && !Arm64Relocator.Relocatable(i, Arm64Relocator.FormOf(i, src, dst))
    ensures
      var i, src, dst := Arm64.CompareBranch(true, false, 17, 8), 0x1_4000_0000, 0x1_8000_0000;
      Arm64Relocator.FormOf(i, src, dst).Far? && !Arm64Relocator.Relocatable(i, Arm64Relocator.FormOf(i, src, dst))
  {
    assert Arm64Relocator.Delta(Arm64.BranchIf(14, 8), 0x1_4000_0000, 0x1_4100_0000) == -0xFF_FFF8;
    assert Arm64Relocator.Delta(Arm64.CompareBranch(true, false, 17, 8), 0x1_4000_0000, 0x1_8000_0000) == -0x3FFF_FFF8;
  }

  // BC.EQ, two instructions ahead, goes wrong in some state wherever it is moved.
  lemma {:induction false} ConsistentBranchIsNotRelocated(src: Arm64.Word64, dst: Arm64.Word64)
    requires src != dst
    ensures Arm64.Decode(0x5400_0050) == Arm64.ConsistentBranch(0, 8)
    ensures exists s: Arm64.State ::
      Arm64.Steps([0x5400_0050], dst, s.(pc := dst), 1) != Some(Arm64Relocator.ConsistentResult(Arm64.Decode(0x5400_0050), src, dst, s))
  {
    hide Arm64.Steps, Arm64Relocator.ConsistentResult;
    assert Arm64.TopByte(0x5400_0050) == 0x54 && Arm64.Field(0x5400_0050, 0x10, 2) == 1;
    assert Arm64.Field(0x5400_0050, 1, 0x10) == 0 && Arm64.SignedField(0x5400_0050, 0x20, 0x8_0000) == 2;
    Arm64Relocator.ConsistentIsRightIff(0x5400_0050, src, dst);
  }
}
