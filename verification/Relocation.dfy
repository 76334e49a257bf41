/** What the copier emits for one instruction, as bytes. */
module Relocation {
  import opened Words
  import opened IntelDecoder
  import opened CopyTables

  // The displacement after moving the instruction by delta, in a 32-bit LONG.
  function Rebased(disp: int, delta: int): int { Signed32(Wrap(disp - delta)) }

  predicate FitsByte(x: int) { -0x80 <= x < 0x80 }

  predicate FitsShort(x: int) { -0x8000 <= x < 0x8000 }

  predicate Widens(form: Form, flow: Flow) { IsShort(form) && (flow.Jump? || flow.Branch?) }

  // *m_plExtra: how much longer the copy is claimed to be.
  function Extra(i: Insn, delta: int): int
  {
    match i.control
    case Relative(form, flow, disp) =>
      if flow.Transaction? then 0
      else if Widens(form, flow) then (if flow.Jump? then 3 else 4)
      else if Fits(form, Rebased(disp, delta)) then 0
      else if flow.Count? then -3
      else 2
    case _ => 0
  }

  function FieldBytes(form: Form, x: int): (s: seq<Byte>)
    ensures |s| == FieldSize(form)
  {
    match form
    case Near16 => Le16(x % 0x1_0000)
    case Near32 => Le32(Wrap(x))
    case _ => [x % 0x100]
  }

  predicate Fits(form: Form, x: int)
  {
    match form
    case Near16 => FitsShort(x)
    case Near32 => true
    case _ => FitsByte(x)
  }

  // The bytes that replace the displacement field, and for short jumps the opcode before it.
  function Tail(form: Form, flow: Flow, disp: int, delta: int): seq<Byte>
  {
    if !Widens(form, flow) then FieldBytes(form, disp - delta)
    else if flow.Jump? then [0xE9] + Le32(Wrap(disp - delta - 3))
    else [0x0F, 0x80 + flow.cc % 0x10] + Le32(Wrap(disp - delta - 4))
  }

  // How many bytes of the original come before the tail.
  function HeadSize(i: Insn): nat
    requires WellFormed(i)
  {
    match i.control
    case Relative(form, flow, _) =>
      if flow.Transaction? then i.length
      else if Widens(form, flow) then i.length - 2
      else i.length - FieldSize(form)
    case _ => i.length
  }

  // The copy of the instruction at src, moved by delta. An XBEGIN is copied unchanged.
  function Emitted(code: Memory, src: nat, i: Insn, delta: int): seq<Byte>
    requires WellFormed(i) && src + i.length <= |code|
  {
    code[src..src + HeadSize(i)] +
    match i.control
    case Relative(form, flow, disp) => if flow.Transaction? then [] else Tail(form, flow, disp, delta)
    case _ => []
  }

  function EmittedLength(i: Insn): nat
  {
    match i.control
    case Relative(form, flow, _) => i.length + (if Widens(form, flow) then (if flow.Jump? then 3 else 4) else 0)
    case _ => i.length
  }

  lemma {:induction false} EmittedHasLength(code: Memory, src: nat, i: Insn, delta: int)
    requires WellFormed(i) && src + i.length <= |code|
    ensures |Emitted(code, src, i, delta)| == EmittedLength(i) <= i.length + 4
  {
  }

  // The entry e describes the instruction i at a: its size, and whether and where it has a target.
  ghost predicate Fixes(e: Entry, operandOverride: bool, addressOverride: bool, m: Memory, a: nat, i: Insn)
  {
    && a + i.length <= |m|
    && CopiedBytes(e, operandOverride, addressOverride, m, a) == i.length
    && e.modOffset < FixedBytes(e, operandOverride, addressOverride)
    && (e.relOffset == 0 ==> !i.control.Relative? || i.control.flow.Transaction?)
    && (e.relOffset != 0 ==>
          && e.relOffset == 1 && e.modOffset == 0 && !e.dynamic
          && i.control.Relative? && !i.control.flow.Transaction?
          && RelativeAt(m, a, 1, i.control.form, i.control.flow) == Some(i)
          && (IsShort(i.control.form) <==> i.control.flow.Count?))
    && (e.noEnlarge <==> i.control.Relative? && i.control.flow.Count?)
  }

  predicate HasTarget(i: Insn) { i.control.Relative? && !i.control.flow.Transaction? }

  // Bytes copied unchanged in front of the rest of an instruction.
  lemma {:induction false} EmittedAfter(code: Memory, src: nat, n: nat, i: Insn, delta: int)
    requires WellFormed(i) && src + n + i.length <= |code|
    ensures Emitted(code, src, i.(length := i.length + n), delta) == code[src..src + n] + Emitted(code, src + n, i, delta)
    ensures EmittedLength(i.(length := i.length + n)) == EmittedLength(i) + n
    ensures Extra(i.(length := i.length + n), delta) == Extra(i, delta)
  {
    var h := HeadSize(i);
    assert code[src..src + n + h] == code[src..src + n] + code[src + n..src + n + h];
  }

  predicate ModRmIs(x: Addressing, b: Byte)
  {
    match x case NoModRm => true case Address32(c) => c == b case Address16(c) => c == b case RegistersOnly(c) => c == b
  }

  // The instruction i, whose ModR/M byte is at the given address, with the length the table gives it: that of 32-bit
  // addressing in any case.
  function Remeasured(m: Memory, at: nat, i: Insn): Insn
  {
    var extra := ExtraBytes(i.addressing, ByteAt(m, at + 1));
    if i.addressing.NoModRm? || i.length < extra then i
    else i.(length := i.length - extra + 1 + Extra32(ByteAt(m, at), ByteAt(m, at + 1)))
  }

  lemma {:induction false} RemeasuredLonger(m: Memory, at: nat, i: Insn, n: nat)
    requires ExtraBytes(i.addressing, ByteAt(m, at + 1)) <= i.length
    ensures Remeasured(m, at, i.(length := i.length + n)) == Remeasured(m, at, i).(length := Remeasured(m, at, i).length + n)
  {
    hide Extra32, ExtraBytes;
  }

  lemma {:induction false} RemeasuredChangesLength(m: Memory, at: nat, i: Insn)
    ensures Remeasured(m, at, i) == i.(length := Remeasured(m, at, i).length)
  {
  }

  // That is the length it has if and only if it is measured.
  lemma {:induction false} MeasuredIff(m: Memory, at: nat, i: Insn)
    requires ModRmIs(i.addressing, ByteAt(m, at)) && ExtraBytes(i.addressing, ByteAt(m, at + 1)) <= i.length
    ensures Remeasured(m, at, i) == i <==> Measured(i.addressing)
  {
    ModRmTableIsSdm(ByteAt(m, at), ByteAt(m, at + 1));
  }

  lemma {:induction false} FinishFixes(e: Entry, p: Prefixes, m: Memory, a: nat, fixed: nat, x: Addressing, imm: nat, control: Control, i: Insn)
    requires 1 <= fixed && Finish(m, a, fixed, x, imm, control) == Some(i) && !control.Relative?
    requires Shape(e, p, fixed + imm, if x.NoModRm? then 0 else fixed, false, false)
    requires ModRmIs(x, ByteAt(m, a + fixed))
    ensures
      var j := Remeasured(m, a + fixed, i);
      WellFormed(j) && (a + j.length <= |m| ==> Fixes(e, p.operand16, p.address16, m, a, j))
  {
    ModRmTableIsSdm(ByteAt(m, a + fixed), ByteAt(m, a + fixed + 1));
  }

  lemma {:induction false} RelativeFixes(e: Entry, p: Prefixes, m: Memory, a: nat, form: Form, flow: Flow, i: Insn)
    requires RelativeAt(m, a, 1, form, flow) == Some(i) && !flow.Transaction? && (IsShort(form) <==> flow.Count?)
    requires Shape(e, p, 1 + FieldSize(form), 0, true, flow.Count?)
    ensures Fixes(e, p.operand16, p.address16, m, a, i)
  {
  }

  // An entry of the right shape for the opcode at a describes the instruction decoded there.
  lemma {:induction false} OneByteEntryFixes(e: Entry, m: Memory, a: nat, p: Prefixes, i: Insn)
    requires a < |m| && DecodeOneByte(m, a, p) == Some(i)
    requires !(0x70 <= m[a] <= 0x7F) && m[a] != 0xEB
    requires Shape(e, p, PlainSize(m[a], Reg(ByteAt(m, a + 1)), p), if HasModRm(m[a]) then 1 else 0,
                   IsNear(m[a]) || IsCount(m[a]), IsCount(m[a]))
    ensures
      var j := Remeasured(m, a + 1, i);
      WellFormed(j) && (a + j.length <= |m| ==> Fixes(e, p.operand16, p.address16, m, a, j))
  {
    var op := m[a];
    var modrm := ByteAt(m, a + 1);
    if IsCount(op) {
      RelativeFixes(e, p, m, a, ShortForm(p), Count(op), i);
    } else if IsNear(op) {
      RelativeFixes(e, p, m, a, NearForm(p), if op == 0xE8 then Call else Jump, i);
    } else if op == 0xC7 && modrm == 0xF8 {
      ModRmTableIsSdm(modrm, ByteAt(m, a + 2));
    } else {
      FinishFixes(e, p, m, a, 1, if HasModRm(op) then AddressingAt(m, a + 1, p) else NoModRm,
                  ImmediateSize(op, Reg(modrm), p), ControlOf(op, Reg(modrm)), i);
    }
  }

  /** The entry that measures a one-byte opcode describes the instruction decoded there, but for its length. */
  lemma {:induction false} OneByteFixes(m: Memory, a: nat, p: Prefixes, i: Insn)
    requires a < |m| && DecodeOneByte(m, a, p) == Some(i)
    requires !IsPrefix(m[a]) && m[a] != 0x0F && !(0x70 <= m[a] <= 0x7F) && m[a] != 0xEB
    ensures
      var j := Remeasured(m, a + 1, i);
      WellFormed(j) && (a + j.length <= |m| ==> Fixes(Measuring(m[a], Reg(ByteAt(m, a + 1))), p.operand16, p.address16, m, a, j))
  {
    assert Defined(m[a], Reg(ByteAt(m, a + 1)));
    OneByteTableIsSdm(m[a], Reg(ByteAt(m, a + 1)), p);
    OneByteEntryFixes(Measuring(m[a], Reg(ByteAt(m, a + 1))), m, a, p, i);
  }

  // Where ModR/M stands, in an instruction whose byte behind 0F is at a, and in one that begins at a with its opcode.
  function ModRmAt0F(m: Memory, a: nat): nat { if ByteAt(m, a) in {0x38, 0x3A} then a + 2 else a + 1 }

  function ModRmAt(m: Memory, a: nat): nat
    requires a < |m|
  {
    if m[a] == 0x0F then ModRmAt0F(m, a + 1)
    else if !IsVector(m, a) then a + 1
    else if m[a] == 0xC5 then a + 3
    else if m[a] == 0x62 then a + 5
    else a + 4
  }

  lemma {:induction false} OneByteModRm(m: Memory, a: nat, p: Prefixes, i: Insn)
    requires a < |m| && DecodeOneByte(m, a, p) == Some(i)
    ensures ModRmIs(i.addressing, ByteAt(m, a + 1)) && ExtraBytes(i.addressing, ByteAt(m, a + 2)) < i.length && WellFormed(i)
    ensures i.control.Relative? ==> Measured(i.addressing)
  {
  }

  lemma {:induction false} TwoByteModRm(m: Memory, a: nat, p: Prefixes, i: Insn)
    requires a < |m| && DecodeTwoByte(m, a, p) == Some(i)
    ensures ModRmIs(i.addressing, ByteAt(m, ModRmAt0F(m, a))) && ExtraBytes(i.addressing, ByteAt(m, ModRmAt0F(m, a) + 1)) < i.length
    ensures i.control.Relative? ==> Measured(i.addressing)
  {
  }

  lemma {:induction false} VectorModRm(m: Memory, a: nat, p: Prefixes, map_: Byte, evex: bool, i: Insn)
    requires DecodeVector(m, a, p, map_, evex) == Some(i)
    ensures ModRmIs(i.addressing, ByteAt(m, a + 1)) && ExtraBytes(i.addressing, ByteAt(m, a + 2)) < i.length && !i.control.Relative?
  {
  }

  lemma {:induction false} LeafModRm(m: Memory, a: nat, p: Prefixes, i: Insn)
    requires Decode(m, a, p) == Some(i) && !IsPrefix(m[a])
    ensures ModRmIs(i.addressing, ByteAt(m, ModRmAt(m, a))) && ExtraBytes(i.addressing, ByteAt(m, ModRmAt(m, a) + 1)) < i.length
    ensures i.control.Relative? ==> Measured(i.addressing)
  {
    hide DecodeOneByte, DecodeTwoByte, DecodeVector, ExtraBytes, ModRmIs, Measured;
    if m[a] == 0x0F {
      TwoByteModRm(m, a + 1, p, i.(length := i.length - 1));
    } else if !IsVector(m, a) {
      OneByteModRm(m, a, p, i);
    } else if m[a] == 0x8F {
      XopModRm(m, a, p, i);
    } else {
      var n := if m[a] == 0xC5 then 2 else if m[a] == 0xC4 then 3 else 4;
      var map_ := if n == 2 then 1 else if n == 3 then ByteAt(m, a + 1) % 0x20 else ByteAt(m, a + 1) % 8;
      VectorModRm(m, a + n, p, map_, n == 4, i.(length := i.length - n));
    }
  }

  lemma {:induction false} XopModRm(m: Memory, a: nat, p: Prefixes, i: Insn)
    requires a < |m| && m[a] == 0x8F && DecodeVectorPrefix(m, a, p) == Some(i)
    ensures ModRmIs(i.addressing, ByteAt(m, a + 4)) && ExtraBytes(i.addressing, ByteAt(m, a + 5)) < i.length && !i.control.Relative?
  {
  }

  lemma {:induction false} TwoByteEntryFixes(e: Entry, m: Memory, a: nat, p: Prefixes, i: Insn)
    requires a < |m| && DecodeTwoByte(m, a, p) == Some(i) && !IsUd(m[a])
    requires
      var op := m[a];
      if 0x80 <= op <= 0x8F then Shape(e, p, 1 + FieldSize(NearForm(p)), 0, true, false)
      else if op == 0x78 && (p.operand16 || p.repne) then Shape(e, p, 4, 0, false, false)
      else Shape(e, p, (if op in {0x38, 0x3A} then 2 else 1) + (if HasImmediate0F(op) || op == 0x3A then 1 else 0),
                 if NoOperands0F(op) then 0 else if op in {0x38, 0x3A} then 2 else 1, false, false)
    ensures
      var j := Remeasured(m, ModRmAt0F(m, a), i);
      WellFormed(j) && (a + j.length <= |m| ==> Fixes(e, p.operand16, p.address16, m, a, j))
  {
    var op := m[a];
    var modrm := ByteAt(m, a + 1);
    if 0x80 <= op <= 0x8F {
      RelativeFixes(e, p, m, a, NearForm(p), Branch(op - 0x80), i);
    } else if op == 0x78 {
      if !p.operand16 && !p.repne {
        FinishFixes(e, p, m, a, 1, AddressingAt(m, a + 1, p), 0, Sequential, i);
      }
    } else if NoOperands0F(op) {
      FinishFixes(e, p, m, a, 1, NoModRm, 0, Sequential, i);
    } else if op in {0x38, 0x3A} {
      FinishFixes(e, p, m, a, 2, AddressingAt(m, a + 2, p), if op == 0x3A then 1 else 0, Sequential, i);
    } else if 0x20 <= op <= 0x26 {
      FinishFixes(e, p, m, a, 1, RegistersOnly(modrm), 0, Sequential, i);
    } else {
      FinishFixes(e, p, m, a, 1, AddressingAt(m, a + 1, p), if HasImmediate0F(op) then 1 else 0, Sequential, i);
    }
  }

  lemma {:induction false} TwoByteFixes(m: Memory, a: nat, p: Prefixes, i: Insn)
    requires a < |m| && DecodeTwoByte(m, a, p) == Some(i) && !IsUd(m[a])
    ensures
      var j := Remeasured(m, ModRmAt0F(m, a), i);
      && WellFormed(j)
      && (a + j.length <= |m| ==> Fixes(Measuring0F(m[a], Reg(ByteAt(m, a + 1)), p), p.operand16, p.address16, m, a, j))
  {
    TwoByteTableIsSdm(m[a], Reg(ByteAt(m, a + 1)), p);
    TwoByteEntryFixes(Measuring0F(m[a], Reg(ByteAt(m, a + 1)), p), m, a, p, i);
  }

  // How the copier reads an instruction: as one of some length, or only its first n bytes, which are copied, and
  // the next one, which is passed over.
  datatype Reading = Whole(insn: Insn) | HeadOnly(n: nat)

  function LongerReading(r: Reading, n: nat): Reading
  {
    match r case Whole(i) => Whole(i.(length := i.length + n)) case HeadOnly(k) => HeadOnly(k + n)
  }

  // EVEX with opcode map 1.
  predicate IsEvex1(m: Memory, a: nat) { a + 4 < |m| && m[a] == 0x62 && m[a + 1] / 0x40 == 3 && m[a + 1] % 8 == 1 }

  // The flags of an operand-size or REPNE prefix are set, by a prefix or by the EVEX payload.
  predicate SizeFlags(p: Prefixes, payload: Byte) { p.operand16 || p.repne || payload % 4 in {1, 3} }

  // The opcode of map 1 behind EVEX, for which the two-byte table is used.
  function ReadOpcode(op: Byte, sized: bool, i: Insn): Reading
  {
    if op in {0x7A, 0x7B} then HeadOnly(0)
    else if op == 0x78 && sized then Whole(i.(length := 4))
    else Whole(i)
  }

  // The byte at a behind 0F: UD0 and UD1 have no entry.
  function TwoByteReading(m: Memory, a: nat, i: Insn): Reading
  {
    if IsUd(ByteAt(m, a)) then HeadOnly(0) else Whole(Remeasured(m, ModRmAt0F(m, a), i))
  }

  function ReadAs(m: Memory, a: nat, p: Prefixes, i: Insn): Reading
    decreases |m| - a
  {
    if a >= |m| then Whole(i)
    else if IsPrefix(m[a]) then
      (if i.length <= 1 then Whole(i) else LongerReading(ReadAs(m, a + 1, Note(p, m[a]), i.(length := i.length - 1)), 1))
    else if m[a] == 0x0F && IsUd(ByteAt(m, a + 1)) then HeadOnly(1)
    else if IsEvex1(m, a) && i.length > 4 then
      LongerReading(ReadOpcode(m[a + 4], SizeFlags(p, m[a + 2]), Remeasured(m, a + 5, i.(length := i.length - 4))), 4)
    else Whole(Remeasured(m, ModRmAt(m, a), i))
  }

  // The same for any map, behind VEX or EVEX, with the opcode at a.
  function VectorReading(m: Memory, a: nat, map_: Byte, evex: bool, sized: bool, i: Insn): Reading
  {
    var j := Remeasured(m, a + 1, i);
    if map_ == 1 && evex then ReadOpcode(ByteAt(m, a), sized, j) else Whole(j)
  }

  // The n bytes of VEX or EVEX in front of the opcode.
  function VectorHead(op: Byte): nat { if op == 0xC5 then 2 else if op == 0xC4 then 3 else 4 }

  // How an instruction behind VEX or EVEX is read, whose payload ends with the implied prefix.
  lemma {:induction false} HeadReading(m: Memory, a: nat, p: Prefixes, n: nat, map_: Byte, payload: Byte, i: Insn)
    requires a < |m| && m[a] in {0x62, 0xC4, 0xC5} && Mod(ByteAt(m, a + 1)) == 3 && n == VectorHead(m[a])
    requires m[a] == 0x62 ==> map_ == ByteAt(m, a + 1) % 8 && payload == ByteAt(m, a + 2)
    requires Longer(DecodeVector(m, a + n, p, map_, n == 4), n) == Some(i)
    ensures a + n < |m| && n < i.length && WellFormed(i.(length := i.length - n))
    ensures
      var r := VectorReading(m, a + n, map_, n == 4, SizeFlags(p, payload), i.(length := i.length - n));
      ReadAs(m, a, p, i) == LongerReading(r, n) && (r.Whole? ==> WellFormed(r.insn))
  {
    hide DecodeVector, ExtraBytes, Extra32;
    var j := i.(length := i.length - n);
    VectorModRm(m, a + n, p, map_, n == 4, j);
    VectorOpcode(m, a + n, p, map_, n == 4, j);
    RemeasuredLonger(m, a + n + 1, j, n);
  }

  // What a vector instruction's opcode can be.
  lemma {:induction false} VectorOpcode(m: Memory, a: nat, p: Prefixes, map_: Byte, evex: bool, i: Insn)
    requires DecodeVector(m, a, p, map_, evex) == Some(i)
    ensures a < |m| && 1 <= i.length && !i.control.Relative?
    ensures map_ == 1 ==> Vector0F(m[a], evex)
  {
  }

  lemma {:induction false} ReadIsWellFormed(m: Memory, a: nat, p: Prefixes, i: Insn)
    requires Decode(m, a, p) == Some(i)
    ensures WellFormed(i) && (ReadAs(m, a, p, i).Whole? ==> WellFormed(ReadAs(m, a, p, i).insn))
    decreases i.length
  {
    hide DecodeOneByte, DecodeTwoByte, DecodeVector, Remeasured, ExtraBytes;
    if IsPrefix(m[a]) {
      hide DecodeVectorPrefix, IsVector;
      ReadIsWellFormed(m, a + 1, Note(p, m[a]), i.(length := i.length - 1));
    } else if IsEvex1(m, a) {
      assert Longer(DecodeVector(m, a + 4, p, 1, true), 4) == Some(i);
      var j := i.(length := i.length - 4);
      VectorModRm(m, a + 4, p, 1, true, j);
      RemeasuredIsWellFormed(m, a + 5, j);
    } else {
      LeafModRm(m, a, p, i);
      RemeasuredIsWellFormed(m, ModRmAt(m, a), i);
    }
  }

  lemma {:induction false} RemeasuredIsWellFormed(m: Memory, at: nat, i: Insn)
    requires ModRmIs(i.addressing, ByteAt(m, at)) && ExtraBytes(i.addressing, ByteAt(m, at + 1)) < i.length && WellFormed(i)
    requires i.control.Relative? ==> Measured(i.addressing)
    ensures WellFormed(Remeasured(m, at, i)) && Remeasured(m, at, i) == i.(length := Remeasured(m, at, i).length)
  {
    MeasuredIff(m, at, i);
  }

  lemma {:induction false} PlainReading(m: Memory, a: nat, p: Prefixes, i: Insn)
    requires Decode(m, a, p) == Some(i) && !IsPrefix(m[a]) && m[a] !in {0x0F, 0x62, 0x8F, 0xC4, 0xC5}
    ensures ReadAs(m, a, p, i) == Whole(Remeasured(m, a + 1, i)) && DecodeOneByte(m, a, p) == Some(i)
  {
    hide DecodeOneByte;
  }

  // The copier reads the instruction as what it is.
  predicate ReadRight(m: Memory, a: nat, i: Insn) { ReadAs(m, a, NO_PREFIXES, i) == Whole(i) }

  /**
   Behind EVEX, map 1 is read as what it is if its operand is measured, unless the opcode is 7A or 7B; or if it is 78
   with a flag for 66 or F2 and the operand happens to have two bytes behind ModR/M, as EXTRQ and INSERTQ have.
   */
  lemma {:induction false} EvexReadRight(m: Memory, a: nat, p: Prefixes, i: Insn)
    requires Decode(m, a, p) == Some(i) && IsEvex1(m, a)
    ensures ReadAs(m, a, p, i) == Whole(i) <==>
      && m[a + 4] !in {0x7A, 0x7B}
      && if m[a + 4] == 0x78 && SizeFlags(p, m[a + 2]) then ExtraBytes(AddressingAt(m, a + 5, p), ByteAt(m, a + 6)) == 1 + 2
         else Measured(i.addressing)
  {
    assert Longer(DecodeVector(m, a + 4, p, 1, true), 4) == Some(i);
    var j := i.(length := i.length - 4);
    VectorModRm(m, a + 4, p, 1, true, j);
    MeasuredIff(m, a + 5, j);
  }

  /** Everything else is read as what it is exactly if it is measured, and not UD0 or UD1; prefixes make no difference. */
  lemma {:induction false} OthersReadRight(m: Memory, a: nat, p: Prefixes, i: Insn)
    requires Decode(m, a, p) == Some(i)
    ensures IsPrefix(m[a]) ==>
      (ReadAs(m, a, p, i) == Whole(i) <==>
       i.length > 1 && ReadAs(m, a + 1, Note(p, m[a]), i.(length := i.length - 1)) == Whole(i.(length := i.length - 1)))
    ensures !IsPrefix(m[a]) && !IsEvex1(m, a) ==> 
      (ReadAs(m, a, p, i) == Whole(i) <==> Measured(i.addressing) && !(m[a] == 0x0F && IsUd(ByteAt(m, a + 1))))
  {
    hide DecodeOneByte, DecodeTwoByte, DecodeVectorPrefix, IsVector, Remeasured, Measured, ExtraBytes;
    if !IsPrefix(m[a]) {
      LeafModRm(m, a, p, i);
      MeasuredIff(m, ModRmAt(m, a), i);
    }
  }

  // A misread instruction is left somewhere in its middle, or behind its end.
  lemma {:induction false} MisreadEndsElsewhere(m: Memory, a: nat, p: Prefixes, i: Insn)
    requires Decode(m, a, p) == Some(i) && ReadAs(m, a, p, i) != Whole(i)
    ensures
      match ReadAs(m, a, p, i)
      case Whole(x) => x.length != i.length && x == i.(length := x.length)
      case HeadOnly(n) => n + 1 < i.length
    decreases i.length
  {
    hide DecodeOneByte, Extra32;
    if IsPrefix(m[a]) {
      hide DecodeTwoByte, DecodeVectorPrefix, IsVector, ExtraBytes;
      MisreadEndsElsewhere(m, a + 1, Note(p, m[a]), i.(length := i.length - 1));
    } else if IsEvex1(m, a) {
      assert Longer(DecodeVector(m, a + 4, p, 1, true), 4) == Some(i);
      VectorModRm(m, a + 4, p, 1, true, i.(length := i.length - 4));
    } else {
      hide ExtraBytes;
      hide DecodeVectorPrefix, IsVector;
      LeafModRm(m, a, p, i);
      if m[a] == 0x0F {
        TwoByteModRm(m, a + 1, p, i.(length := i.length - 1));
      }
    }
  }

  // The entry CopyVexEvexCommon picks for a vector opcode describes the instruction as it is read.
  lemma {:induction false} VectorFixes(e: Entry, p: Prefixes, m: Memory, a: nat, q: Prefixes, map_: Byte, evex: bool, i: Insn)
    requires a < |m| && DecodeVector(m, a, q, map_, evex) == Some(i)
    requires map_ == 1 ==> m[a] !in {0x7A, 0x7B} && e == Measuring0F(m[a], 0, p)
    requires map_ in {2, 5, 6} ==> e == BYTES_2_MOD
    requires map_ == 3 ==> e == BYTES_2_MOD_1
    ensures map_ == 1 && m[a] == 0x78 && (p.operand16 || p.repne) ==>
      a + 4 <= |m| ==> Fixes(e, p.operand16, p.address16, m, a, i.(length := 4))
    ensures !(map_ == 1 && m[a] == 0x78 && (p.operand16 || p.repne)) ==>
      var j := Remeasured(m, a + 1, i);
      a + j.length <= |m| ==> Fixes(e, p.operand16, p.address16, m, a, j)
  {
    var x := AddressingAt(m, a + 1, q);
    if map_ == 1 && m[a] == 0x78 && (p.operand16 || p.repne) {
    } else if map_ == 1 {
      TwoByteTableIsSdm(m[a], 0, p);
      VectorEntryFixes(e, p, m, a, q, evex, i);
    } else {
      FinishFixes(e, p, m, a, 1, x, if map_ == 3 then 1 else 0, Sequential, i);
    }
  }

  // The entry that CopyVexEvexCommon ends up with.
  function CommonEntry(map_: Byte, op: Byte, sized: bool): Entry
  {
    if map_ == 1 then
      (if CopyTable0F(op).handler.On0F78? then (if sized then BYTES_4 else BYTES_2_MOD) else CopyTable0F(op))
    else if map_ == 3 then BYTES_2_MOD_1
    else BYTES_2_MOD
  }

  lemma {:induction false} CommonReading(p: Prefixes, m: Memory, a: nat, q: Prefixes, map_: Byte, evex: bool, i: Insn)
    requires a < |m| && DecodeVector(m, a, q, map_, evex) == Some(i)
    ensures
      var r := VectorReading(m, a, map_, evex, p.operand16 || p.repne, i);
      var e := CommonEntry(map_, m[a], p.operand16 || p.repne);
      match r
      case HeadOnly(n) => n == 0 && e.handler.OnInvalid?
      case Whole(x) => !e.handler.OnInvalid? && (a + x.length <= |m| ==> Fixes(e, p.operand16, p.address16, m, a, x))
  {
    hide Fixes, DecodeVector, CopyTable0F, Remeasured;
    var op := m[a];
    Handlers0F(op);
    VectorOpcode(m, a, q, map_, evex, i);
    assert Remeasured(m, a + 1, i).(length := 4) == i.(length := 4) by {
      RemeasuredChangesLength(m, a + 1, i);
    }
    if map_ != 1 || op !in {0x7A, 0x7B} {
      VectorFixes(CommonEntry(map_, op, p.operand16 || p.repne), p, m, a, q, map_, evex, i);
    }
  }

  lemma {:induction false} VectorEntryFixes(e: Entry, p: Prefixes, m: Memory, a: nat, q: Prefixes, evex: bool, i: Insn)
    requires a < |m| && DecodeVector(m, a, q, 1, evex) == Some(i)
    requires Shape(e, p, 1 + (if HasImmediate0F(m[a]) then 1 else 0), if NoOperands0F(m[a]) then 0 else 1, false, false)
    ensures
      var j := Remeasured(m, a + 1, i);
      a + j.length <= |m| ==> Fixes(e, p.operand16, p.address16, m, a, j)
  {
    var op := m[a];
    if op == 0x77 {
      FinishFixes(e, p, m, a, 1, NoModRm, 0, Sequential, i);
    } else {
      FinishFixes(e, p, m, a, 1, AddressingAt(m, a + 1, q), if HasImmediate0F(op) then 1 else 0, Sequential, i);
    }
  }

  // The opcode and ModR/M are part of what is read.
  lemma {:induction false} RemeasuredIsLonger(m: Memory, a: nat, p: Prefixes, i: Insn)
    requires Decode(m, a, p) == Some(i) && m[a] in {0x62, 0x8F, 0xC4, 0xC5}
    ensures 2 <= Remeasured(m, ModRmAt(m, a), i).length
  {
    hide DecodeTwoByte, DecodeVector;
    LeafModRm(m, a, p, i);
  }

  // The entries of AMD's XOP maps 8, 9 and 10, whose opcode is the fourth byte.
  lemma {:induction false} XopFixes(e: Entry, p: Prefixes, m: Memory, a: nat, imm: nat, i: Insn)
    requires Finish(m, a, 4, AddressingAt(m, a + 4, p), imm, Sequential) == Some(i)
    requires (imm == 0 && e == BYTES_XOP) || (imm == 1 && e == BYTES_XOP_1) || (imm == 4 && e == BYTES_XOP_4)
    ensures
      var j := Remeasured(m, a + 4, i);
      a + j.length <= |m| ==> Fixes(e, p.operand16, p.address16, m, a, j)
  {
    FinishFixes(e, p, m, a, 4, AddressingAt(m, a + 4, p), imm, Sequential, i);
  }

  // The entry that CopyXop picks.
  function XopEntry(b: Byte): Entry
  {
    if b % 0x20 == 8 then BYTES_XOP_1 else if b % 0x20 == 9 then BYTES_XOP else if b % 0x20 == 10 then BYTES_XOP_4 else BYTES_2_MOD
  }

  lemma {:induction false} XopEntryFixes(m: Memory, a: nat, p: Prefixes, i: Insn)
    requires Decode(m, a, p) == Some(i) && a < |m| && m[a] == 0x8F
    ensures
      var j := Remeasured(m, ModRmAt(m, a), i);
      a + 1 < |m| && 2 <= j.length && ReadAs(m, a, p, i) == Whole(j) && (a + j.length <= |m| ==> Fixes(XopEntry(m[a + 1]), p.operand16, p.address16, m, a, j))
  {
    hide Fixes, Remeasured;
    RemeasuredIsLonger(m, a, p, i);
    if IsVector(m, a) {
      var b := m[a + 1] % 0x20;
      XopFixes(XopEntry(m[a + 1]), p, m, a, if b == 8 then 1 else if b == 9 then 0 else 4, i);
    } else {
      OneByteFixes(m, a, p, i);
    }
  }

  // What is decoded behind 62, C4 and C5.
  lemma {:induction false} VectorCases(m: Memory, a: nat, p: Prefixes, i: Insn)
    requires Decode(m, a, p) == Some(i) && a < |m| && m[a] in {0x62, 0xC4, 0xC5}
    ensures
      var r := ReadAs(m, a, p, i);
      a + 1 < |m| && 2 <= (if r.Whole? then r.insn else i).length
    ensures m[a + 1] / 0x40 != 3 ==>
      var j := Remeasured(m, a + 1, i);
      ReadAs(m, a, p, i) == Whole(j) && (a + j.length <= |m| ==> Fixes(BYTES_2_MOD, p.operand16, p.address16, m, a, j))
    ensures m[a + 1] / 0x40 == 3 ==> DecodeVectorPrefix(m, a, p) == Some(i)
  {
    hide Fixes, DecodeVector, Remeasured;
    if m[a + 1] / 0x40 != 3 {
      RemeasuredIsLonger(m, a, p, i);
      OneByteFixes(m, a, p, i);
    } else {
      var n := VectorHead(m[a]);
      var map_ := if n == 2 then 1 else if n == 3 then m[a + 1] % 0x20 else m[a + 1] % 8;
      HeadReading(m, a, p, n, map_, ByteAt(m, a + 2), i);
    }
  }

  // The instruction i is readable at src, there is room for its copy at dst, and the two places
  // are apart. code is the memory that i was decoded from.
  ghost predicate Placed(m: Memory, code: Memory, dst: nat, src: nat, i: Insn)
  {
    && |m| == |code| <= TWO32
    && WellFormed(i)
    && src + i.length <= |m|
    && dst + i.length + 4 <= |m|
    && (dst + i.length + 4 <= src || src + i.length <= dst)
    && forall k :: src <= k < src + i.length ==> m[k] == code[k]
  }

  // There is room for what is read, and for what is written.
  ghost predicate PlacedFor(m: Memory, code: Memory, dst: nat, src: nat, r: Reading, i: Insn)
  {
    Placed(m, code, dst, src, if r.Whole? then r.insn else i)
  }

  lemma {:induction false} PlacedAfterHead(m: Memory, code: Memory, dst: nat, src: nat, n: nat, i: Insn, j: Insn)
    requires i == j.(length := j.length + n) && WellFormed(j)
    requires Placed(m, code, dst, src, i)
    ensures m[src..src + n] == code[src..src + n]
    ensures Placed(Written(m, dst, code[src..src + n]), code, dst + n, src + n, j)
  {
  }

  // The head and the copied rest make up the copy of the whole.
  lemma {:induction false} WrittenWithHead(m: Memory, code: Memory, dst: nat, src: nat, n: nat, i: Insn, j: Insn)
    requires i == j.(length := j.length + n) && WellFormed(j)
    requires Placed(m, code, dst, src, i)
    ensures EmittedLength(i) == |Emitted(code, src, i, dst - src)| <= i.length + 4
    ensures EmittedLength(j) == |Emitted(code, src + n, j, dst - src)| <= j.length + 4
    ensures Written(Written(m, dst, code[src..src + n]), dst + n, Emitted(code, src + n, j, dst - src))
         == Written(m, dst, Emitted(code, src, i, dst - src))
    ensures Extra(i, dst - src) == Extra(j, dst - src)
  {
    hide Emitted, EmittedLength, Extra, Written, WellFormed;
    EmittedAfter(code, src, n, j, dst - src);
    EmittedHasLength(code, src + n, j, dst - src);
    WrittenTwice(m, dst, code[src..src + n], Emitted(code, src + n, j, dst - src));
  }
}
