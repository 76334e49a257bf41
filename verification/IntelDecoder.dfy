/**
 The reference: how a 32-bit processor reads one instruction, after chapter 2 and appendix A of
 the Intel SDM, Volume 2. It is written from the structure of the encoding (prefixes, opcode map,
 ModR/M, SIB, displacement, immediate) and shares nothing with the copy tables.
 */
module IntelDecoder {
  import opened Words

  // Prefix bytes seen so far, as far as they matter to length or control flow.
  datatype Prefixes = Prefixes(operand16: bool, address16: bool, repne: bool, rep: bool)

  const NO_PREFIXES := Prefixes(false, false, false, false)

  // What a displacement relative to the next instruction is for. Count is LOOPNE, LOOPE, LOOP and
  // JECXZ; Transaction is XBEGIN, whose displacement names its abort handler.
  datatype Flow = Jump | Branch(cc: Byte) | Call | Count(op: Byte) | Transaction

  // Under an operand-size prefix a taken branch keeps only the low 16 bits of EIP.
  datatype Form = Short | Short16 | Near16 | Near32

  datatype Control =
    | Sequential                                        // nothing in the encoding depends on EIP
    | Departs                                           // RET, IRET, indirect or far JMP, INT3
    | Relative(form: Form, flow: Flow, disp: int)

  // How the operand bytes after the opcode are addressed.
  datatype Addressing =
    | NoModRm
    | Address32(modrm: Byte)
    | Address16(modrm: Byte)
    | RegistersOnly(modrm: Byte)                        // MOV to and from control registers

  datatype Insn = Insn(length: nat, control: Control, addressing: Addressing)

  // The displacement is always the last field of the instruction.
  function FieldSize(form: Form): nat
  {
    match form case Short => 1 case Short16 => 1 case Near16 => 2 case Near32 => 4
  }

  // Where a relative instruction at a goes when it is taken.
  function Target(i: Insn, a: int): Word
    requires i.control.Relative?
  {
    var next := Wrap(a + i.length + i.control.disp);
    if i.control.form.Near16? || i.control.form.Short16? then next % 0x1_0000 else next
  }

  predicate IsSegment(op: Byte) { op in {0x26, 0x2E, 0x36, 0x3E, 0x64, 0x65} }

  predicate IsPrefix(op: Byte) { IsSegment(op) || op in {0x66, 0x67, 0xF0, 0xF2, 0xF3} }

  function Note(p: Prefixes, op: Byte): Prefixes
  {
    if op == 0x66 then p.(operand16 := true)
    else if op == 0x67 then p.(address16 := true)
    else if op == 0xF2 then p.(repne := true)
    else if op == 0xF3 then p.(rep := true)
    else p
  }

  function Mod(modrm: Byte): Byte { modrm / 0x40 }

  function Reg(modrm: Byte): Byte { modrm / 8 % 8 }

  function Rm(modrm: Byte): Byte { modrm % 8 }

  // SIB and displacement bytes after a ModR/M byte (tables 2-1, 2-2 and 2-3).
  function Extra32(modrm: Byte, sib: Byte): nat
  {
    if Mod(modrm) == 3 then 0
    else if Mod(modrm) == 1 then (if Rm(modrm) == 4 then 2 else 1)
    else if Mod(modrm) == 2 then (if Rm(modrm) == 4 then 5 else 4)
    else if Rm(modrm) == 5 then 4
    else if Rm(modrm) != 4 then 0
    else if sib % 8 == 5 then 5
    else 1
  }

  function Extra16(modrm: Byte): nat
  {
    if Mod(modrm) == 3 then 0
    else if Mod(modrm) == 1 then 1
    else if Mod(modrm) == 2 then 2
    else if Rm(modrm) == 6 then 2
    else 0
  }

  function ExtraBytes(addressing: Addressing, sib: Byte): nat
  {
    match addressing
    case NoModRm => 0
    case Address32(b) => 1 + Extra32(b, sib)
    case Address16(b) => 1 + Extra16(b)
    case RegistersOnly(_) => 1
  }

  // Reading past the end of memory gives 0; Finish rejects such an instruction.
  function ByteAt(m: Memory, a: nat): Byte { if a < |m| then m[a] else 0 }

  function AddressingAt(m: Memory, a: nat, p: Prefixes): Addressing
  {
    if p.address16 then Address16(ByteAt(m, a)) else Address32(ByteAt(m, a))
  }

  // The instruction of the given fixed and immediate size whose last fixed byte precedes ModR/M.
  function Finish(m: Memory, a: nat, fixed: nat, addressing: Addressing, imm: nat, control: Control): Option<Insn>
  {
    var n := fixed + ExtraBytes(addressing, ByteAt(m, a + fixed + 1)) + imm;
    if a + n <= |m| then Some(Insn(n, control, addressing)) else None
  }

  // A signed displacement field.
  function DispAt(m: Memory, a: nat, form: Form): int
    requires a + FieldSize(form) <= |m|
  {
    match form
    case Short => Signed8(m[a])
    case Short16 => Signed8(m[a])
    case Near16 => Signed16(U16At(m, a))
    case Near32 => Signed32(U32At(m, a))
  }

  function RelativeAt(m: Memory, a: nat, fixed: nat, form: Form, flow: Flow): Option<Insn>
  {
    var n := fixed + FieldSize(form);
    if a + n > |m| then None
    else Some(Insn(n, Relative(form, flow, DispAt(m, a + fixed, form)), NoModRm))
  }

  function ShortForm(p: Prefixes): Form { if p.operand16 then Short16 else Short }

  predicate IsShort(form: Form) { form.Short? || form.Short16? }

  function NearForm(p: Prefixes): Form { if p.operand16 then Near16 else Near32 }

  // One-byte opcode map.
  predicate HasModRm(op: Byte)
  {
    || (op < 0x40 && op % 8 < 4)
    || op in {0x62, 0x63, 0x69, 0x6B}
    || 0x80 <= op <= 0x8F
    || op in {0xC0, 0xC1, 0xC4, 0xC5, 0xC6, 0xC7}
    || 0xD0 <= op <= 0xD3
    || 0xD8 <= op <= 0xDF
    || op in {0xF6, 0xF7, 0xFE, 0xFF}
  }

  // Immediate, far-pointer and absolute-offset bytes.
  function ImmediateSize(op: Byte, reg: Byte, p: Prefixes): nat
  {
    var z := if p.operand16 then 2 else 4;
    if op < 0x40 then (if op % 8 == 4 then 1 else if op % 8 == 5 then z else 0)
    else if op in {0x68, 0x69, 0x81, 0xA9, 0xC7} || 0xB8 <= op <= 0xBF then z
    else if op in {0x6A, 0x6B, 0x80, 0x82, 0x83, 0xA8, 0xC0, 0xC1, 0xC6, 0xCD, 0xD4, 0xD5} then 1
    else if 0xB0 <= op <= 0xB7 || 0xE4 <= op <= 0xE7 then 1
    else if op in {0x9A, 0xEA} then z + 2
    else if 0xA0 <= op <= 0xA3 then (if p.address16 then 2 else 4)
    else if op in {0xC2, 0xCA} then 2
    else if op == 0xC8 then 3
    else if op == 0xF6 && reg == 0 then 1
    else if op == 0xF7 && reg == 0 then z
    else 0
  }

  function ControlOf(op: Byte, reg: Byte): Control
  {
    if op in {0xC2, 0xC3, 0xCA, 0xCB, 0xCC, 0xCF, 0xEA} || (op == 0xFF && (reg == 4 || reg == 5))
    then Departs
    else Sequential
  }

  // D6 has no meaning, nor have group 3 /1 and group 5 /7.
  predicate Defined(op: Byte, reg: Byte)
  {
    op != 0xD6 && !(op in {0xF6, 0xF7} && reg == 1) && !(op == 0xFF && reg == 7)
  }

  function DecodeOneByte(m: Memory, a: nat, p: Prefixes): Option<Insn>
    requires a < |m|
  {
    var op := m[a];
    var modrm := ByteAt(m, a + 1);
    if 0x70 <= op <= 0x7F then RelativeAt(m, a, 1, ShortForm(p), Branch(op - 0x70))
    else if 0xE0 <= op <= 0xE3 then RelativeAt(m, a, 1, ShortForm(p), Count(op))
    else if op == 0xEB then RelativeAt(m, a, 1, ShortForm(p), Jump)
    else if op == 0xE8 then RelativeAt(m, a, 1, NearForm(p), Call)
    else if op == 0xE9 then RelativeAt(m, a, 1, NearForm(p), Jump)
    else if op == 0xC7 && modrm == 0xF8 then
      (match RelativeAt(m, a, 2, NearForm(p), Transaction)
       case None => None
       case Some(i) => Some(i.(addressing := AddressingAt(m, a + 1, p))))
    else if !Defined(op, Reg(modrm)) then None
    else Finish(m, a, 1, if HasModRm(op) then AddressingAt(m, a + 1, p) else NoModRm,
                ImmediateSize(op, Reg(modrm), p), ControlOf(op, Reg(modrm)))
  }

  // Two-byte opcode map, 0F xx.
  predicate NoOperands0F(op: Byte)
  {
    || 0x05 <= op <= 0x09 || op == 0x0B || op == 0x0E
    || 0x30 <= op <= 0x35 || op == 0x37
    || op == 0x77
    || 0xA0 <= op <= 0xA2 || 0xA8 <= op <= 0xAA
    || 0xC8 <= op <= 0xCF
  }

  predicate HasImmediate0F(op: Byte)
  {
    op in {0x0F, 0x70, 0x71, 0x72, 0x73, 0xA4, 0xAC, 0xBA, 0xC2, 0xC4, 0xC5, 0xC6}
  }

  // UD1 and UD0.
  predicate IsUd(op: Byte) { op in {0xB9, 0xFF} }

  // Opcodes with no meaning here, but for those two. B8 without F3 is an IA-64 escape.
  predicate Undefined0F(op: Byte, p: Prefixes)
  {
    || op in {0x04, 0x0A, 0x0C, 0x25, 0x27, 0x36, 0x39, 0x7A, 0x7B, 0xB9, 0xFF}
    || 0x3B <= op <= 0x3F
    || (op == 0xB8 && !p.rep)
  }

  // EXTRQ and INSERTQ take registers and two immediate bytes.
  function Decode0F78(m: Memory, a: nat, p: Prefixes): Option<Insn>
    requires a < |m|
  {
    var modrm := ByteAt(m, a + 1);
    if !p.operand16 && !p.repne then Finish(m, a, 1, AddressingAt(m, a + 1, p), 0, Sequential)
    else if Mod(modrm) != 3 then None
    else Finish(m, a, 1, RegistersOnly(modrm), 2, Sequential)
  }

  // a is the address of the byte after 0F.
  function DecodeTwoByte(m: Memory, a: nat, p: Prefixes): (r: Option<Insn>)
    requires a < |m|
    ensures r.Some? ==> WellFormed(r.value) && a + r.value.length <= |m|
  {
    var op := m[a];
    if IsUd(op) then Finish(m, a, 1, AddressingAt(m, a + 1, p), 0, Departs)
    else if Undefined0F(op, p) then None
    else if 0x80 <= op <= 0x8F then RelativeAt(m, a, 1, NearForm(p), Branch(op - 0x80))
    else if op == 0x78 then Decode0F78(m, a, p)
    else if NoOperands0F(op) then Finish(m, a, 1, NoModRm, 0, Sequential)
    else if op == 0x38 then Finish(m, a, 2, AddressingAt(m, a + 2, p), 0, Sequential)
    else if op == 0x3A then Finish(m, a, 2, AddressingAt(m, a + 2, p), 1, Sequential)
    else if 0x20 <= op <= 0x26 then Finish(m, a, 1, RegistersOnly(ByteAt(m, a + 1)), 0, Sequential)
    else Finish(m, a, 1, AddressingAt(m, a + 1, p), if HasImmediate0F(op) then 1 else 0, Sequential)
  }

  // VEX, EVEX and XOP: a prefix that selects an opcode map, then opcode and ModR/M.
  // Opcodes of map 1 that have vector forms; 78 to 7B only behind EVEX.
  predicate Vector0F(op: Byte, evex: bool)
  {
    || (evex && 0x78 <= op <= 0x7B)
    || 0x10 <= op <= 0x17 || 0x28 <= op <= 0x2F || 0x40 <= op <= 0x77 || 0x7C <= op <= 0x7F
    || 0x90 <= op <= 0x9F || op == 0xAE || op == 0xC2 || 0xC4 <= op <= 0xC6 || 0xD0 <= op <= 0xFE
  }

  function DecodeVector(m: Memory, a: nat, p: Prefixes, map_: Byte, evex: bool): (r: Option<Insn>)
    ensures r.Some? ==> WellFormed(r.value) && a + r.value.length <= |m|
  {
    if a >= |m| then None
    else if map_ == 1 then
      if !Vector0F(m[a], evex) then None
      else if m[a] == 0x77 then Finish(m, a, 1, NoModRm, 0, Sequential)
      else Finish(m, a, 1, AddressingAt(m, a + 1, p), if HasImmediate0F(m[a]) then 1 else 0, Sequential)
    else if map_ in {2, 5, 6} then Finish(m, a, 1, AddressingAt(m, a + 1, p), 0, Sequential)
    else if map_ == 3 then Finish(m, a, 1, AddressingAt(m, a + 1, p), 1, Sequential)
    else None
  }

  function Longer(r: Option<Insn>, n: nat): Option<Insn>
  {
    if r.Some? then Some(r.value.(length := r.value.length + n)) else None
  }

  predicate IsVector(m: Memory, a: nat)
    requires a < |m|
  {
    || (m[a] in {0x62, 0xC4, 0xC5} && Mod(ByteAt(m, a + 1)) == 3)
    || (m[a] == 0x8F && 8 <= ByteAt(m, a + 1) % 0x20)
  }

  // The EVEX payload: map in the low three bits of the first byte, whose bit 3 must be clear, and
  // bit 2 of the second byte set.
  function DecodeVectorPrefix(m: Memory, a: nat, p: Prefixes): Option<Insn>
    requires a < |m|
  {
    var b := ByteAt(m, a + 1);
    if m[a] == 0xC5 then Longer(DecodeVector(m, a + 2, p, 1, false), 2)
    else if m[a] == 0xC4 then Longer(DecodeVector(m, a + 3, p, b % 0x20, false), 3)
    else if m[a] == 0x8F then
      (match b % 0x20
       case 8 => Finish(m, a, 4, AddressingAt(m, a + 4, p), 1, Sequential)
       case 9 => Finish(m, a, 4, AddressingAt(m, a + 4, p), 0, Sequential)
       case 10 => Finish(m, a, 4, AddressingAt(m, a + 4, p), 4, Sequential)
       case _ => None)
    else if b / 8 % 2 == 1 || ByteAt(m, a + 2) / 4 % 2 == 0 then None
    else Longer(DecodeVector(m, a + 4, p, b % 8, true), 4)
  }

  // A relative instruction has an opcode before its displacement field.
  predicate WellFormed(i: Insn)
  {
    1 <= i.length && (i.control.Relative? ==> FieldSize(i.control.form) < i.length)
  }

  /** The instruction at a, given the prefixes already read before it. */
  function Decode(m: Memory, a: nat, p: Prefixes): (r: Option<Insn>)
    ensures r.Some? ==> WellFormed(r.value) && a + r.value.length <= |m|
    decreases |m| - a
  {
    if a >= |m| then None
    else if IsPrefix(m[a]) then Longer(Decode(m, a + 1, Note(p, m[a])), 1)
    else if m[a] == 0x0F then (if a + 1 >= |m| then None else Longer(DecodeTwoByte(m, a + 1, p), 1))
    else if IsVector(m, a) then DecodeVectorPrefix(m, a, p)
    else DecodeOneByte(m, a, p)
  }

  function DecodeAt(m: Memory, a: nat): Option<Insn> { Decode(m, a, NO_PREFIXES) }
}
