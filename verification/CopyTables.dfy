/** The x86 copy tables of disasm.cpp, and that they describe the instruction set. */
module CopyTables {
  import opened Words
  import opened IntelDecoder

  datatype Handler =
    | OnBytes | OnPrefix | OnSegment | OnJump
    | On0F | On0F78 | On0F00 | On0FB8 | On66 | On67 | OnF2 | OnF3 | OnF6 | OnF7 | OnFF
    | OnVex2 | OnVex3 | OnEvex | OnXop | OnInvalid

  datatype Entry = Entry(
    fixedSize: nat, fixedSize16: nat, modOffset: nat, relOffset: nat,
    dynamic: bool, address: bool, noEnlarge: bool, handler: Handler)

  // The sizes of an entry that has its own handler are ignored.
  function Special(h: Handler): Entry { Entry(0, 0, 0, 0, false, false, false, h) }

  function Bytes(fixed: nat, fixed16: nat, modOffset: nat, relOffset: nat): Entry
  {
    Entry(fixed, fixed16, modOffset, relOffset, false, false, false, OnBytes)
  }

  function Dynamic(e: Entry): Entry { e.(dynamic := true) }

  const BYTES_1 := Bytes(1, 1, 0, 0)
  const BYTES_1_ADDRESS := Bytes(5, 3, 0, 0).(address := true)
  const BYTES_2 := Bytes(2, 2, 0, 0)
  const BYTES_2_CANT_JUMP := Bytes(2, 2, 0, 1).(noEnlarge := true)
  const BYTES_3 := Bytes(3, 3, 0, 0)
  const BYTES_3_OR_5 := Bytes(5, 3, 0, 0)
  const BYTES_3_OR_5_TARGET := Bytes(5, 3, 0, 1)
  const BYTES_4 := Bytes(4, 4, 0, 0)
  const BYTES_5_OR_7_DYNAMIC := Dynamic(Bytes(7, 5, 0, 0))
  const BYTES_2_MOD := Bytes(2, 2, 1, 0)
  const BYTES_2_MOD_1 := Bytes(3, 3, 1, 0)
  const BYTES_2_MOD_OPERAND := Bytes(6, 4, 1, 0)
  const BYTES_3_MOD := Bytes(3, 3, 2, 0)
  const BYTES_3_MOD_1 := Bytes(4, 4, 2, 0)
  const BYTES_XOP := Bytes(5, 5, 4, 0)
  const BYTES_XOP_1 := Bytes(6, 6, 4, 0)
  const BYTES_XOP_4 := Bytes(9, 9, 4, 0)

  function EntryLow(op: Byte): Entry
    requires op < 0x40
  {
    if op == 0x0F then Special(On0F)
    else if IsSegment(op) then Special(OnSegment)
    else if op % 8 < 4 then BYTES_2_MOD
    else if op % 8 == 4 then BYTES_2
    else if op % 8 == 5 then BYTES_3_OR_5
    else BYTES_1
  }

  function Entry40(op: Byte): Entry
    requires 0x40 <= op < 0x80
  {
    if op < 0x62 then BYTES_1
    else if op == 0x62 then Special(OnEvex)
    else if op == 0x63 then BYTES_2_MOD
    else if op <= 0x65 then Special(OnSegment)
    else if op == 0x66 then Special(On66)
    else if op == 0x67 then Special(On67)
    else if op == 0x68 then BYTES_3_OR_5
    else if op == 0x69 then BYTES_2_MOD_OPERAND
    else if op == 0x6A then BYTES_2
    else if op == 0x6B then BYTES_2_MOD_1
    else if op <= 0x6F then BYTES_1
    else Special(OnJump)
  }

  function Entry80(op: Byte): Entry
    requires 0x80 <= op < 0xC0
  {
    if op in {0x80, 0x82, 0x83} then BYTES_2_MOD_1
    else if op == 0x81 then BYTES_2_MOD_OPERAND
    else if op <= 0x8E then BYTES_2_MOD
    else if op == 0x8F then Special(OnXop)
    else if op == 0x9A then BYTES_5_OR_7_DYNAMIC
    else if op <= 0x9F then BYTES_1
    else if op <= 0xA3 then BYTES_1_ADDRESS
    else if op == 0xA8 then BYTES_2
    else if op == 0xA9 then BYTES_3_OR_5
    else if op <= 0xAF then BYTES_1
    else if op <= 0xB7 then BYTES_2
    else BYTES_3_OR_5
  }

  function EntryC0(op: Byte): Entry
    requires 0xC0 <= op < 0xE0
  {
    if op <= 0xC1 then BYTES_2_MOD_1
    else if op == 0xC2 then BYTES_3
    else if op == 0xC4 then Special(OnVex3)
    else if op == 0xC5 then Special(OnVex2)
    else if op == 0xC6 then BYTES_2_MOD_1
    else if op == 0xC7 then BYTES_2_MOD_OPERAND
    else if op == 0xC8 then BYTES_4
    else if op in {0xC3, 0xC9, 0xD7} then BYTES_1
    else if op == 0xCA then Dynamic(BYTES_3)
    else if op in {0xCB, 0xCC, 0xCE, 0xCF} then Dynamic(BYTES_1)
    else if op == 0xCD then Dynamic(BYTES_2)
    else if op in {0xD4, 0xD5} then BYTES_2
    else if op == 0xD6 then Special(OnInvalid)
    else BYTES_2_MOD
  }

  function EntryE0(op: Byte): Entry
    requires 0xE0 <= op
  {
    if op <= 0xE3 then BYTES_2_CANT_JUMP
    else if op <= 0xE7 then BYTES_2
    else if op <= 0xE9 then BYTES_3_OR_5_TARGET
    else if op == 0xEA then BYTES_5_OR_7_DYNAMIC
    else if op == 0xEB then Special(OnJump)
    else if op <= 0xEF then BYTES_1
    else if op == 0xF0 then Special(OnPrefix)
    else if op == 0xF1 then Dynamic(BYTES_1)
    else if op == 0xF2 then Special(OnF2)
    else if op == 0xF3 then Special(OnF3)
    else if op == 0xF6 then Special(OnF6)
    else if op == 0xF7 then Special(OnF7)
    else if op <= 0xFD then BYTES_1
    else if op == 0xFE then BYTES_2_MOD
    else Special(OnFF)
  }

  // s_rceCopyTable, x86 build.
  function CopyTable(op: Byte): Entry
  {
    if op < 0x40 then EntryLow(op)
    else if op < 0x80 then Entry40(op)
    else if op < 0xC0 then Entry80(op)
    else if op < 0xE0 then EntryC0(op)
    else EntryE0(op)
  }

  // s_rceCopyTable0F, x86 build.
  function CopyTable0F(op: Byte): Entry
  {
    if op < 0x40 then EntryLow0F(op)
    else if op < 0x80 then Entry400F(op)
    else if op < 0xC0 then Entry800F(op)
    else EntryC00F(op)
  }

  function EntryLow0F(op: Byte): Entry
    requires op < 0x40
  {
    if op == 0x00 then Special(On0F00)
    else if op in {0x04, 0x0A, 0x0C, 0x25, 0x27, 0x36, 0x39} || 0x3B <= op then Special(OnInvalid)
    else if 0x05 <= op <= 0x09 || op in {0x0B, 0x0E} || 0x30 <= op <= 0x37 then BYTES_1
    else if op == 0x0F then BYTES_2_MOD_1
    else if op == 0x38 then BYTES_3_MOD
    else if op == 0x3A then BYTES_3_MOD_1
    else BYTES_2_MOD
  }

  function Entry400F(op: Byte): Entry
    requires 0x40 <= op < 0x80
  {
    if 0x70 <= op <= 0x73 then BYTES_2_MOD_1
    else if op == 0x77 then BYTES_1
    else if op == 0x78 then Special(On0F78)
    else if op in {0x7A, 0x7B} then Special(OnInvalid)
    else BYTES_2_MOD
  }

  function Entry800F(op: Byte): Entry
    requires 0x80 <= op < 0xC0
  {
    if op <= 0x8F then BYTES_3_OR_5_TARGET
    else if op in {0xA0, 0xA1, 0xA2, 0xA8, 0xA9, 0xAA} then BYTES_1
    else if op in {0xA4, 0xAC, 0xBA} then BYTES_2_MOD_1
    else if op == 0xB8 then Special(On0FB8)
    else if op == 0xB9 then Special(OnInvalid)
    else BYTES_2_MOD
  }

  function EntryC00F(op: Byte): Entry
    requires 0xC0 <= op
  {
    if op in {0xC2, 0xC4, 0xC5, 0xC6} then BYTES_2_MOD_1
    else if 0xC8 <= op <= 0xCF then BYTES_1
    else if op == 0xFF then Special(OnInvalid)
    else BYTES_2_MOD
  }

  // s_rbModRm: the SIB flag and the number in the low bits (NOTSIB). RIP is an X64 flag.
  function ModRmFlags(b: Byte): (bool, nat)
  {
    if b >= 0xC0 then (false, 0)
    else if b >= 0x80 then (false, if b % 8 == 4 then 5 else 4)
    else if b >= 0x40 then (false, if b % 8 == 4 then 2 else 1)
    else if b % 8 == 4 then (true, 1)
    else if b % 8 == 5 then (false, 4)
    else (false, 0)
  }

  // The ModR/M part of OnBytes.
  function ModRmExtra(modrm: Byte, sib: Byte): nat
  {
    var (hasSib, extra) := ModRmFlags(modrm);
    if hasSib && sib % 8 == 5 then
      extra + (if modrm < 0x40 then 4 else if modrm < 0x80 then 1 else if modrm < 0xC0 then 4 else 0)
    else extra
  }

  function FixedBytes(e: Entry, operandOverride: bool, addressOverride: bool): nat
  {
    if e.address then (if addressOverride then e.fixedSize16 else e.fixedSize)
    else if operandOverride then e.fixedSize16
    else e.fixedSize
  }

  // How many bytes OnBytes copies for e at a.
  function CopiedBytes(e: Entry, operandOverride: bool, addressOverride: bool, m: Memory, a: nat): nat
  {
    FixedBytes(e, operandOverride, addressOverride) +
    if e.modOffset > 0 then ModRmExtra(ByteAt(m, a + e.modOffset), ByteAt(m, a + e.modOffset + 1)) else 0
  }

  /** Exactly the addressing forms whose length OnBytes finds: it always reads a 32-bit ModR/M. */
  predicate Measured(x: Addressing)
  {
    match x
    case NoModRm => true
    case Address32(_) => true
    case Address16(b) => Mod(b) == 3 || (Mod(b) == 1 && Rm(b) != 4) || (Mod(b) == 0 && Rm(b) !in {4, 5, 6})
    case RegistersOnly(b) => Mod(b) == 3 || (Mod(b) == 0 && Rm(b) !in {4, 5})
  }

  lemma {:induction false} ModRmTableIsSdm(b: Byte, sib: Byte)
    ensures ModRmExtra(b, sib) == Extra32(b, sib)
    ensures ModRmExtra(b, sib) == Extra16(b) <==> Measured(Address16(b))
    ensures ModRmExtra(b, sib) == 0 <==> Measured(RegistersOnly(b))
  {
  }

  // The entry that finally measures an opcode: some handlers pick one by the ModR/M byte or by the
  // prefixes. Those of VEX, EVEX and XOP treat other operands as an ordinary ModR/M instruction.
  function Measuring(op: Byte, reg: Byte): Entry
  {
    if op in {0x62, 0x8F, 0xC4, 0xC5, 0xFF} then BYTES_2_MOD
    else if op == 0xF6 then (if reg == 0 then BYTES_2_MOD_1 else BYTES_2_MOD)
    else if op == 0xF7 then (if reg == 0 then BYTES_2_MOD_OPERAND else BYTES_2_MOD)
    else CopyTable(op)
  }

  function Measuring0F(op: Byte, reg: Byte, p: Prefixes): Entry
  {
    if op == 0x00 then (if reg == 6 then Dynamic(BYTES_2_MOD) else BYTES_2_MOD)
    else if op == 0x78 then (if p.repne || p.operand16 then BYTES_4 else BYTES_2_MOD)
    else if op == 0xB8 then (if p.rep then BYTES_2_MOD else Dynamic(BYTES_3_OR_5))
    else CopyTable0F(op)
  }

  // An entry for an instruction with this many bytes beside ModR/M, SIB and displacement, ModR/M at
  // the given offset (0 for none), and a relative target or not.
  predicate Shape(e: Entry, p: Prefixes, size: nat, modOffset: nat, relative: bool, count: bool)
  {
    && e.handler.OnBytes?
    && FixedBytes(e, p.operand16, p.address16) == size + (if modOffset > 0 then 1 else 0)
    && e.modOffset == modOffset
    && e.relOffset == (if relative then 1 else 0)
    && (relative ==> !e.dynamic)
    && e.noEnlarge == count
  }

  predicate IsNear(op: Byte) { op in {0xE8, 0xE9} }

  predicate IsCount(op: Byte) { 0xE0 <= op <= 0xE3 }

  // Bytes beside ModR/M, SIB and displacement, in the one-byte map.
  function PlainSize(op: Byte, reg: Byte, p: Prefixes): nat
  {
    1 + if IsNear(op) then FieldSize(NearForm(p)) else if IsCount(op) then 1 else ImmediateSize(op, reg, p)
  }

  predicate OneByte(op: Byte, reg: Byte)
  {
    !IsPrefix(op) && op != 0x0F && Defined(op, reg) && !(0x70 <= op <= 0x7F) && op != 0xEB
  }

  predicate OneByteShape(op: Byte, reg: Byte, p: Prefixes)
  {
    Shape(Measuring(op, reg), p, PlainSize(op, reg, p),
          if HasModRm(op) then 1 else 0, IsNear(op) || IsCount(op), IsCount(op))
  }

  lemma {:induction false} OneByte00(op: Byte, reg: Byte, p: Prefixes)
    requires OneByte(op, reg) && 0x00 <= op < 0x40
    ensures OneByteShape(op, reg, p)
  {
  }

  lemma {:induction false} OneByte40(op: Byte, reg: Byte, p: Prefixes)
    requires OneByte(op, reg) && 0x40 <= op < 0x68
    ensures OneByteShape(op, reg, p)
  {
  }

  lemma {:induction false} OneByte68(op: Byte, reg: Byte, p: Prefixes)
    requires OneByte(op, reg) && 0x68 <= op < 0x80
    ensures OneByteShape(op, reg, p)
  {
  }

  lemma {:induction false} OneByte80(op: Byte, reg: Byte, p: Prefixes)
    requires OneByte(op, reg) && 0x80 <= op < 0x88
    ensures OneByteShape(op, reg, p)
  {
  }

  lemma {:induction false} OneByte88(op: Byte, reg: Byte, p: Prefixes)
    requires OneByte(op, reg) && 0x88 <= op < 0x90
    ensures OneByteShape(op, reg, p)
  {
  }

  lemma {:induction false} OneByte90(op: Byte, reg: Byte, p: Prefixes)
    requires OneByte(op, reg) && 0x90 <= op < 0xA0
    ensures OneByteShape(op, reg, p)
  {
  }

  lemma {:induction false} OneByteA0(op: Byte, reg: Byte, p: Prefixes)
    requires OneByte(op, reg) && 0xA0 <= op < 0xB0
    ensures OneByteShape(op, reg, p)
  {
  }

  lemma {:induction false} OneByteB0(op: Byte, reg: Byte, p: Prefixes)
    requires OneByte(op, reg) && 0xB0 <= op < 0xC0
    ensures OneByteShape(op, reg, p)
  {
  }

  lemma {:induction false} OneByteC0(op: Byte, reg: Byte, p: Prefixes)
    requires OneByte(op, reg) && 0xC0 <= op < 0xC4
    ensures OneByteShape(op, reg, p)
  {
  }

  lemma {:induction false} OneByteC4(op: Byte, reg: Byte, p: Prefixes)
    requires OneByte(op, reg) && 0xC4 <= op < 0xC8
    ensures OneByteShape(op, reg, p)
  {
  }

  lemma {:induction false} OneByteC8(op: Byte, reg: Byte, p: Prefixes)
    requires OneByte(op, reg) && 0xC8 <= op < 0xCA
    ensures OneByteShape(op, reg, p)
  {
  }

  lemma {:induction false} OneByteCA(op: Byte, reg: Byte, p: Prefixes)
    requires OneByte(op, reg) && 0xCA <= op < 0xCC
    ensures OneByteShape(op, reg, p)
  {
  }

  lemma {:induction false} OneByteCC(op: Byte, reg: Byte, p: Prefixes)
    requires OneByte(op, reg) && 0xCC <= op < 0xD4
    ensures OneByteShape(op, reg, p)
  {
  }

  lemma {:induction false} OneByteD4(op: Byte, reg: Byte, p: Prefixes)
    requires OneByte(op, reg) && 0xD4 <= op < 0xE0
    ensures OneByteShape(op, reg, p)
  {
  }

  lemma {:induction false} OneByteE0(op: Byte, reg: Byte, p: Prefixes)
    requires OneByte(op, reg) && 0xE0 <= op < 0xF0
    ensures OneByteShape(op, reg, p)
  {
  }

  lemma {:induction false} OneByteF0(op: Byte, reg: Byte, p: Prefixes)
    requires OneByte(op, reg) && 0xF0 <= op < 0xF7
    ensures OneByteShape(op, reg, p)
  {
  }

  lemma {:induction false} OneByteF7(op: Byte, reg: Byte, p: Prefixes)
    requires OneByte(op, reg) && 0xF7 <= op < 0x100
    ensures OneByteShape(op, reg, p)
  {
  }

  /** Every opcode of the one-byte map is measured as the SDM reads it, short jumps apart. */
  lemma {:induction false} OneByteTableIsSdm(op: Byte, reg: Byte, p: Prefixes)
    requires OneByte(op, reg)
    ensures OneByteShape(op, reg, p)
  {
    if op < 0x40 {
      OneByte00(op, reg, p);
    } else if op < 0x68 {
      OneByte40(op, reg, p);
    } else if op < 0x80 {
      OneByte68(op, reg, p);
    } else if op < 0x88 {
      OneByte80(op, reg, p);
    } else if op < 0x90 {
      OneByte88(op, reg, p);
    } else if op < 0xA0 {
      OneByte90(op, reg, p);
    } else if op < 0xB0 {
      OneByteA0(op, reg, p);
    } else if op < 0xC0 {
      OneByteB0(op, reg, p);
    } else if op < 0xC4 {
      OneByteC0(op, reg, p);
    } else if op < 0xC8 {
      OneByteC4(op, reg, p);
    } else if op < 0xCA {
      OneByteC8(op, reg, p);
    } else if op < 0xCC {
      OneByteCA(op, reg, p);
    } else if op < 0xD4 {
      OneByteCC(op, reg, p);
    } else if op < 0xE0 {
      OneByteD4(op, reg, p);
    } else if op < 0xF0 {
      OneByteE0(op, reg, p);
    } else if op < 0xF7 {
      OneByteF0(op, reg, p);
    } else {
      OneByteF7(op, reg, p);
    }
  }

  predicate TwoByteShape(op: Byte, reg: Byte, p: Prefixes)
  {
    if 0x80 <= op <= 0x8F then Shape(Measuring0F(op, reg, p), p, 1 + FieldSize(NearForm(p)), 0, true, false)
    else if op == 0x78 && (p.operand16 || p.repne) then Shape(Measuring0F(op, reg, p), p, 4, 0, false, false)
    else Shape(Measuring0F(op, reg, p), p,
               (if op in {0x38, 0x3A} then 2 else 1) + (if HasImmediate0F(op) || op == 0x3A then 1 else 0),
               if NoOperands0F(op) then 0 else if op in {0x38, 0x3A} then 2 else 1, false, false)
  }

  lemma {:induction false} TwoByte00(op: Byte, reg: Byte, p: Prefixes)
    requires !Undefined0F(op, p) && 0x00 <= op < 0x40
    ensures TwoByteShape(op, reg, p)
  {
  }

  lemma {:induction false} TwoByte40(op: Byte, reg: Byte, p: Prefixes)
    requires !Undefined0F(op, p) && 0x40 <= op < 0x80
    ensures TwoByteShape(op, reg, p)
  {
  }

  lemma {:induction false} TwoByte80(op: Byte, reg: Byte, p: Prefixes)
    requires !Undefined0F(op, p) && 0x80 <= op < 0xC0
    ensures TwoByteShape(op, reg, p)
  {
  }

  lemma {:induction false} TwoByteC0(op: Byte, reg: Byte, p: Prefixes)
    requires !Undefined0F(op, p) && 0xC0 <= op < 0x100
    ensures TwoByteShape(op, reg, p)
  {
  }

  /** Likewise for the two-byte map. */
  lemma {:induction false} TwoByteTableIsSdm(op: Byte, reg: Byte, p: Prefixes)
    requires !Undefined0F(op, p)
    ensures TwoByteShape(op, reg, p)
  {
    if op < 0x40 {
      TwoByte00(op, reg, p);
    } else if op < 0x80 {
      TwoByte40(op, reg, p);
    } else if op < 0xC0 {
      TwoByte80(op, reg, p);
    } else {
      TwoByteC0(op, reg, p);
    }
  }

  // Which opcodes have their own handler.
  function HandlerOf(op: Byte): Handler
  {
    if 0x70 <= op <= 0x7F || op == 0xEB then OnJump
    else if IsSegment(op) then OnSegment
    else if op == 0x0F then On0F
    else if op == 0x62 then OnEvex
    else if op == 0x66 then On66
    else if op == 0x67 then On67
    else if op == 0x8F then OnXop
    else if op == 0xC4 then OnVex3
    else if op == 0xC5 then OnVex2
    else if op == 0xD6 then OnInvalid
    else if op == 0xF0 then OnPrefix
    else if op == 0xF2 then OnF2
    else if op == 0xF3 then OnF3
    else if op == 0xF6 then OnF6
    else if op == 0xF7 then OnF7
    else if op == 0xFF then OnFF
    else OnBytes
  }

  lemma {:induction false} Handler00(op: Byte)
    requires 0x00 <= op < 0x40
    ensures CopyTable(op).handler == HandlerOf(op)
  {
  }

  lemma {:induction false} Handler40(op: Byte)
    requires 0x40 <= op < 0x60
    ensures CopyTable(op).handler == HandlerOf(op)
  {
  }

  lemma {:induction false} Handler60(op: Byte)
    requires 0x60 <= op < 0x80
    ensures CopyTable(op).handler == HandlerOf(op)
  {
  }

  lemma {:induction false} Handler80(op: Byte)
    requires 0x80 <= op < 0xC0
    ensures CopyTable(op).handler == HandlerOf(op)
  {
  }

  lemma {:induction false} HandlerC0(op: Byte)
    requires 0xC0 <= op < 0xC8
    ensures CopyTable(op).handler == HandlerOf(op)
  {
  }

  lemma {:induction false} HandlerC8(op: Byte)
    requires 0xC8 <= op < 0xE0
    ensures CopyTable(op).handler == HandlerOf(op)
  {
  }

  lemma {:induction false} HandlerE0(op: Byte)
    requires 0xE0 <= op < 0xF0
    ensures CopyTable(op).handler == HandlerOf(op)
  {
  }

  lemma {:induction false} HandlerF0(op: Byte)
    requires 0xF0 <= op < 0x100
    ensures CopyTable(op).handler == HandlerOf(op)
  {
  }

  lemma {:induction false} Handlers(op: Byte)
    ensures CopyTable(op).handler == HandlerOf(op)
  {
    if op < 0x40 {
      Handler00(op);
    } else if op < 0x80 {
      if op < 0x60 {
        Handler40(op);
      } else {
        Handler60(op);
      }
    } else if op < 0xC0 {
      Handler80(op);
    } else if op < 0xC8 {
      HandlerC0(op);
    } else if op < 0xE0 {
      HandlerC8(op);
    } else {
      if op < 0xF0 {
        HandlerE0(op);
      } else {
        HandlerF0(op);
      }
    }
  }

  lemma {:induction false} Handlers0F(op: Byte)
    ensures var h := CopyTable0F(op).handler;
      && (h.On0F00? <==> op == 0x00) && (h.On0F78? <==> op == 0x78) && (h.On0FB8? <==> op == 0xB8)
      && (h in {OnBytes, On0F00, On0F78, On0FB8, OnInvalid})
      && (h.OnInvalid? <==> Undefined0F(op, NO_PREFIXES) && op != 0xB8)
  {
  }
}
