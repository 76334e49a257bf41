/** The A64 instructions that branch, build constants or read their own address, after chapters C6 and C7 of Arm DDI 0487. */
module Arm64 {
  import opened Words

  const TWO64: int := 0x1_0000_0000_0000_0000

  type Word64 = w: int | 0 <= w < TWO64

  function Wrap64(x: int): Word64 { x % TWO64 }

  function Signed64(w: Word64): int { if w < 0x8000_0000_0000_0000 then w else w - TWO64 }

  type Bit = b: int | 0 <= b < 2
  type Reg = r: int | 0 <= r < 32

  datatype Flags = Flags(n: bool, z: bool, c: bool, v: bool)

  // X0 to X30; register 31 reads as zero here.
  type Registers = x: seq<Word64> | |x| == 31 witness seq(31, _ => 0)

  // The 16 bytes of each vector register.
  type Vectors = v: seq<seq<Byte>> | |v| == 32 && forall k :: 0 <= k < 32 ==> |v[k]| == 16 witness seq(32, _ => seq(16, _ => 0))

  datatype State = State(pc: Word64, x: Registers, sp: Word64, vectors: Vectors, flags: Flags, memory: Memory)

  // n bytes of memory from a on; what is not there reads as zero.
  function Bytes(m: Memory, a: int, n: nat): (s: seq<Byte>)
    ensures |s| == n
  {
    seq(n, k requires 0 <= k < n => if Wrap64(a + k) < |m| then m[Wrap64(a + k)] else 0)
  }

  function Read(s: State, r: Reg): Word64 { if r == 31 then 0 else s.x[r] }

  function WriteTo(s: State, r: Reg, v: Word64): State { if r == 31 then s else s.(x := s.x[r := v]) }

  datatype Insn =
    | BranchIf(cond: nat, offset: int)
    | Branch(link: bool, offset: int)
    | CompareBranch(wide: bool, nonzero: bool, rt: Reg, offset: int)
    | TestBranch(bit: nat, nonzero: bool, rt: Reg, offset: int)
    | Move(wide: bool, kind: MoveKind, rd: Reg, imm: nat, hw: nat)
    | BranchTo(link: bool, rn: Reg)
    | ConsistentBranch(cond: nat, distance: int)                      // BC.cond, of FEAT_HBC
    | Address(page: bool, rd: Reg, distance: int)                     // ADR and ADRP
    | AddImmediate(wide: bool, rd: Reg, rn: Reg, imm: nat)
    | LoadLiteral(size: nat, simd: bool, rt: Reg, distance: int)      // LDR, LDRSW and PRFM (literal)
    | LoadVector(scale: nat, rt: Reg, rn: Reg, imm: nat)              // LDR (immediate, SIMD and FP), unsigned offset
    | Other

  datatype MoveKind = MovN | MovZ | MovK

  // ConditionHolds(cond)
  predicate Holds(cond: nat, f: Flags)
  {
    var base :=
      match cond / 2
      case 0 => f.z
      case 1 => f.c
      case 2 => f.n
      case 3 => f.v
      case 4 => f.c && !f.z
      case 5 => f.n == f.v
      case 6 => f.n == f.v && !f.z
      case _ => true;
    if cond % 2 == 1 && cond != 15 then !base else base
  }

  // The power of two that the half-word number hw is scaled by.
  function Scale(hw: nat): nat
  {
    if hw == 0 then 1 else if hw == 1 then 0x1_0000 else if hw == 2 then 0x1_0000_0000 else 0x1_0000_0000_0000
  }

  function HalfWord(v: nat, hw: nat): nat { v / Scale(hw) % 0x1_0000 }

  function PowerOfTwo(n: nat): (r: nat)
    ensures r > 0
  {
    if n == 0 then 1 else 2 * PowerOfTwo(n - 1)
  }

  predicate TestedBit(v: nat, bit: nat) { v / PowerOfTwo(bit) % 2 == 1 }

  // Whether a conditional branch is taken.
  predicate IsTaken(i: Insn, s: State)
  {
    match i
    case BranchIf(cond, _) => Holds(cond, s.flags)
    case ConsistentBranch(cond, _) => Holds(cond, s.flags)
    case CompareBranch(wide, nonzero, rt, _) => ((if wide then Read(s, rt) else Read(s, rt) % TWO32) != 0) == nonzero
    case TestBranch(bit, nonzero, rt, _) => TestedBit(Read(s, rt), bit) == nonzero
    case _ => true
  }

  function Moved(wide: bool, kind: MoveKind, old_: Word64, imm: nat, hw: nat): Word64
    requires imm < 0x1_0000 && hw < 4
  {
    var v: int :=
      match kind
      case MovZ => imm * Scale(hw)
      case MovN => (if wide then TWO64 else TWO32) - 1 - imm * Scale(hw)
      case MovK => old_ + (imm - HalfWord(old_, hw)) * Scale(hw);
    if wide then Wrap64(v) else v % TWO32
  }

  // Register 31 as a base or destination of an addition is the stack pointer.
  function Base(s: State, r: Reg): Word64 { if r == 31 then s.sp else s.x[r] }

  function WriteBase(s: State, r: Reg, v: Word64): State { if r == 31 then s.(sp := v) else s.(x := s.x[r := v]) }

  function LiteralSize(size: nat, simd: bool): nat { if simd then (if size == 0 then 4 else if size == 1 then 8 else 16) else if size == 1 then 8 else 4 }

  // The value an integer register gets from a literal: 0 is LDR Wt, 1 LDR Xt, 2 LDRSW.
  function LiteralValue(size: nat, b: seq<Byte>): Word64
    requires |b| == LiteralSize(size, false)
  {
    if size == 1 then U32At(b, 0) + TWO32 * U32At(b, 4)
    else if size == 2 then Wrap64(Signed32(U32At(b, 0)))
    else U32At(b, 0)
  }

  // A literal load from address a; a prefetch (integer, size 3) has no effect that can be seen.
  function Load(s: State, size: nat, simd: bool, rt: Reg, a: int): State
  {
    var b := Bytes(s.memory, a, LiteralSize(size, simd));
    if simd then WriteVector(s, rt, b)
    else if size == 3 then s
    else WriteTo(s, rt, LiteralValue(size, b))
  }

  // The rest of a vector register is cleared.
  function WriteVector(s: State, rt: Reg, b: seq<Byte>): State
    requires |b| <= 16
  {
    s.(vectors := s.vectors[rt := b + seq(16 - |b|, _ => 0)])
  }

  predicate IsBranch(i: Insn) { i.BranchIf? || i.Branch? || i.CompareBranch? || i.TestBranch? }

  function Execute(i: Insn, s: State): State
  {
    var next := s.(pc := Wrap64(s.pc + 4));
    match i
    case Branch(link, offset) => (if link then WriteTo(s, 30, Wrap64(s.pc + 4)) else s).(pc := Wrap64(s.pc + offset))
    case BranchTo(link, rn) => (if link then WriteTo(s, 30, Wrap64(s.pc + 4)) else s).(pc := Read(s, rn))
    case Move(wide, kind, rd, imm, hw) =>
      if imm < 0x1_0000 && hw < 4 then WriteTo(next, rd, Moved(wide, kind, Read(s, rd), imm, hw)) else next
    case Address(page, rd, offset) => WriteTo(next, rd, Wrap64((if page then s.pc - s.pc % 0x1000 else s.pc) + offset))
    case AddImmediate(wide, rd, rn, imm) =>
      WriteBase(next, rd, if wide then Wrap64(Base(s, rn) + imm) else (Base(s, rn) + imm) % TWO32)
    case LoadLiteral(size, simd, rt, offset) => Load(s, size, simd, rt, s.pc + offset).(pc := next.pc)
    case LoadVector(scale, rt, rn, imm) => LoadScaled(s, scale, rt, Base(s, rn) + PowerOfTwo(scale) * imm).(pc := next.pc)
    case ConsistentBranch(_, distance) => if IsTaken(i, s) then s.(pc := Wrap64(s.pc + distance)) else next
    case Other => next
    case _ => if IsTaken(i, s) then s.(pc := Wrap64(s.pc + i.offset)) else next
  }

  function LoadScaled(s: State, scale: nat, rt: Reg, a: int): State
  {
    var n := PowerOfTwo(scale);
    if n <= 16 then WriteVector(s, rt, Bytes(s.memory, a, n)) else s
  }

  // The field of w with the given weight of its lowest bit and the given number of values.
  function Field(w: nat, weight: nat, values: nat): (r: nat)
    requires 0 < weight && 0 < values
    ensures r < values
  {
    w / weight % values
  }

  // The fields that tell the instructions apart.
  function TopByte(w: Word): nat { Field(w, 0x100_0000, 0x100) }

  function Register(w: Word): Reg { Field(w, 1, 0x20) }

  // A field that is a two's complement number.
  function SignedField(w: Word, weight: nat, values: nat): int
    requires 0 < weight && 0 < values
  {
    var x := Field(w, weight, values);
    if x < values / 2 then x else x - values
  }

  function Decode(w: Word): Insn
  {
    var top := TopByte(w);
    var upper := Field(w, 0x8000_0000, 2) == 1;
    var nonzero := Field(w, 0x100_0000, 2) == 1;
    if top == 0x54 && Field(w, 0x10, 2) == 0 then BranchIf(Field(w, 1, 0x10), 4 * SignedField(w, 0x20, 0x8_0000))
    else if top == 0x54 then ConsistentBranch(Field(w, 1, 0x10), 4 * SignedField(w, 0x20, 0x8_0000))
    else if top in {0x14, 0x15, 0x16, 0x17, 0x94, 0x95, 0x96, 0x97} then Branch(upper, 4 * SignedField(w, 1, 0x400_0000))
    else if top in {0x34, 0x35, 0xB4, 0xB5} then CompareBranch(upper, nonzero, Register(w), 4 * SignedField(w, 0x20, 0x8_0000))
    else if top in {0x36, 0x37, 0xB6, 0xB7} then
      TestBranch((if upper then 32 else 0) + Field(w, 0x8_0000, 0x20), nonzero, Register(w), 4 * SignedField(w, 0x20, 0x4000))
    else if top in {0x12, 0x52, 0x72, 0x92, 0xD2, 0xF2} && Field(w, 0x80_0000, 2) == 1 then
      var kind := if top in {0x12, 0x92} then MovN else if top in {0x52, 0xD2} then MovZ else MovK;
      Move(upper, kind, Register(w), Field(w, 0x20, 0x1_0000), Field(w, 0x20_0000, 4))
    else if top == 0xD6 && Field(w, 0x400, 0x4000) == 0x7c0 && Field(w, 1, 0x20) == 0 then BranchTo(false, Field(w, 0x20, 0x20))
    else if top == 0xD6 && Field(w, 0x400, 0x4000) == 0xfc0 && Field(w, 1, 0x20) == 0 then BranchTo(true, Field(w, 0x20, 0x20))
    else if top % 0x20 == 0x10 then Address(upper, Register(w), (if upper then 0x1000 else 1) * SignedImmediate(w))
    else if top in {0x11, 0x91} && Field(w, 0x40_0000, 4) == 0 then
      AddImmediate(upper, Register(w), Field(w, 0x20, 0x20), Field(w, 0x400, 0x1000))
    else if top in {0x18, 0x1C, 0x58, 0x5C, 0x98, 0x9C, 0xD8} then
      LoadLiteral(top / 0x40, top / 4 % 2 == 1, Register(w), 4 * SignedField(w, 0x20, 0x8_0000))
    else if top % 0x40 == 0x3D && Field(w, 0x40_0000, 2) == 1 && (Field(w, 0x80_0000, 2) == 1 ==> top == 0x3D) then
      LoadVector(top / 0x40 + 4 * Field(w, 0x80_0000, 2), Register(w), Field(w, 0x20, 0x20), Field(w, 0x400, 0x1000))
    else Other
  }

  // The 21 bits of ADR and ADRP, the low two of which stand apart.
  function SignedImmediate(w: Word): int
  {
    var x := 4 * Field(w, 0x20, 0x8_0000) + Field(w, 0x2000_0000, 4);
    if x < 0x10_0000 then x else x - 0x20_0000
  }

  // n instructions of the block that stands at base, as long as control stays in it.
  function Steps(block: seq<Word>, base: nat, s: State, n: nat): Option<State>
    decreases n
  {
    if n == 0 then Some(s)
    else if base <= s.pc < base + 4 * |block| && (s.pc - base) % 4 == 0 then
      Steps(block, base, Execute(Decode(block[(s.pc - base) / 4]), s), n - 1)
    else None
  }

  // The assemblers: fields side by side.
  function AssembleBcc(condition: nat, delta: int): Word
    requires condition < 0x10
  {
    condition + 0x20 * (delta / 4 % 0x8_0000) + 0x54 * 0x100_0000
  }

  function AssembleB(link: bool, delta: int): Word
  {
    delta / 4 % 0x400_0000 + 0x5 * 0x400_0000 + (if link then 0x8000_0000 else 0)
  }

  function AssembleBr(rn: Reg, link: bool): Word
  {
    0x20 * rn + 0x400 * 0x35_87c0 + (if link then 0x20_0000 else 0)
  }

  function AssembleCbz(size: Bit, nz: Bit, rt: Reg, delta: int): Word
  {
    rt + 0x20 * (delta / 4 % 0x8_0000) + 0x100_0000 * nz + 0x200_0000 * 0x1a + 0x8000_0000 * size
  }

  function AssembleTbz(size: Bit, nz: Bit, rt: Reg, bit: Reg, delta: int): Word
  {
    rt + 0x20 * (delta / 4 % 0x4000) + 0x8_0000 * bit + 0x100_0000 * nz + 0x200_0000 * 0x1b + 0x8000_0000 * size
  }

  function AssembleMov(size: Bit, kind: nat, rd: Reg, imm: nat, shift: nat): Word
    requires kind < 4 && imm < 0x1_0000 && shift < 4
  {
    rd + 0x20 * imm + 0x20_0000 * shift + 0x80_0000 * 0x25 + 0x2000_0000 * kind + 0x8000_0000 * size
  }

  function AssembleAdr(page: Bit, rd: Reg, delta: int): Word
  {
    rd + 0x20 * (delta / 4 % 0x8_0000) + 0x100_0000 * 0x10 + 0x2000_0000 * (delta % 4) + 0x8000_0000 * page
  }

  function AssembleAdd(size: Bit, rd: Reg, rn: Reg, imm: nat): Word
    requires imm < 0x1000
  {
    rd + 0x20 * rn + 0x400 * imm + 0x100_0000 * 0x11 + 0x8000_0000 * size
  }

  function AssembleLdr(size: nat, simd: Bit, rt: Reg, delta: int): Word
    requires size < 4
  {
    rt + 0x20 * (delta / 4 % 0x8_0000) + 0x400_0000 * simd + 0x800_0000 * 3 + 0x4000_0000 * size
  }

  function AssembleLdrVector(scale: nat, rt: Reg, rn: Reg, imm: nat): Word
    requires scale < 8 && imm < 0x1000
  {
    rt + 0x20 * rn + 0x400 * imm + 0x40_0000 + 0x80_0000 * (scale / 4) + 0x100_0000 * 0x3d + 0x4000_0000 * (scale % 4)
  }

  lemma {:induction false} AtLeast(d: nat, k: nat)
    requires k >= 1
    ensures d * k >= d
  {
    if k > 1 {
      AtLeast(d, k - 1);
    }
  }

  lemma {:induction false} QuotientIsUnique(d: nat, q: nat, r: nat, q': nat, r': nat)
    requires r < d && r' < d && d * q + r == d * q' + r'
    ensures q == q' && r == r'
  {
    assert d * (q' - q) == d * q' - d * q && d * (q - q') == d * q - d * q';
    if q < q' {
      AtLeast(d, q' - q);
    } else if q' < q {
      AtLeast(d, q - q');
    }
  }

  lemma {:induction false} DivIs(w: nat, d: nat, q: nat, r: nat)
    requires r < d && w == d * q + r
    ensures w / d == q && w % d == r
  {
    QuotientIsUnique(d, q, r, w / d, w % d);
  }

  // Reading back a field that stands between lower and higher ones.
  lemma {:induction false} FieldIs(w: nat, weight: nat, values: nat, low: nat, x: nat, high: nat)
    requires low < weight && x < values && w == low + weight * (x + values * high)
    ensures Field(w, weight, values) == x
  {
    DivIs(w, weight, x + values * high, low);
    DivIs(x + values * high, values, high, x);
  }

  // The two's complement field of a displacement in range.
  lemma {:induction false} SignedIs(w: Word, weight: nat, values: nat, delta: int)
    requires 0 < weight && values in {0x4000, 0x8_0000, 0x400_0000} && delta % 4 == 0 && -(values / 2) <= delta / 4 < values / 2
    requires Field(w, weight, values) == delta / 4 % values
    ensures 4 * SignedField(w, weight, values) == delta
  {
    hide Field;
    var q := delta / 4;
    if q >= 0 {
      DivIs(q, values, 0, q);
    } else {
      DivIs(q + values, values, 0, q + values);
      assert q % values == (q + values) % values;
    }
  }

  lemma {:induction false} BccDecodes(condition: nat, delta: int)
    requires condition < 0x10 && delta % 4 == 0 && -0x10_0000 <= delta < 0x10_0000
    ensures Decode(AssembleBcc(condition, delta)) == BranchIf(condition, delta)
  {
    hide Field, SignedField;
    var w, f := AssembleBcc(condition, delta), delta / 4 % 0x8_0000;
    FieldIs(w, 0x100_0000, 0x100, condition + 0x20 * f, 0x54, 0);
    FieldIs(w, 0x10, 2, condition, 0, f + 0x8_0000 * 0x54);
    FieldIs(w, 1, 0x10, 0, condition, 2 * f + 0x10_0000 * 0x54);
    FieldIs(w, 0x20, 0x8_0000, condition, f, 0x54);
    SignedIs(w, 0x20, 0x8_0000, delta);
  }

  lemma {:induction false} BDecodes(link: bool, delta: int)
    requires delta % 4 == 0 && -0x800_0000 <= delta < 0x800_0000
    ensures Decode(AssembleB(link, delta)) == Branch(link, delta)
  {
    hide Field, SignedField;
    var w, f, l := AssembleB(link, delta), delta / 4 % 0x400_0000, if link then 1 else 0;
    var f3, f0 := f / 0x100_0000, f % 0x100_0000;
    FieldIs(w, 0x100_0000, 0x100, f0, 0x14 + f3 + 0x80 * l, 0);
    FieldIs(w, 0x8000_0000, 2, f + 0x5 * 0x400_0000, l, 0);
    FieldIs(w, 1, 0x400_0000, 0, f, 0x5 + 0x20 * l);
    SignedIs(w, 1, 0x400_0000, delta);
  }

  lemma {:induction false} BrDecodes(rn: Reg, link: bool)
    ensures Decode(AssembleBr(rn, link)) == BranchTo(link, rn)
  {
    hide Field, SignedField;
    var w, o := AssembleBr(rn, link), if link then 0xfc0 else 0x7c0;
    FieldIs(w, 0x100_0000, 0x100, 0x20 * rn + 0x400 * o, 0xD6, 0);
    FieldIs(w, 0x400, 0x4000, 0x20 * rn, o, 0xD6);
    FieldIs(w, 1, 0x20, 0, 0, rn + 0x20 * o + 0x8_0000 * 0xD6);
    FieldIs(w, 0x20, 0x20, 0, rn, o + 0x4000 * 0xD6);
  }

  lemma {:induction false} CbzDecodes(size: Bit, nz: Bit, rt: Reg, delta: int)
    requires delta % 4 == 0 && -0x10_0000 <= delta < 0x10_0000
    ensures Decode(AssembleCbz(size, nz, rt, delta)) == CompareBranch(size == 1, nz == 1, rt, delta)
  {
    hide Field, SignedField;
    var w, f := AssembleCbz(size, nz, rt, delta), delta / 4 % 0x8_0000;
    var top := 0x34 + nz + 0x80 * size;
    FieldIs(w, 0x100_0000, 0x100, rt + 0x20 * f, top, 0);
    FieldIs(w, 0x8000_0000, 2, rt + 0x20 * f + 0x100_0000 * (0x34 + nz), size, 0);
    FieldIs(w, 0x100_0000, 2, rt + 0x20 * f, nz, 0x1a + 0x40 * size);
    FieldIs(w, 1, 0x20, 0, rt, f + 0x8_0000 * top);
    FieldIs(w, 0x20, 0x8_0000, rt, f, top);
    SignedIs(w, 0x20, 0x8_0000, delta);
  }

  lemma {:induction false} TbzDecodes(size: Bit, nz: Bit, rt: Reg, bit: Reg, delta: int)
    requires delta % 4 == 0 && -0x8000 <= delta < 0x8000
    ensures Decode(AssembleTbz(size, nz, rt, bit, delta)) == TestBranch(32 * size + bit, nz == 1, rt, delta)
  {
    hide Field, SignedField;
    var w, f := AssembleTbz(size, nz, rt, bit, delta), delta / 4 % 0x4000;
    var top := 0x36 + nz + 0x80 * size;
    FieldIs(w, 0x100_0000, 0x100, rt + 0x20 * f + 0x8_0000 * bit, top, 0);
    FieldIs(w, 0x8000_0000, 2, rt + 0x20 * f + 0x8_0000 * bit + 0x100_0000 * (0x36 + nz), size, 0);
    FieldIs(w, 0x100_0000, 2, rt + 0x20 * f + 0x8_0000 * bit, nz, 0x1b + 0x40 * size);
    FieldIs(w, 1, 0x20, 0, rt, f + 0x4000 * bit + 0x8_0000 * top);
    FieldIs(w, 0x20, 0x4000, rt, f, bit + 0x20 * top);
    FieldIs(w, 0x8_0000, 0x20, rt + 0x20 * f, bit, top);
    SignedIs(w, 0x20, 0x4000, delta);
  }

  lemma {:induction false} MovDecodes(size: Bit, kind: nat, rd: Reg, imm: nat, shift: nat)
    requires kind in {0, 2, 3} && imm < 0x1_0000 && shift < 4
    ensures
      var k := if kind == 0 then MovN else if kind == 2 then MovZ else MovK;
      Decode(AssembleMov(size, kind, rd, imm, shift)) == Move(size == 1, k, rd, imm, shift)
  {
    hide Field, SignedField;
    var w := AssembleMov(size, kind, rd, imm, shift);
    var low := rd + 0x20 * imm + 0x20_0000 * shift;
    var top := 0x12 + 0x20 * kind + 0x80 * size;
    FieldIs(w, 0x100_0000, 0x100, low + 0x80_0000, top, 0);
    FieldIs(w, 0x8000_0000, 2, low + 0x80_0000 * 0x25 + 0x2000_0000 * kind, size, 0);
    FieldIs(w, 0x80_0000, 2, low, 1, top);
    FieldIs(w, 1, 0x20, 0, rd, imm + 0x1_0000 * shift + 0x4_0000 * (2 * top + 1));
    FieldIs(w, 0x20, 0x1_0000, rd, imm, shift + 4 * (2 * top + 1));
    FieldIs(w, 0x20_0000, 4, rd + 0x20 * imm, shift, 2 * top + 1);
  }

  lemma {:induction false} AdrDecodes(page: Bit, rd: Reg, delta: int)
    requires -0x10_0000 <= delta < 0x10_0000
    ensures Decode(AssembleAdr(page, rd, delta)) == Address(page == 1, rd, (if page == 1 then 0x1000 else 1) * delta)
  {
    hide Field, SignedField, SignedImmediate;
    var w, f, l := AssembleAdr(page, rd, delta), delta / 4 % 0x8_0000, delta % 4;
    var top := 0x10 + 0x20 * l + 0x80 * page;
    FieldIs(w, 0x100_0000, 0x100, rd + 0x20 * f, top, 0);
    FieldIs(w, 0x8000_0000, 2, rd + 0x20 * f + 0x100_0000 * (0x10 + 0x20 * l), page, 0);
    FieldIs(w, 1, 0x20, 0, rd, f + 0x8_0000 * top);
    FieldIs(w, 0x20, 0x8_0000, rd, f, top);
    FieldIs(w, 0x2000_0000, 4, rd + 0x20 * f + 0x100_0000 * 0x10, l, page);
    ImmediateIs(w, delta);
  }

  lemma {:induction false} ImmediateIs(w: Word, delta: int)
    requires -0x10_0000 <= delta < 0x10_0000
    requires Field(w, 0x20, 0x8_0000) == delta / 4 % 0x8_0000 && Field(w, 0x2000_0000, 4) == delta % 4
    ensures SignedImmediate(w) == delta
  {
    hide Field;
    assert delta == 4 * (delta / 4) + delta % 4;
  }

  lemma {:induction false} AddDecodes(size: Bit, rd: Reg, rn: Reg, imm: nat)
    requires imm < 0x1000
    ensures Decode(AssembleAdd(size, rd, rn, imm)) == AddImmediate(size == 1, rd, rn, imm)
  {
    hide Field, SignedField;
    var w, low := AssembleAdd(size, rd, rn, imm), rd + 0x20 * rn + 0x400 * imm;
    var top := 0x11 + 0x80 * size;
    FieldIs(w, 0x100_0000, 0x100, low, top, 0);
    FieldIs(w, 0x8000_0000, 2, low + 0x100_0000 * 0x11, size, 0);
    FieldIs(w, 0x40_0000, 4, low, 0, top);
    FieldIs(w, 1, 0x20, 0, rd, rn + 0x20 * imm + 0x8_0000 * top);
    FieldIs(w, 0x20, 0x20, rd, rn, imm + 0x4000 * top);
    FieldIs(w, 0x400, 0x1000, rd + 0x20 * rn, imm, 4 * top);
  }

  // The displacement that is left of delta in 19 bits.
  function Cut19(delta: int): int { var x := delta / 4 % 0x8_0000; 4 * (if x < 0x4_0000 then x else x - 0x8_0000) }

  lemma {:induction false} LdrDecodes(size: nat, simd: Bit, rt: Reg, delta: int)
    requires size < 4 && !(size == 3 && simd == 1)
    ensures Decode(AssembleLdr(size, simd, rt, delta)) == LoadLiteral(size, simd == 1, rt, Cut19(delta))
  {
    hide Field;
    var w, f := AssembleLdr(size, simd, rt, delta), delta / 4 % 0x8_0000;
    var top := 4 * simd + 0x18 + 0x40 * size;
    FieldIs(w, 0x100_0000, 0x100, rt + 0x20 * f, top, 0);
    FieldIs(w, 1, 0x20, 0, rt, f + 0x8_0000 * top);
    FieldIs(w, 0x20, 0x8_0000, rt, f, top);
  }

  lemma {:induction false} LdrVectorDecodes(scale: nat, rt: Reg, rn: Reg, imm: nat)
    requires scale <= 4 && imm < 0x1000
    ensures Decode(AssembleLdrVector(scale, rt, rn, imm)) == LoadVector(scale, rt, rn, imm)
  {
    hide Field, SignedField;
    var w, low := AssembleLdrVector(scale, rt, rn, imm), rt + 0x20 * rn + 0x400 * imm;
    var top := 0x3d + 0x40 * (scale % 4);
    FieldIs(w, 0x100_0000, 0x100, low + 0x40_0000 + 0x80_0000 * (scale / 4), top, 0);
    FieldIs(w, 0x40_0000, 2, low, 1, scale / 4 + 2 * top);
    FieldIs(w, 0x80_0000, 2, low + 0x40_0000, scale / 4, top);
    FieldIs(w, 1, 0x20, 0, rt, rn + 0x20 * imm + 0x2_0000 * (1 + 2 * (scale / 4) + 4 * top));
    FieldIs(w, 0x20, 0x20, rt, rn, imm + 0x1000 * (1 + 2 * (scale / 4) + 4 * top));
    FieldIs(w, 0x400, 0x1000, rt + 0x20 * rn, imm, 1 + 2 * (scale / 4) + 4 * top);
  }
}
