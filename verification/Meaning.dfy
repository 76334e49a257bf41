/** When a copied instruction means what the original means. */
module Meaning {
  import opened Words
  import opened IntelDecoder
  import opened Relocation
  import opened CopyTables

  ghost predicate SameBytes(m: Memory, a: nat, m': Memory, a': nat, n: nat)
  {
    a + n <= |m| && a' + n <= |m'| && forall k :: a <= k < a + n ==> m[k] == m'[k - a + a']
  }

  lemma {:induction false} FinishIsLocal(m: Memory, a: nat, m': Memory, a': nat, fixed: nat, p: Prefixes, imm: nat, c: Control, i: Insn)
    requires 1 <= fixed && Finish(m, a, fixed, AddressingAt(m, a + fixed, p), imm, c) == Some(i)
    requires SameBytes(m, a, m', a', i.length)
    ensures Finish(m', a', fixed, AddressingAt(m', a' + fixed, p), imm, c) == Some(i)
  {
    assert m[a + fixed] == m'[a' + fixed];
    if i.length > fixed + 1 {
      assert m[a + fixed + 1] == m'[a' + fixed + 1];
    }
  }

  lemma {:induction false} RelativeIsLocal(m: Memory, a: nat, m': Memory, a': nat, fixed: nat, form: Form, flow: Flow, i: Insn)
    requires RelativeAt(m, a, fixed, form, flow) == Some(i)
    requires SameBytes(m, a, m', a', i.length)
    ensures RelativeAt(m', a', fixed, form, flow) == Some(i)
  {
    assert m[a + fixed] == m'[a' + fixed];
    if FieldSize(form) >= 2 {
      assert m[a + fixed + 1] == m'[a' + fixed + 1];
    }
    if FieldSize(form) == 4 {
      assert m[a + fixed + 2] == m'[a' + fixed + 2] && m[a + fixed + 3] == m'[a' + fixed + 3];
    }
  }

  lemma {:induction false} OneByteIsLocal(m: Memory, a: nat, m': Memory, a': nat, p: Prefixes, i: Insn)
    requires a < |m| && DecodeOneByte(m, a, p) == Some(i)
    requires SameBytes(m, a, m', a', i.length) && 1 <= i.length
    ensures DecodeOneByte(m', a', p) == Some(i)
  {
    var op := m[a];
    assert m'[a'] == op;
    if 0x70 <= op <= 0x7F {
      RelativeIsLocal(m, a, m', a', 1, ShortForm(p), Branch(op - 0x70), i);
    } else if 0xE0 <= op <= 0xE3 {
      RelativeIsLocal(m, a, m', a', 1, ShortForm(p), Count(op), i);
    } else if op == 0xEB {
      RelativeIsLocal(m, a, m', a', 1, ShortForm(p), Jump, i);
    } else if op == 0xE8 || op == 0xE9 {
      RelativeIsLocal(m, a, m', a', 1, NearForm(p), if op == 0xE8 then Call else Jump, i);
    } else if HasModRm(op) {
      assert m[a + 1] == m'[a' + 1];
      var reg := Reg(m[a + 1]);
      if op == 0xC7 && m[a + 1] == 0xF8 {
        RelativeIsLocal(m, a, m', a', 2, NearForm(p), Transaction, i.(addressing := NoModRm));
      } else {
        FinishIsLocal(m, a, m', a', 1, p, ImmediateSize(op, reg, p), ControlOf(op, reg), i);
      }
    }
  }

  lemma {:induction false} TwoByteIsLocal(m: Memory, a: nat, m': Memory, a': nat, p: Prefixes, i: Insn)
    requires a < |m| && DecodeTwoByte(m, a, p) == Some(i)
    requires SameBytes(m, a, m', a', i.length)
    ensures a' < |m'| && DecodeTwoByte(m', a', p) == Some(i)
  {
    var op := m[a];
    assert m'[a'] == op;
    if IsUd(op) {
      FinishIsLocal(m, a, m', a', 1, p, 0, Departs, i);
    } else if 0x80 <= op <= 0x8F {
      RelativeIsLocal(m, a, m', a', 1, NearForm(p), Branch(op - 0x80), i);
    } else if NoOperands0F(op) {
    } else if op == 0x38 || op == 0x3A {
      FinishIsLocal(m, a, m', a', 2, p, if op == 0x3A then 1 else 0, Sequential, i);
    } else {
      assert m[a + 1] == m'[a' + 1];
      if (0x20 <= op <= 0x26) || (op == 0x78 && (p.operand16 || p.repne)) {
      } else {
        FinishIsLocal(m, a, m', a', 1, p, if HasImmediate0F(op) then 1 else 0, Sequential, i);
      }
    }
  }

  lemma {:induction false} VectorIsLocal(m: Memory, a: nat, m': Memory, a': nat, p: Prefixes, map_: Byte, evex: bool, i: Insn)
    requires DecodeVector(m, a, p, map_, evex) == Some(i)
    requires SameBytes(m, a, m', a', i.length)
    ensures DecodeVector(m', a', p, map_, evex) == Some(i)
  {
    assert m[a] == m'[a'];
    if map_ == 1 && m[a] == 0x77 {
    } else {
      FinishIsLocal(m, a, m', a', 1, p, i.length - 1 - ExtraBytes(i.addressing, ByteAt(m, a + 2)), Sequential, i);
    }
  }

  lemma {:induction false} XopIsLocal(m: Memory, a: nat, m': Memory, a': nat, p: Prefixes, i: Insn)
    requires a < |m| && m[a] == 0x8F && DecodeVectorPrefix(m, a, p) == Some(i)
    requires SameBytes(m, a, m', a', i.length) && 3 <= i.length
    ensures DecodeVectorPrefix(m', a', p) == Some(i)
  {
    hide DecodeVector;
    assert m[a] == m'[a'] && m[a + 1] == m'[a' + 1];
    var imm := if m[a + 1] % 0x20 == 8 then 1 else if m[a + 1] % 0x20 == 9 then 0 else 4;
    FinishIsLocal(m, a, m', a', 4, p, imm, Sequential, i);
  }

  lemma {:induction false} VexIsLocal(m: Memory, a: nat, m': Memory, a': nat, p: Prefixes, i: Insn)
    requires a < |m| && m[a] in {0x62, 0xC4, 0xC5} && DecodeVectorPrefix(m, a, p) == Some(i)
    requires SameBytes(m, a, m', a', i.length) && 3 <= i.length
    ensures DecodeVectorPrefix(m', a', p) == Some(i)
  {
    hide DecodeVector, Finish;
    assert m[a] == m'[a'] && m[a + 1] == m'[a' + 1] && m[a + 2] == m'[a' + 2];
    var n := if m[a] == 0xC5 then 2 else if m[a] == 0xC4 then 3 else 4;
    var map_ := if n == 2 then 1 else if n == 3 then m[a + 1] % 0x20 else m[a + 1] % 8;
    VectorIsLocal(m, a + n, m', a' + n, p, map_, n == 4, i.(length := i.length - n));
  }

  lemma {:induction false} VectorLength(m: Memory, a: nat, p: Prefixes, i: Insn)
    requires a < |m| && DecodeVectorPrefix(m, a, p) == Some(i)
    ensures 3 <= i.length
  {
  }

  lemma {:induction false} VectorPrefixIsLocal(m: Memory, a: nat, m': Memory, a': nat, p: Prefixes, i: Insn)
    requires a < |m| && IsVector(m, a) && DecodeVectorPrefix(m, a, p) == Some(i)
    requires SameBytes(m, a, m', a', i.length)
    ensures a' < |m'| && IsVector(m', a') && DecodeVectorPrefix(m', a', p) == Some(i)
  {
    VectorLength(m, a, p, i);
    hide DecodeVectorPrefix;
    assert m[a] == m'[a'] && m[a + 1] == m'[a' + 1];
    if m[a] == 0x8F {
      XopIsLocal(m, a, m', a', p, i);
    } else {
      VexIsLocal(m, a, m', a', p, i);
    }
  }

  /** An instruction is read the same wherever its bytes stand, whatever follows them. */
  lemma {:induction false} DecodeIsLocal(m: Memory, a: nat, m': Memory, a': nat, p: Prefixes, i: Insn)
    requires Decode(m, a, p) == Some(i)
    requires SameBytes(m, a, m', a', i.length)
    ensures Decode(m', a', p) == Some(i)
    decreases i.length
  {
    hide DecodeTwoByte, DecodeOneByte, DecodeVectorPrefix;
    var j := i.(length := i.length - 1);
    assert m[a] == m'[a'];
    if IsPrefix(m[a]) {
      DecodeIsLocal(m, a + 1, m', a' + 1, Note(p, m[a]), j);
    } else if m[a] == 0x0F {
      TwoByteIsLocal(m, a + 1, m', a' + 1, p, j);
    } else if IsVector(m, a) {
      VectorPrefixIsLocal(m, a, m', a', p, i);
    } else {
      NotVectorIsLocal(m, a, m', a', p, i);
      OneByteIsLocal(m, a, m', a', p, i);
    }
  }

  /**
   Whether the copier reads it as what it is depends on its bytes alone as well. How it misreads another does not: what
   it takes for a SIB byte may stand behind the instruction.
   */
  lemma {:induction false} ReadIsLocal(m: Memory, a: nat, m': Memory, a': nat, p: Prefixes, i: Insn)
    requires Decode(m, a, p) == Some(i) && SameBytes(m, a, m', a', i.length)
    ensures ReadAs(m', a', p, i) == Whole(i) <==> ReadAs(m, a, p, i) == Whole(i)
    decreases i.length
  {
    hide DecodeTwoByte, DecodeOneByte, DecodeVectorPrefix, IsVector, ReadAs, Measured;
    DecodeIsLocal(m, a, m', a', p, i);
    assert m[a] == m'[a'];
    OthersReadRight(m, a, p, i);
    OthersReadRight(m', a', p, i);
    if IsPrefix(m[a]) {
      ReadIsLocal(m, a + 1, m', a' + 1, Note(p, m[a]), i.(length := i.length - 1));
    } else if m[a] == 0x0F {
      assert m[a + 1] == m'[a' + 1];
    } else if m[a] == 0x62 {
      EvexIsLocal(m, a, m', a', p, i);
    }
  }

  lemma {:induction false} EvexIsLocal(m: Memory, a: nat, m': Memory, a': nat, p: Prefixes, i: Insn)
    requires Decode(m, a, p) == Some(i) && m[a] == 0x62
    requires Decode(m', a', p) == Some(i) && SameBytes(m, a, m', a', i.length)
    ensures IsEvex1(m, a) <==> IsEvex1(m', a')
    ensures IsEvex1(m, a) ==> (ReadAs(m', a', p, i) == Whole(i) <==> ReadAs(m, a, p, i) == Whole(i))
  {
    EvexLength(m, a, p, i);
    assert m[a + 1] == m'[a' + 1];
    if IsEvex1(m, a) {
      assert m[a + 2] == m'[a' + 2] && m[a + 4] == m'[a' + 4];
      EvexReadRight(m, a, p, i);
      EvexReadRight(m', a', p, i);
    }
  }

  lemma {:induction false} EvexLength(m: Memory, a: nat, p: Prefixes, i: Insn)
    requires a < |m| && m[a] == 0x62 && Decode(m, a, p) == Some(i)
    ensures 2 <= i.length && a + 1 < |m| && (m[a + 1] / 0x40 == 3 ==> 5 <= i.length)
  {
    if IsVector(m, a) {
      assert Longer(DecodeVector(m, a + 4, p, m[a + 1] % 8, true), 4) == Some(i);
    }
  }

  lemma {:induction false} NotVectorIsLocal(m: Memory, a: nat, m': Memory, a': nat, p: Prefixes, i: Insn)
    requires a < |m| && !IsVector(m, a) && DecodeOneByte(m, a, p) == Some(i)
    requires SameBytes(m, a, m', a', i.length) && 1 <= i.length
    ensures !IsVector(m', a')
  {
    assert m[a] == m'[a'];
    if HasModRm(m[a]) {
      assert m[a + 1] == m'[a' + 1];
    }
  }

  // The instruction the emitted bytes decode to. Under an operand-size prefix the near jump that
  // replaces a short one reads only 16 of its 32 displacement bits.
  function Copy(i: Insn, delta: int): Insn
    requires WellFormed(i)
  {
    match i.control
    case Relative(form, flow, disp) =>
      if flow.Transaction? then i
      else if Widens(form, flow) then
        var growth := if flow.Jump? then 3 else 4;
        var wide := if form.Short? then Near32 else Near16;
        Insn(i.length - 4 + growth + FieldSize(wide), Relative(wide, flow, Reread(wide, disp - delta - growth)), NoModRm)
      else i.(control := Relative(form, flow, Reread(form, disp - delta)))
    case _ => i
  }

  // A displacement that is stored and read back.
  function Reread(form: Form, x: int): int
  {
    match form
    case Near32 => Signed32(Wrap(x))
    case Near16 => Signed16(x % 0x1_0000)
    case _ => Signed8(x % 0x100)
  }

  /**
   Exactly when the copier keeps the meaning of an instruction it moves by delta. LOOP and JECXZ
   cannot be widened; a 66 prefix before a short jump would apply to the near jump as well, and
   before a near branch it leaves too little room; XBEGIN is not relocated at all.
   */
  predicate Faithful(i: Insn, delta: int)
  {
    match i.control
    case Relative(form, flow, disp) =>
      if flow.Transaction? then (if form.Near16? || form.Short16? then delta % 0x1_0000 == 0 else delta % TWO32 == 0)
      else if Widens(form, flow) then form.Short?
      else Fits(form, Rebased(disp, delta))
    case _ => true
  }

  // The field at the end of the emitted bytes holds the new displacement.
  lemma {:induction false} FieldReads(m: Memory, a: nat, form: Form, x: int)
    requires Holds(m, a, FieldBytes(form, x))
    ensures DispAt(m, a, form) == Reread(form, x)
  {
    var s := FieldBytes(form, x);
    assert m[a] == s[0];
    if form.Near16? {
      Le16RoundTrip(x % 0x1_0000);
      assert m[a + 1] == s[1];
    } else if form.Near32? {
      Holds32(m, a, Wrap(x));
    }
  }

  // Bytes of the head and of the tail, wherever they end up.
  lemma {:induction false} EmittedParts(code: Memory, src: nat, i: Insn, delta: int, m: Memory, dst: nat)
    requires WellFormed(i) && src + i.length <= |code| && HasTarget(i)
    requires Holds(m, dst, Emitted(code, src, i, delta))
    ensures forall k :: src <= k < src + HeadSize(i) ==> m[k - src + dst] == code[k]
    ensures Holds(m, dst + HeadSize(i), Tail(i.control.form, i.control.flow, i.control.disp, delta))
  {
    var h, t := HeadSize(i), Tail(i.control.form, i.control.flow, i.control.disp, delta);
    HoldsBoth(m, dst, code[src..src + h], t);
    forall k | src <= k < src + h
      ensures m[k - src + dst] == code[k]
    {
      assert code[src..src + h][k - src] == code[k];
    }
  }

  // A near branch or a loop instruction: only the displacement changes.
  lemma {:induction false} NearDecodes(code: Memory, src: nat, i: Insn, delta: int, m: Memory, dst: nat, form: Form, flow: Flow)
    requires RelativeAt(code, src, 1, form, flow) == Some(i) && WellFormed(i) && HasTarget(i) && !Widens(form, flow)
    requires Holds(m, dst, Emitted(code, src, i, delta))
    ensures dst < |m| && m[dst] == code[src]
    ensures RelativeAt(m, dst, 1, form, flow) == Some(Copy(i, delta))
  {
    EmittedHasLength(code, src, i, delta);
    EmittedParts(code, src, i, delta, m, dst);
    assert m[src - src + dst] == code[src];
    FieldReads(m, dst + 1, form, i.control.disp - delta);
  }

  // The first half of a 32-bit field.
  lemma {:induction false} HalfReads(m: Memory, a: nat, x: int)
    requires Holds(m, a, Le32(Wrap(x)))
    ensures DispAt(m, a, Near16) == Reread(Near16, x)
  {
    var s := Le32(Wrap(x));
    assert m[a] == s[0] == ByteOf(Wrap(x), 0) && m[a + 1] == s[1] == ByteOf(Wrap(x), 1);
    LowHalf(x);
  }

  lemma {:induction false} LowHalf(x: int)
    ensures ByteOf(Wrap(x), 0) as int + 0x100 * ByteOf(Wrap(x), 1) as int == x % 0x1_0000
  {
    hide ByteOf, Wrap;
    WrapMod16(x);
    TwoBytes(Wrap(x));
  }

  lemma {:induction false} TwoBytes(w: Word)
    ensures ByteOf(w, 0) as int + 0x100 * ByteOf(w, 1) as int == w % 0x1_0000
  {
    assert w == 0x1_0000 * (w / 0x100 / 0x100) + (0x100 * (w / 0x100 % 0x100) + w % 0x100);
  }

  // The opcode and the field of a widened jump.
  lemma {:induction false} ShortBytes(code: Memory, src: nat, i: Insn, delta: int, m: Memory, dst: nat, flow: Flow, x: int)
    requires WellFormed(i) && src + i.length <= |code| && i.length == 2 && i.control.Relative? && i.control.flow == flow
    requires Widens(i.control.form, flow) && x == i.control.disp - delta - (if flow.Jump? then 3 else 4)
    requires flow.Branch? ==> flow.cc < 0x10
    requires Holds(m, dst, Emitted(code, src, i, delta))
    ensures dst + 1 < |m|
    ensures flow.Jump? ==> m[dst] == 0xE9 && Holds(m, dst + 1, Le32(Wrap(x)))
    ensures flow.Branch? ==> m[dst] == 0x0F && m[dst + 1] == 0x80 + flow.cc && Holds(m, dst + 2, Le32(Wrap(x)))
  {
    hide Le32;
    EmittedParts(code, src, i, delta, m, dst);
    var op := if flow.Jump? then [0xE9] else [0x0F, 0x80 + flow.cc];
    HoldsBoth(m, dst, op, Le32(Wrap(x)));
    assert m[dst] == op[0];
    if flow.Branch? {
      assert m[dst + 1] == op[1];
    }
  }

  lemma {:induction false} ShortDecodes(code: Memory, src: nat, i: Insn, delta: int, m: Memory, dst: nat, p: Prefixes, flow: Flow)
    requires RelativeAt(code, src, 1, ShortForm(p), flow) == Some(i) && (flow.Jump? || (flow.Branch? && flow.cc < 0x10))
    requires WellFormed(i) && Holds(m, dst, Emitted(code, src, i, delta))
    ensures flow.Jump? ==> dst < |m| && m[dst] == 0xE9 && RelativeAt(m, dst, 1, NearForm(p), Jump) == Some(Copy(i, delta))
    ensures flow.Branch? ==>
              && dst + 1 < |m| && m[dst] == 0x0F && m[dst + 1] == 0x80 + flow.cc
              && Longer(RelativeAt(m, dst + 1, 1, NearForm(p), flow), 1) == Some(Copy(i, delta))
  {
    hide Emitted, Le32, Holds, Reread, Signed8;
    var n := if flow.Jump? then 1 else 2;
    var x := i.control.disp - delta - (if flow.Jump? then 3 else 4);
    ShortBytes(code, src, i, delta, m, dst, flow, x);
    WideFieldReads(m, dst + n, x);
  }

  lemma {:induction false} WideFieldReads(m: Memory, a: nat, x: int)
    requires Holds(m, a, Le32(Wrap(x)))
    ensures a + 4 <= |m| && DispAt(m, a, Near32) == Reread(Near32, x) && DispAt(m, a, Near16) == Reread(Near16, x)
  {
    Holds32(m, a, Wrap(x));
    HalfReads(m, a, x);
  }

  /** What the emitted bytes of a branch decode to. */
  lemma {:induction false} EmittedDecodes(code: Memory, src: nat, p: Prefixes, i: Insn, delta: int, m: Memory, dst: nat)
    requires Decode(code, src, p) == Some(i) && HasTarget(i)
    requires Holds(m, dst, Emitted(code, src, i, delta))
    ensures Decode(m, dst, p) == Some(Copy(i, delta))
    decreases i.length
  {
    hide DecodeTwoByte, DecodeOneByte, DecodeVectorPrefix, Emitted, Copy, Holds;
    var j := i.(length := i.length - 1);
    if IsPrefix(code[src]) {
      PrefixDecodes(code, src, i, j, delta, m, dst);
      EmittedDecodes(code, src + 1, Note(p, code[src]), j, delta, m, dst + 1);
    } else if code[src] == 0x0F {
      PrefixDecodes(code, src, i, j, delta, m, dst);
      TwoByteBranchDecodes(code, src + 1, p, j, delta, m, dst + 1);
    } else if IsVector(code, src) {
      VectorsAreSequential(code, src, p, i);
    } else {
      OneByteBranchDecodes(code, src, p, i, delta, m, dst);
    }
  }

  lemma {:induction false} PrefixDecodes(code: Memory, src: nat, i: Insn, j: Insn, delta: int, m: Memory, dst: nat)
    requires WellFormed(j) && i == j.(length := j.length + 1) && src + i.length <= |code|
    requires Holds(m, dst, Emitted(code, src, i, delta))
    ensures dst < |m| && m[dst] == code[src] && Holds(m, dst + 1, Emitted(code, src + 1, j, delta))
    ensures Copy(i, delta) == Copy(j, delta).(length := Copy(j, delta).length + 1)
  {
    EmittedAfter(code, src, 1, j, delta);
    HoldsBoth(m, dst, code[src..src + 1], Emitted(code, src + 1, j, delta));
    assert m[dst] == code[src..src + 1][0];
  }

  lemma {:induction false} TwoByteBranchDecodes(code: Memory, src: nat, p: Prefixes, i: Insn, delta: int, m: Memory, dst: nat)
    requires src < |code| && DecodeTwoByte(code, src, p) == Some(i) && HasTarget(i)
    requires Holds(m, dst, Emitted(code, src, i, delta))
    ensures dst < |m| && DecodeTwoByte(m, dst, p) == Some(Copy(i, delta))
  {
    NearDecodes(code, src, i, delta, m, dst, NearForm(p), Branch(code[src] - 0x80));
  }

  lemma {:induction false} VectorsAreSequential(code: Memory, src: nat, p: Prefixes, i: Insn)
    requires src < |code| && DecodeVectorPrefix(code, src, p) == Some(i)
    ensures i.control.Sequential?
  {
  }

  lemma {:induction false} OneByteBranchDecodes(code: Memory, src: nat, p: Prefixes, i: Insn, delta: int, m: Memory, dst: nat)
    requires src < |code| && !IsPrefix(code[src]) && code[src] != 0x0F
    requires DecodeOneByte(code, src, p) == Some(i) && HasTarget(i) && WellFormed(i)
    requires Holds(m, dst, Emitted(code, src, i, delta))
    ensures Decode(m, dst, p) == Some(Copy(i, delta))
  {
    hide Emitted, Copy;
    var op := code[src];
    if 0x70 <= op <= 0x7F {
      ShortDecodes(code, src, i, delta, m, dst, p, Branch(op - 0x70));
    } else if op == 0xEB {
      ShortDecodes(code, src, i, delta, m, dst, p, Jump);
    } else if IsCount(op) {
      NearDecodes(code, src, i, delta, m, dst, ShortForm(p), Count(op));
    } else {
      NearDecodes(code, src, i, delta, m, dst, NearForm(p), if op == 0xE8 then Call else Jump);
    }
  }

  // The copy at dst stands for the instruction i at src: it ends where the copier says it ends, it
  // does the same, and if it is taken it goes to the same address.
  ghost predicate KeepsMeaning(m: Memory, dst: nat, src: nat, i: Insn)
  {
    var c := DecodeAt(m, dst);
    && c.Some?
    && c.value.length == i.length + Extra(i, dst - src)
    && (if i.control.Relative?
        then c.value.control.Relative? && c.value.control.flow == i.control.flow && Target(c.value, dst) == Target(i, src)
        else c.value == i)
  }

  /** The copier keeps the meaning of an instruction if and only if it is Faithful to it. */
  lemma {:induction false} CopyKeepsMeaning(code: Memory, src: nat, i: Insn, m: Memory, dst: nat)
    requires DecodeAt(code, src) == Some(i)
    requires Holds(m, dst, Emitted(code, src, i, dst - src))
    ensures KeepsMeaning(m, dst, src, i) <==> Faithful(i, dst - src)
    ensures DecodeAt(m, dst) == Some(Copy(i, dst - src))
  {
    hide Decode;
    var delta := dst - src;
    if HasTarget(i) {
      EmittedDecodes(code, src, NO_PREFIXES, i, delta, m, dst);
      TargetKept(i, src, delta);
    } else {
      UnmovedDecodes(code, src, i, m, dst);
      if i.control.Relative? {
        WrapShift(src + i.length + i.control.disp, delta);
      }
    }
  }

  lemma {:induction false} UnmovedDecodes(code: Memory, src: nat, i: Insn, m: Memory, dst: nat)
    requires DecodeAt(code, src) == Some(i) && !HasTarget(i)
    requires Holds(m, dst, Emitted(code, src, i, dst - src))
    ensures DecodeAt(m, dst) == Some(i)
  {
    var e := Emitted(code, src, i, dst - src);
    assert e == code[src..src + i.length];
    forall k | src <= k < src + i.length
      ensures code[k] == m[k - src + dst]
    {
      assert e[k - src] == code[k];
    }
    DecodeIsLocal(code, src, m, dst, NO_PREFIXES, i);
  }

  lemma {:induction false} WrapShift(x: int, delta: int)
    ensures Wrap(x + delta) == Wrap(x) <==> delta % TWO32 == 0
    ensures Wrap(x + delta) % 0x1_0000 == Wrap(x) % 0x1_0000 <==> delta % 0x1_0000 == 0
  {
    WrapMod16(x);
    WrapMod16(x + delta);
    SameResidue(x + delta, x, TWO32);
    SameResidue(x + delta, x, 0x1_0000);
  }

  lemma {:induction false} SameResidue(x: int, y: int, n: int)
    requires n == TWO32 || n == 0x1_0000
    ensures x % n == y % n <==> (x - y) % n == 0
  {
    assert x == n * (x / n) + x % n && y == n * (y / n) + y % n;
  }

  // Exactly when the copied branch, as it is decoded, goes where the original goes. A 16-bit target is only kept
  // modulo 2^16.
  predicate TargetStays(i: Insn, delta: int)
    requires i.control.Relative?
  {
    var x := i.control.disp - delta;
    match i.control.form
    case Near32 => true
    case Near16 => true
    case Short => Widens(Short, i.control.flow) || FitsByte(Signed32(Wrap(x)))
    case Short16 => !Widens(Short16, i.control.flow) && FitsByte(Signed16(x % 0x1_0000))
  }

  // The copied branch is as long as the copier says if and only if it is Faithful; where it goes is the other half.
  lemma {:induction false} TargetKept(i: Insn, src: nat, delta: int)
    requires WellFormed(i) && HasTarget(i)
    ensures Copy(i, delta).length == i.length + Extra(i, delta) <==> Faithful(i, delta)
    ensures Target(Copy(i, delta), src + delta) == Target(i, src) <==> TargetStays(i, delta)
    ensures Faithful(i, delta) ==> TargetStays(i, delta)
  {
    hide Fits;
    LengthKept(i, delta);
    var c := Copy(i, delta);
    var x := i.control.disp - delta;
    var growth := if !Widens(i.control.form, i.control.flow) then 0 else if i.control.flow.Jump? then 3 else 4;
    var moved := src + delta + c.length + c.control.disp - (src + i.length + i.control.disp);
    WrapShift(src + i.length + i.control.disp, moved);
    match c.control.form {
      case Near32 => WordReread(x - growth);
      case Near16 =>
        HalfReread(x - growth);
        assert moved == Reread(Near16, x - growth) - (x - growth) - (if i.control.form.Near16? then 0 else 2);
      case _ => ByteReread(x);
    }
  }

  lemma {:induction false} LengthKept(i: Insn, delta: int)
    requires WellFormed(i) && HasTarget(i)
    ensures Copy(i, delta).length == i.length + Extra(i, delta) <==> Faithful(i, delta)
    ensures Faithful(i, delta) ==> TargetStays(i, delta)
  {
    var x := i.control.disp - delta;
    SignedMod16(x);
  }

  lemma {:induction false} WordReread(x: int)
    ensures (Signed32(Wrap(x)) - x) % TWO32 == 0
  {
    SignedWraps(x);
    SameResidue(Signed32(Wrap(x)), x, TWO32);
  }

  lemma {:induction false} HalfReread(x: int)
    ensures (Reread(Near16, x) - x) % 0x1_0000 == 0 && (Reread(Near16, x) - x - 2) % 0x1_0000 != 0
  {
    SameResidue(Reread(Near16, x), x, 0x1_0000);
  }

  lemma {:induction false} ByteReread(x: int)
    ensures (Reread(Short, x) - x) % TWO32 == 0 <==> FitsByte(Signed32(Wrap(x)))
    ensures (Reread(Short, x) - x) % 0x1_0000 == 0 <==> FitsByte(Signed16(x % 0x1_0000))
  {
    hide FitsByte, Signed8, Signed16, Signed32;
    SignedMod8(x);
    HalfMod8(x);
    SameResidue(Reread(Short, x), x, TWO32);
    SameResidue(Reread(Short, x), x, 0x1_0000);
    ByteOfWord(x % 0x100, Wrap(x));
    ByteOfHalf(x % 0x100, x % 0x1_0000);
  }

  // A sign-extended byte and the word it was cut from.
  lemma {:induction false} ByteOfWord(b: Byte, w: Word)
    requires Signed32(w) % 0x100 == b
    ensures Signed8(b) % TWO32 == w <==> FitsByte(Signed32(w))
  {
    if FitsByte(Signed32(w)) {
      assert Signed8(b) == Signed32(w);
    }
  }

  lemma {:induction false} ByteOfHalf(b: Byte, h: int)
    requires 0 <= h < 0x1_0000 && h % 0x100 == b
    ensures Signed8(b) % 0x1_0000 == h <==> FitsByte(Signed16(h))
  {
  }

  lemma {:induction false} HalfMod8(x: int)
    ensures x % 0x1_0000 % 0x100 == x % 0x100
  {
    assert x == 0x100 * (0x100 * (x / 0x1_0000)) + x % 0x1_0000;
  }
}
