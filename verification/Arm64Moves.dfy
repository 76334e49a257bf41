/** Straight-line A64 code, and the moves that load a constant. */
module Arm64Moves {
  import opened Words
  import opened Arm64

  // A straight run of instructions that do not branch.
  function After(words: seq<Word>, s: State): State
    decreases |words|
  {
    if words == [] then s else Execute(Decode(words[|words| - 1]), After(words[..|words| - 1], s))
  }

  lemma {:induction false} AfterMore(words: seq<Word>, w: Word, s: State)
    ensures After(words + [w], s) == Execute(Decode(w), After(words, s))
  {
    hide Decode, Execute;
    assert (words + [w])[..|words|] == words;
  }

  // The half-words of v from number p on, with d in all lower ones.
  function Composed(v: Word64, d: nat, p: nat): Word64
    requires d in {0, 0xffff} && p <= 4
  {
    var scale := if p == 4 then TWO64 else Scale(p);
    v - v % scale + (if d == 0 then 0 else scale - 1)
  }

  lemma {:induction false} ComposedStep(v: Word64, d: nat, p: nat)
    requires d in {0, 0xffff} && p < 4
    ensures HalfWord(Composed(v, d, p + 1), p) == d
    ensures Composed(v, d, p) == Composed(v, d, p + 1) + (HalfWord(v, p) - d) * Scale(p)
  {
    hide Composed, HalfWord, Scale;
    if p == 0 {
      ComposedStep0(v, d);
    } else if p == 1 {
      ComposedStep1(v, d);
    } else if p == 2 {
      ComposedStep2(v, d);
    } else {
      ComposedStep3(v, d);
    }
  }

  lemma {:induction false} ComposedStep0(v: Word64, d: nat)
    requires d in {0, 0xffff}
    ensures HalfWord(Composed(v, d, 1), 0) == d
    ensures Composed(v, d, 0) == Composed(v, d, 1) + (HalfWord(v, 0) - d) * Scale(0)
  {
    DigitsAt0(v);
  }

  lemma {:induction false} ComposedStep1(v: Word64, d: nat)
    requires d in {0, 0xffff}
    ensures HalfWord(Composed(v, d, 2), 1) == d
    ensures Composed(v, d, 1) == Composed(v, d, 2) + (HalfWord(v, 1) - d) * Scale(1)
  {
    DigitsAt1(v);
  }

  lemma {:induction false} ComposedStep2(v: Word64, d: nat)
    requires d in {0, 0xffff}
    ensures HalfWord(Composed(v, d, 3), 2) == d
    ensures Composed(v, d, 2) == Composed(v, d, 3) + (HalfWord(v, 2) - d) * Scale(2)
  {
    DigitsAt2(v);
  }

  lemma {:induction false} ComposedStep3(v: Word64, d: nat)
    requires d in {0, 0xffff}
    ensures HalfWord(Composed(v, d, 4), 3) == d
    ensures Composed(v, d, 3) == Composed(v, d, 4) + (HalfWord(v, 3) - d) * Scale(3)
  {
    DigitsAt3(v);
  }

  lemma {:induction false} DigitsAt0(v: nat)
    ensures (v - v % 0x1_0000) / 1 % 0x1_0000 == 0 && (v - v % 0x1_0000 + 0x1_0000 - 1) / 1 % 0x1_0000 == 0xffff
    ensures v - v % 1 == v - v % 0x1_0000 + v / 1 % 0x1_0000 * 1
  {
    var a, x := v % 1, v / 1;
    var h, b := x % 0x1_0000, x / 0x1_0000;
    assert v == 0x1_0000 * b + (1 * h + a);
    DivIs(v, 0x1_0000, b, 1 * h + a);
    var none, all := 0x1_0000 * b, 0x1_0000 * b + 0xffff;
    DivIs(0x1_0000 * b, 1, none, 0);
    DivIs(0x1_0000 * b + 0x1_0000 - 1, 1, all, 1 - 1);
    DivIs(none, 0x1_0000, b, 0);
    DivIs(all, 0x1_0000, b, 0xffff);
  }

  lemma {:induction false} DigitsAt1(v: nat)
    ensures (v - v % 0x1_0000_0000) / 0x1_0000 % 0x1_0000 == 0 && (v - v % 0x1_0000_0000 + 0x1_0000_0000 - 1) / 0x1_0000 % 0x1_0000 == 0xffff
    ensures v - v % 0x1_0000 == v - v % 0x1_0000_0000 + v / 0x1_0000 % 0x1_0000 * 0x1_0000
  {
    var a, x := v % 0x1_0000, v / 0x1_0000;
    var h, b := x % 0x1_0000, x / 0x1_0000;
    assert v == 0x1_0000_0000 * b + (0x1_0000 * h + a);
    DivIs(v, 0x1_0000_0000, b, 0x1_0000 * h + a);
    var none, all := 0x1_0000 * b, 0x1_0000 * b + 0xffff;
    DivIs(0x1_0000_0000 * b, 0x1_0000, none, 0);
    DivIs(0x1_0000_0000 * b + 0x1_0000_0000 - 1, 0x1_0000, all, 0x1_0000 - 1);
    DivIs(none, 0x1_0000, b, 0);
    DivIs(all, 0x1_0000, b, 0xffff);
  }

  lemma {:induction false} DigitsAt2(v: nat)
    ensures (v - v % 0x1_0000_0000_0000) / 0x1_0000_0000 % 0x1_0000 == 0 && (v - v % 0x1_0000_0000_0000 + 0x1_0000_0000_0000 - 1) / 0x1_0000_0000 % 0x1_0000 == 0xffff
    ensures v - v % 0x1_0000_0000 == v - v % 0x1_0000_0000_0000 + v / 0x1_0000_0000 % 0x1_0000 * 0x1_0000_0000
  {
    var a, x := v % 0x1_0000_0000, v / 0x1_0000_0000;
    var h, b := x % 0x1_0000, x / 0x1_0000;
    assert v == 0x1_0000_0000_0000 * b + (0x1_0000_0000 * h + a);
    DivIs(v, 0x1_0000_0000_0000, b, 0x1_0000_0000 * h + a);
    var none, all := 0x1_0000 * b, 0x1_0000 * b + 0xffff;
    DivIs(0x1_0000_0000_0000 * b, 0x1_0000_0000, none, 0);
    DivIs(0x1_0000_0000_0000 * b + 0x1_0000_0000_0000 - 1, 0x1_0000_0000, all, 0x1_0000_0000 - 1);
    DivIs(none, 0x1_0000, b, 0);
    DivIs(all, 0x1_0000, b, 0xffff);
  }

  lemma {:induction false} DigitsAt3(v: nat)
    ensures (v - v % 0x1_0000_0000_0000_0000) / 0x1_0000_0000_0000 % 0x1_0000 == 0 && (v - v % 0x1_0000_0000_0000_0000 + 0x1_0000_0000_0000_0000 - 1) / 0x1_0000_0000_0000 % 0x1_0000 == 0xffff
    ensures v - v % 0x1_0000_0000_0000 == v - v % 0x1_0000_0000_0000_0000 + v / 0x1_0000_0000_0000 % 0x1_0000 * 0x1_0000_0000_0000
  {
    var a, x := v % 0x1_0000_0000_0000, v / 0x1_0000_0000_0000;
    var h, b := x % 0x1_0000, x / 0x1_0000;
    assert v == 0x1_0000_0000_0000_0000 * b + (0x1_0000_0000_0000 * h + a);
    DivIs(v, 0x1_0000_0000_0000_0000, b, 0x1_0000_0000_0000 * h + a);
    var none, all := 0x1_0000 * b, 0x1_0000 * b + 0xffff;
    DivIs(0x1_0000_0000_0000_0000 * b, 0x1_0000_0000_0000, none, 0);
    DivIs(0x1_0000_0000_0000_0000 * b + 0x1_0000_0000_0000_0000 - 1, 0x1_0000_0000_0000, all, 0x1_0000_0000_0000 - 1);
    DivIs(none, 0x1_0000, b, 0);
    DivIs(all, 0x1_0000, b, 0xffff);
  }

  lemma {:induction false} ComposedEnds(v: Word64, d: nat)
    requires d in {0, 0xffff}
    ensures Composed(v, d, 0) == v
    ensures Composed(v, d, 4) == if d == 0 then 0 else TWO64 - 1
  {
  }

  // How many of the half-words of v, from number p on, differ from d.
  function Different(v: Word64, d: nat, p: nat): nat
    requires p <= 4
    decreases 4 - p
  {
    if p == 4 then 0 else (if HalfWord(v, p) != d then 1 else 0) + Different(v, d, p + 1)
  }

  function Max(a: int, b: int): int { if a < b then b else a }

  function Min(a: int, b: int): int { if a < b then a else b }

  // One MOVN of a 32-bit register makes these.
  predicate Inverted32(v: Word64) { v / 0x1_0000 == 0xffff }

  // The fewest moves: one for each half-word that is not all zeros, or not all ones, whichever is fewer.
  function MovCount(v: Word64): nat
  {
    if Inverted32(v) then 1 else Max(1, Min(Different(v, 0, 0), Different(v, 0xffff, 0)))
  }

  // The moves set the register to v and change nothing else; register 31 is the zero register.
  ghost predicate Loads(words: seq<Word>, rd: Reg, v: Word64)
  {
    && (forall k :: 0 <= k < |words| ==> Decode(words[k]).Move?)
    && forall s: State :: After(words, s) == LoadedState(s, rd, v, |words|)
  }

  function LoadedState(s: State, rd: Reg, v: Word64, n: nat): State
  {
    s.(pc := Wrap64(s.pc + 4 * n), x := if rd == 31 then s.x else s.x[rd := v])
  }

  lemma {:induction false} LoadsFirst(w: Word, rd: Reg, wide: bool, kind: MoveKind, imm: nat, hw: nat, v: Word64)
    requires imm < 0x1_0000 && hw < 4 && Decode(w) == Move(wide, kind, rd, imm, hw) && kind != MovK
    requires v == Moved(wide, kind, 0, imm, hw)
    ensures Loads([w], rd, v)
  {
    hide Decode, Moved, HalfWord, Scale;
    forall s: State
      ensures After([w], s) == LoadedState(s, rd, v, 1)
    {
      assert [w][..0] == [] && After([], s) == s;
      MovedFromAny(wide, kind, Read(s, rd), imm, hw);
    }
  }

  lemma {:induction false} MovedFromAny(wide: bool, kind: MoveKind, a: Word64, imm: nat, hw: nat)
    requires imm < 0x1_0000 && hw < 4 && kind != MovK
    ensures Moved(wide, kind, a, imm, hw) == Moved(wide, kind, 0, imm, hw)
  {
    hide HalfWord, Scale;
  }

  lemma {:induction false} LoadsNext(words: seq<Word>, w: Word, rd: Reg, imm: nat, hw: nat, a: Word64, v: Word64)
    requires imm < 0x1_0000 && hw < 4 && Decode(w) == Move(true, MovK, rd, imm, hw) && Loads(words, rd, a)
    requires v == Moved(true, MovK, a, imm, hw)
    ensures Loads(words + [w], rd, v)
  {
    hide Decode, Moved, HalfWord, Scale, After, Wrap64;
    forall s: State
      ensures After(words + [w], s) == LoadedState(s, rd, v, |words| + 1)
    {
      AfterMore(words, w, s);
      assert After(words, s) == LoadedState(s, rd, a, |words|);
      WrapTwice(s.pc, 4 * |words|, 4);
    }
    forall k | 0 <= k < |words| + 1
      ensures Decode((words + [w])[k]).Move?
    {
    }
  }

  lemma {:induction false} WrapTwice(a: int, b: int, c: int)
    ensures Wrap64(Wrap64(a + b) + c) == Wrap64(a + (b + c))
  {
    var q := (a + b) / TWO64;
    assert a + b == q * TWO64 + Wrap64(a + b);
    Wrap64Multiple(Wrap64(a + b) + c, q);
  }

  lemma {:induction false} Wrap64Multiple(a: int, q: int)
    ensures (a + q * TWO64) % TWO64 == a % TWO64
  {
  }

  // MOVZ or MOVN as the first move: the lower half-words get the default.
  lemma {:induction false} FirstMove(v: Word64, d: nat, p: nat)
    requires d in {0, 0xffff} && p < 4 && Composed(v, d, p + 1) == Composed(v, d, 4)
    ensures Composed(v, d, p) == if d == 0 then Moved(true, MovZ, 0, HalfWord(v, p), p) else Moved(true, MovN, 0, 0xffff - HalfWord(v, p), p)
  {
    ComposedStep(v, d, p);
    ComposedEnds(v, d);
    FirstMoveIs(v, d, p);
  }

  lemma {:induction false} FirstMoveIs(v: Word64, d: nat, p: nat)
    requires d in {0, 0xffff} && p < 4
    requires Composed(v, d, p) == (if d == 0 then 0 else TWO64 - 1) + (HalfWord(v, p) - d) * Scale(p)
    ensures Composed(v, d, p) == if d == 0 then Moved(true, MovZ, 0, HalfWord(v, p), p) else Moved(true, MovN, 0, 0xffff - HalfWord(v, p), p)
  {
    hide Composed, HalfWord, Scale;
  }

  // MOVK replaces the default half-word number p.
  lemma {:induction false} NextMove(v: Word64, d: nat, p: nat)
    requires d in {0, 0xffff} && p < 4
    ensures Composed(v, d, p) == Moved(true, MovK, Composed(v, d, p + 1), HalfWord(v, p), p)
  {
    hide Composed, HalfWord, Scale;
    ComposedStep(v, d, p);
  }

  lemma {:induction false} NoMove(v: Word64, d: nat, p: nat)
    requires d in {0, 0xffff} && p < 4 && HalfWord(v, p) == d
    ensures Composed(v, d, p) == Composed(v, d, p + 1)
  {
    hide Composed, HalfWord, Scale;
    ComposedStep(v, d, p);
  }

  lemma {:induction false} NarrowMove(v: Word64)
    requires Inverted32(v)
    ensures v == Moved(false, MovN, 0, 0xffff - HalfWord(v, 0), 0)
  {
  }

  // How many of the half-words of v are d.
  function Matching(v: Word64, d: nat): nat
  {
    (if HalfWord(v, 3) == d then 1 else 0) + (if HalfWord(v, 2) == d then 1 else 0)
    + (if HalfWord(v, 1) == d then 1 else 0) + (if HalfWord(v, 0) == d then 1 else 0)
  }

  lemma {:induction false} DifferentIs(v: Word64, d: nat)
    ensures Different(v, d, 0) == 4 - Matching(v, d)
  {
    hide HalfWord;
    assert Different(v, d, 4) == 0;
    assert Different(v, d, 3) == (if HalfWord(v, 3) != d then 1 else 0);
    assert Different(v, d, 2) == (if HalfWord(v, 2) != d then 1 else 0) + Different(v, d, 3);
    assert Different(v, d, 1) == (if HalfWord(v, 1) != d then 1 else 0) + Different(v, d, 2);
  }

  lemma {:induction false} HalfWordsOf(v: Word64)
    ensures Inverted32(v) <==> HalfWord(v, 3) == 0 && HalfWord(v, 2) == 0 && HalfWord(v, 1) == 0xffff
  {
  }

  lemma {:induction false} HalfWordsAreSmall(v: Word64)
    ensures forall p :: 0 <= p < 4 ==> HalfWord(v, p) < 0x1_0000
  {
  }

  lemma {:induction false} NoneDifferent(v: Word64, d: nat)
    ensures Different(v, d, 4) == 0
  {
  }

  lemma {:induction false} OneMoreDifferent(v: Word64, d: nat, p: nat)
    requires p < 4
    ensures Different(v, d, p) == (if HalfWord(v, p) != d then 1 else 0) + Different(v, d, p + 1)
  {
  }

  // One step inside a block that does not wrap around.
  lemma {:induction false} OneStep(block: seq<Word>, dst: Word64, s: State, k: nat, n: nat)
    requires k < |block| && dst + 4 * |block| <= TWO64 && s.pc == dst + 4 * k
    ensures Steps(block, dst, s, n + 1) == Steps(block, dst, Execute(Decode(block[k]), s), n)
  {
    hide Decode, Execute;
  }

  // Control goes on behind such an instruction.
  predicate IsPlain(i: Insn) { !IsBranch(i) && !i.BranchTo? && !i.ConsistentBranch? }

  // Plain instructions in front of a block run through.
  lemma {:induction false} PlainRun(block: seq<Word>, dst: Word64, s: State, k: nat, n: nat)
    requires k <= |block| && dst + 4 * |block| <= TWO64 && (forall j :: 0 <= j < k ==> IsPlain(Decode(block[j]))) && s.pc == dst
    ensures k < |block| ==> After(block[..k], s).pc == dst + 4 * k
    ensures After(block[..k], s).pc == Wrap64(dst + 4 * k)
    ensures Steps(block, dst, s, k + n) == Steps(block, dst, After(block[..k], s), n)
    decreases k
  {
    hide Decode, Steps, Execute, After, Wrap64;
    if k == 0 {
      assert block[..0] == [];
      AfterNone(s);
      WrapIs(dst);
    } else {
      PlainRun(block, dst, s, k - 1, n + 1);
      var t := After(block[..k - 1], s);
      assert block[..k] == block[..k - 1] + [block[k - 1]];
      AfterMore(block[..k - 1], block[k - 1], s);
      OneStep(block, dst, t, k - 1, n);
      PlainSteps(Decode(block[k - 1]), t);
      if k < |block| {
        WrapIs(dst + 4 * k);
      }
    }
  }

  lemma {:induction false} AfterNone(s: State)
    ensures After([], s) == s
  {
  }

  lemma {:induction false} WrapIs(a: int)
    requires 0 <= a < TWO64
    ensures Wrap64(a) == a
  {
  }

  lemma {:induction false} PlainSteps(i: Insn, s: State)
    requires IsPlain(i)
    ensures Execute(i, s).pc == Wrap64(s.pc + 4)
  {
    hide Moved, Load, LoadScaled;
  }

  lemma {:induction false} NoSteps(block: seq<Word>, dst: Word64, s: State)
    ensures Steps(block, dst, s, 0) == Some(s)
  {
  }

  // A block of plain instructions runs from its first to behind its last.
  lemma {:induction false} BlockRuns(block: seq<Word>, dst: Word64, s: State)
    requires dst + 4 * |block| <= TWO64 && (forall j :: 0 <= j < |block| ==> IsPlain(Decode(block[j]))) && s.pc == dst
    ensures Steps(block, dst, s, |block|) == Some(After(block, s))
  {
    hide Decode, Steps, After, IsPlain;
    PlainRun(block, dst, s, |block|, 0);
    assert block[..|block|] == block;
    NoSteps(block, dst, After(block, s));
  }
}
