/** The instructions DetourAttachEx moves, their layout and size, and the instruction alignment array. */
module Prologue {
  import opened Words
  import opened IntelDecoder
  import opened CopyTables
  import opened Relocation
  import opened Meaning

  const SIZE_OF_JMP := 5
  const CODE_SIZE := 30          // sizeof rbCode
  const RESTORE_SIZE := 22       // sizeof rbRestore
  const ALIGN_COUNT := 8         // entries of rAlign

  /**
   An instruction the trampoline can hold anywhere: no LOOP, JECXZ or XBEGIN, and no operand-size
   prefix on a branch.
   */
  predicate Movable(i: Insn)
  {
    i.control.Relative? ==>
      && !i.control.flow.Transaction?
      && (i.control.form.Near32? || (i.control.form.Short? && Widens(i.control.form, i.control.flow)))
  }

  lemma {:induction false} MovableIsFaithful(i: Insn, delta: int)
    requires Movable(i) && WellFormed(i)
    ensures Faithful(i, delta)
    ensures Extra(i, delta) == EmittedLength(i) - i.length
    ensures i.length <= EmittedLength(i) <= 3 * i.length && EmittedLength(i) <= i.length + 4
  {
  }

  // detour_does_code_end_function.
  predicate EndsFunction(m: Memory, a: nat)
  {
    var b := ByteAt(m, a);
    || b in {0xEB, 0xE9, 0xE0, 0xC2, 0xC3, 0xCC}
    || (b == 0xF3 && ByteAt(m, a + 1) == 0xC3)
    || (b == 0xFF && ByteAt(m, a + 1) == 0x25)
    || (IsSegment(b) && ByteAt(m, a + 1) == 0xFF && ByteAt(m, a + 2) == 0x25)
  }

  // Control never reaches the byte after such an instruction.
  predicate NeverFallsThrough(i: Insn) { i.control.Departs? || (i.control.Relative? && i.control.flow.Jump?) }

  // How many prefix bytes stand at a.
  function PrefixCount(m: Memory, a: nat): nat
    decreases |m| - a
  {
    if a < |m| && IsPrefix(m[a]) then 1 + PrefixCount(m, a + 1) else 0
  }

  /**
   Instructions behind which control does not go on, but which are not taken for the end of a function: far returns,
   IRET, the far JMP, UD0 and UD1 in any form; indirect jumps other than through an absolute address; and the others
   with a prefix, but for REP RET and a segment before a JMP through an absolute address.
   */
  predicate EndUnseen(m: Memory, a: nat)
  {
    var n := PrefixCount(m, a);
    var op, modrm := ByteAt(m, a + n), ByteAt(m, a + n + 1);
    if op in {0xEB, 0xE9, 0xC2, 0xC3, 0xCC} then n > 0 && !(n == 1 && m[a] == 0xF3 && op == 0xC3)
    else if op == 0xFF && modrm == 0x25 then n > 0 && !(n == 1 && IsSegment(m[a]))
    else op in {0xCA, 0xCB, 0xCF, 0xEA} || (op == 0xFF && Reg(modrm) in {4, 5}) || (op == 0x0F && IsUd(modrm))
  }

  /** The test agrees with the processor, E0 (LOOPNE) and those instructions excepted. */
  lemma {:induction false} EndsFunctionIff(m: Memory, a: nat, i: Insn)
    requires DecodeAt(m, a) == Some(i)
    ensures EndsFunction(m, a) <==> ByteAt(m, a) == 0xE0 || (NeverFallsThrough(i) && !EndUnseen(m, a))
  {
    hide Decode;
    EndBehindPrefixes(m, a, NO_PREFIXES, i);
    if IsPrefix(ByteAt(m, a)) {
      assert PrefixCount(m, a) == 1 + PrefixCount(m, a + 1);
      assert PrefixCount(m, a + 1) == if IsPrefix(ByteAt(m, a + 1)) then 1 + PrefixCount(m, a + 2) else 0;
    }
  }

  lemma {:induction false} EndBehindPrefixes(m: Memory, a: nat, p: Prefixes, i: Insn)
    requires Decode(m, a, p) == Some(i)
    ensures
      var b := a + PrefixCount(m, a);
      var op := ByteAt(m, b);
      && a < |m|
      && (op in {0xEB, 0xE9, 0xC2, 0xC3, 0xCC} || (op == 0xFF && ByteAt(m, b + 1) == 0x25) ==> NeverFallsThrough(i))
      && (NeverFallsThrough(i) ==>
            || op in {0xEB, 0xE9, 0xC2, 0xC3, 0xCC, 0xCA, 0xCB, 0xCF, 0xEA}
            || (op == 0xFF && Reg(ByteAt(m, b + 1)) in {4, 5}) || (op == 0x0F && IsUd(ByteAt(m, b + 1))))
    decreases |m| - a
  {
    hide DecodeOneByte, DecodeTwoByte, DecodeVectorPrefix, IsVector;
    if IsPrefix(m[a]) {
      EndBehindPrefixes(m, a + 1, Note(p, m[a]), i.(length := i.length - 1));
    } else {
      OpcodeEnds(m, a, p, i);
    }
  }

  lemma {:induction false} OpcodeEnds(m: Memory, a: nat, p: Prefixes, i: Insn)
    requires Decode(m, a, p) == Some(i)
    ensures ByteAt(m, a) in {0xEB, 0xE9, 0xC2, 0xC3, 0xCC} ==> NeverFallsThrough(i)
    ensures ByteAt(m, a) == 0xFF && ByteAt(m, a + 1) == 0x25 ==> NeverFallsThrough(i)
    ensures NeverFallsThrough(i) && !IsPrefix(m[a]) ==>
      || ByteAt(m, a) in {0xEB, 0xE9, 0xC2, 0xC3, 0xCC, 0xCA, 0xCB, 0xCF, 0xEA}
      || (ByteAt(m, a) == 0xFF && Reg(ByteAt(m, a + 1)) in {4, 5}) || (ByteAt(m, a) == 0x0F && IsUd(ByteAt(m, a + 1)))
  {
  }

  // The padding detour_is_code_filler knows: NOPs of 1 to 11 bytes and a breakpoint.
  const FILLERS: seq<seq<Byte>> := [
    [0x90],
    [0x66, 0x90],
    [0x0F, 0x1F, 0x00],
    [0x0F, 0x1F, 0x40, 0x00],
    [0x0F, 0x1F, 0x44, 0x00, 0x00],
    [0x66, 0x0F, 0x1F, 0x44, 0x00, 0x00],
    [0x0F, 0x1F, 0x80, 0x00, 0x00, 0x00, 0x00],
    [0x0F, 0x1F, 0x84, 0x00, 0x00, 0x00, 0x00, 0x00],
    [0x66, 0x0F, 0x1F, 0x84, 0x00, 0x00, 0x00, 0x00, 0x00],
    [0x66, 0x66, 0x0F, 0x1F, 0x84, 0x00, 0x00, 0x00, 0x00, 0x00],
    [0x66, 0x66, 0x66, 0x0F, 0x1F, 0x84, 0x00, 0x00, 0x00, 0x00, 0x00],
    [0xCC]
  ]

  // The length of the filler instruction at a, or 0.
  function FillerSize(m: Memory, a: nat): (r: nat)
    ensures r <= 11
  {
    FirstFiller(m, a, 0)
  }

  function FirstFiller(m: Memory, a: nat, k: nat): (r: nat)
    requires k <= |FILLERS|
    ensures r <= 11
    decreases |FILLERS| - k
  {
    if k == |FILLERS| then 0
    else if Starts(m, a, FILLERS[k]) then |FILLERS[k]|
    else FirstFiller(m, a, k + 1)
  }

  // The operand-size prefixes at a.
  function Count66(m: Memory, a: nat): nat
    decreases |m| - a
  {
    if a < |m| && m[a] == 0x66 then 1 + Count66(m, a + 1) else 0
  }

  // The long no-operation 0F 1F /0 at b with one of the operands that Intel recommends: zeros behind ModR/M.
  predicate IsLongNop(m: Memory, b: nat)
  {
    var modrm := ByteAt(m, b + 2);
    && ByteAt(m, b) == 0x0F && ByteAt(m, b + 1) == 0x1F && modrm in {0x00, 0x40, 0x44, 0x80, 0x84}
    && b + 3 + Extra32(modrm, 0) <= |m|
    && forall k :: b + 3 <= k < b + 3 + Extra32(modrm, 0) ==> m[k] == 0
  }

  // Padding: a breakpoint, or a no-operation behind operand-size prefixes, how many depending on its operand.
  predicate IsPadding(m: Memory, a: nat)
  {
    var n := Count66(m, a);
    var modrm := ByteAt(m, a + n + 2);
    || ByteAt(m, a) == 0xCC
    || (ByteAt(m, a + n) == 0x90 && n <= 1)
    || (IsLongNop(m, a + n) && n <= if modrm == 0x84 then 3 else if modrm == 0x44 then 1 else 0)
  }

  function PaddingSize(m: Memory, a: nat): (r: nat)
    ensures 0 < r
  {
    var n := Count66(m, a);
    if ByteAt(m, a + n) == 0x0F then n + 3 + Extra32(ByteAt(m, a + n + 2), 0) else n + 1
  }

  predicate Starts(m: Memory, a: nat, s: seq<Byte>)
  {
    a + |s| <= |m| && forall k :: 0 <= k < |s| ==> m[a + k] == s[k]
  }

  // Which entry of the list stands at a, from the k-th on.
  function FillerIndex(m: Memory, a: nat, k: nat): (r: nat)
    requires k <= |FILLERS|
    ensures k <= r <= |FILLERS|
    decreases |FILLERS| - k
  {
    if k == |FILLERS| || Starts(m, a, FILLERS[k]) then k else FillerIndex(m, a, k + 1)
  }

  lemma {:induction false} FillerFound(m: Memory, a: nat, k: nat)
    requires k <= |FILLERS|
    ensures
      var r := FillerIndex(m, a, k);
      && FirstFiller(m, a, k) == (if r < |FILLERS| then |FILLERS[r]| else 0)
      && (r < |FILLERS| ==> Starts(m, a, FILLERS[r])) && forall j :: k <= j < r ==> !Starts(m, a, FILLERS[j])
    decreases |FILLERS| - k
  {
    hide Starts;
    if k < |FILLERS| && !Starts(m, a, FILLERS[k]) {
      FillerFound(m, a, k + 1);
    }
  }

  // The bytes of an entry, one by one.
  lemma {:induction false} FillerBytes(m: Memory, a: nat, s: seq<Byte>)
    requires Starts(m, a, s) && 0 < |s| <= 11
    ensures
      && a + |s| <= |m| && m[a] == s[0]
      && (1 < |s| ==> m[a + 1] == s[1]) && (2 < |s| ==> m[a + 2] == s[2]) && (3 < |s| ==> m[a + 3] == s[3])
      && (4 < |s| ==> m[a + 4] == s[4]) && (5 < |s| ==> m[a + 5] == s[5]) && (6 < |s| ==> m[a + 6] == s[6])
      && (7 < |s| ==> m[a + 7] == s[7]) && (8 < |s| ==> m[a + 8] == s[8]) && (9 < |s| ==> m[a + 9] == s[9])
      && (10 < |s| ==> m[a + 10] == s[10])
  {
    assert m[a + 0] == s[0];
  }

  lemma {:induction false} FillerShape(m: Memory, a: nat, k: nat)
    requires k < |FILLERS| && Starts(m, a, FILLERS[k])
    ensures IsPadding(m, a) && PaddingSize(m, a) == |FILLERS[k]|
  {
    hide Starts;
    FillerBytes(m, a, FILLERS[k]);
    CountIs(m, a);
    var b := a + Count66(m, a);
    if ByteAt(m, b) == 0x0F {
      forall j | b + 3 <= j < b + 3 + Extra32(m[b + 2], 0)
        ensures m[j] == 0
      {
        assert j - a in {3, 4, 5, 6, 7, 8, 9, 10};
      }
    }
  }

  lemma {:induction false} CountIs(m: Memory, a: nat)
    ensures
      Count66(m, a) ==
        if ByteAt(m, a) != 0x66 then 0 else if ByteAt(m, a + 1) != 0x66 then 1 else if ByteAt(m, a + 2) != 0x66 then 2
        else if ByteAt(m, a + 3) != 0x66 then 3 else 4 + Count66(m, a + 4)
  {
    assert Count66(m, a + 1) == if ByteAt(m, a + 1) == 0x66 then 1 + Count66(m, a + 2) else 0;
    assert Count66(m, a + 2) == if ByteAt(m, a + 2) == 0x66 then 1 + Count66(m, a + 3) else 0;
    assert Count66(m, a + 3) == if ByteAt(m, a + 3) == 0x66 then 1 + Count66(m, a + 4) else 0;
  }

  lemma {:induction false} SomeFiller(m: Memory, a: nat) returns (k: nat)
    requires IsPadding(m, a)
    ensures k < |FILLERS| && Starts(m, a, FILLERS[k])
  {
    CountIs(m, a);
    var n := Count66(m, a);
    var modrm := ByteAt(m, a + n + 2);
    k := if ByteAt(m, a) == 0xCC then 11
         else if ByteAt(m, a + n) == 0x90 then n
         else if modrm == 0x00 then 2 else if modrm == 0x40 then 3 else if modrm == 0x44 then 4 + n
         else if modrm == 0x80 then 6 else 7 + n;
  }

  /** What is taken for padding: exactly these instructions. */
  lemma {:induction false} FillerIff(m: Memory, a: nat)
    ensures FillerSize(m, a) == if IsPadding(m, a) then PaddingSize(m, a) else 0
  {
    hide IsPadding, PaddingSize, Starts;
    FillerFound(m, a, 0);
    var r := FillerIndex(m, a, 0);
    if IsPadding(m, a) {
      var k := SomeFiller(m, a);
    }
    if r < |FILLERS| {
      FillerShape(m, a, r);
    }
  }

  /** And they are one instruction each, a breakpoint or one without any effect on the flow of control. */
  lemma {:induction false} PaddingDecodes(m: Memory, a: nat)
    requires IsPadding(m, a)
    ensures
      && a < |m| && DecodeAt(m, a).Some? && DecodeAt(m, a).value.length == PaddingSize(m, a)
      && DecodeAt(m, a).value.control == if m[a] == 0xCC then Departs else Sequential
  {
    PaddingBehind66(m, a, NO_PREFIXES);
  }

  lemma {:induction false} PaddingBehind66(m: Memory, a: nat, p: Prefixes)
    requires !p.address16 && !p.rep && !p.repne
    requires
      var b := a + Count66(m, a);
      ByteAt(m, b) in {0x90, 0xCC} || IsLongNop(m, b)
    ensures
      var i := Decode(m, a, p);
      && a < |m| && i.Some? && i.value.length == PaddingSize(m, a)
      && i.value.control == if ByteAt(m, a + Count66(m, a)) == 0xCC then Departs else Sequential
    decreases |m| - a
  {
    if m[a] == 0x66 {
      PaddingBehind66(m, a + 1, Note(p, 0x66));
    }
  }

  // Bytes of filler that are taken, from offset cb on, until a jump fits.
  function FillerEnd(m: Memory, target: nat, cb: nat): (r: nat)
    ensures cb <= r && (r < SIZE_OF_JMP + 11 || r == cb)
    decreases SIZE_OF_JMP - cb
  {
    var n := FillerSize(m, target + cb);
    if cb >= SIZE_OF_JMP || n == 0 then cb else FillerEnd(m, target, cb + n)
  }

  // Where the k-th instruction starts, in the target and in the trampoline.
  function SourceOffset(plan: seq<Insn>, k: nat): nat
    requires k <= |plan|
  {
    if k == 0 then 0 else SourceOffset(plan, k - 1) + plan[k - 1].length
  }

  function CodeOffset(plan: seq<Insn>, k: nat): nat
    requires k <= |plan|
  {
    if k == 0 then 0 else CodeOffset(plan, k - 1) + EmittedLength(plan[k - 1])
  }

  lemma {:induction false} NextOffset(plan: seq<Insn>, k: nat)
    requires k < |plan|
    ensures SourceOffset(plan, k + 1) == SourceOffset(plan, k) + plan[k].length
    ensures CodeOffset(plan, k + 1) == CodeOffset(plan, k) + EmittedLength(plan[k])
  {
  }

  // Movable instructions of which all but the last are too short for a jump together.
  ghost predicate Sized(plan: seq<Insn>)
  {
    forall k :: 0 <= k < |plan| ==> WellFormed(plan[k]) && Movable(plan[k]) && SourceOffset(plan, k) < SIZE_OF_JMP
  }

  // The plan lists the instructions the copy loop moves: consecutive movable ones, read by the copier as what they
  // are, up to the end of the function or until a jump fits.
  ghost predicate Planned(m: Memory, target: nat, plan: seq<Insn>)
  {
    && Sized(plan)
    && (forall k :: 0 <= k < |plan| ==> DecodeAt(m, target + SourceOffset(plan, k)) == Some(plan[k]))
    && (forall k :: 0 <= k < |plan| ==> ReadRight(m, target + SourceOffset(plan, k), plan[k]))
    && (forall k :: 0 <= k < |plan| - 1 ==> !EndsFunction(m, target + SourceOffset(plan, k)))
    && (|plan| > 0 ==>
          SourceOffset(plan, |plan|) >= SIZE_OF_JMP || EndsFunction(m, target + SourceOffset(plan, |plan| - 1)))
  }

  lemma {:induction false} PlannedAt(m: Memory, target: nat, plan: seq<Insn>, k: nat)
    requires Planned(m, target, plan) && k < |plan|
    ensures DecodeAt(m, target + SourceOffset(plan, k)) == Some(plan[k])
    ensures ReadRight(m, target + SourceOffset(plan, k), plan[k])
    ensures WellFormed(plan[k]) && Movable(plan[k]) && target + SourceOffset(plan, k) + plan[k].length <= |m|
    ensures k + 1 < |plan| ==> !EndsFunction(m, target + SourceOffset(plan, k))
  {
    hide Movable, EndsFunction, SourceOffset, ReadRight;
  }

  lemma {:induction false} OffsetBounds(plan: seq<Insn>, k: nat)
    requires Sized(plan) && k <= |plan|
    ensures k <= SourceOffset(plan, k) <= CodeOffset(plan, k) <= 3 * SourceOffset(plan, k)
  {
    if k > 0 {
      OffsetBounds(plan, k - 1);
      MovableIsFaithful(plan[k - 1], 0);
    }
  }

  /**
   The copy loop moves at most five instructions, so eight alignment entries are enough. If no copied
   instruction is longer than 13 bytes, the moved code and its jump fit rbCode although each short
   conditional jump grows by four bytes, and the bytes to restore fit rbRestore.
   */
  lemma {:induction false} SizeBound(m: Memory, target: nat, plan: seq<Insn>)
    requires Planned(m, target, plan)
    ensures |plan| <= SIZE_OF_JMP < ALIGN_COUNT
    ensures (forall k :: 0 <= k < |plan| ==> EmittedLength(plan[k]) <= 13) ==>
              && CodeOffset(plan, |plan|) + SIZE_OF_JMP <= CODE_SIZE
              && SourceOffset(plan, |plan|) <= 17
              && FillerEnd(m, target, SourceOffset(plan, |plan|)) <= RESTORE_SIZE
  {
    var n := |plan|;
    if n > 0 {
      OffsetBounds(plan, n - 1);
      MovableIsFaithful(plan[n - 1], 0);
    }
  }

  /** Nothing is moved from behind an instruction that does not fall through, those excepted that are not seen as such. */
  lemma {:induction false} OnlyTheLastEnds(m: Memory, target: nat, plan: seq<Insn>, k: nat)
    requires Planned(m, target, plan) && k < |plan|
    requires NeverFallsThrough(plan[k]) && !EndUnseen(m, target + SourceOffset(plan, k))
    ensures k == |plan| - 1
  {
    hide Planned, EndsFunction, EndUnseen, SourceOffset, DecodeAt, ReadRight, Movable, WellFormed;
    PlannedAt(m, target, plan, k);
    EndsFunctionIff(m, target + SourceOffset(plan, k), plan[k]);
  }

  // From a to b there is padding, and nothing else.
  ghost predicate AllPadding(m: Memory, a: nat, b: nat)
    decreases b - a
  {
    a == b || (a < b && IsPadding(m, a) && AllPadding(m, a + PaddingSize(m, a), b))
  }

  /**
   And nothing but padding is overwritten behind the moved instructions, as much as a jump needs; if there is not enough,
   what follows is none.
   */
  lemma {:induction false} OnlyPaddingBehind(m: Memory, target: nat, cb: nat)
    ensures
      var end := FillerEnd(m, target, cb);
      && AllPadding(m, target + cb, target + end)
      && (end > cb ==> cb < 5) && (end < 5 ==> !IsPadding(m, target + end))
    decreases SIZE_OF_JMP - cb
  {
    hide IsPadding, PaddingSize, FillerSize;
    FillerIff(m, target + cb);
    var n := FillerSize(m, target + cb);
    if cb < SIZE_OF_JMP && n != 0 {
      OnlyPaddingBehind(m, target, cb + n);
    }
  }

  /** Padding is consumed only behind an instruction that never falls through to it. */
  lemma {:induction false} FillerIsDead(m: Memory, target: nat, plan: seq<Insn>)
    requires Planned(m, target, plan) && |plan| > 0
    requires FillerEnd(m, target, SourceOffset(plan, |plan|)) != SourceOffset(plan, |plan|)
    ensures NeverFallsThrough(plan[|plan| - 1])
  {
    hide DecodeAt, ReadRight, EndsFunction, Movable, WellFormed, SourceOffset, FillerSize;
    var k := |plan| - 1;
    PlannedAt(m, target, plan, k);
    EndsFunctionIff(m, target + SourceOffset(plan, k), plan[k]);
    CountIsNotMovable(m, target + SourceOffset(plan, k), plan[k]);
  }

  lemma {:induction false} CountIsNotMovable(m: Memory, a: nat, i: Insn)
    requires DecodeAt(m, a) == Some(i) && Movable(i)
    ensures m[a] != 0xE0
  {
  }

  // The alignment entries the copy loop writes, as bit fields of 3 and 5 bits.
  datatype Align = Align(obTarget: nat, obTrampoline: nat)

  function AlignByte(x: Align): Byte
    requires x.obTarget < 8 && x.obTrampoline < 32
  {
    x.obTarget + 8 * x.obTrampoline
  }

  function AlignOf(b: Byte): Align { Align(b % 8, b / 8) }

  function Truncated(obTarget: nat, obTrampoline: int): (r: Align)
    ensures r.obTarget < 8 && r.obTrampoline < 32
  {
    Align(obTarget % 8, obTrampoline % 32)
  }

  // rAlign after the copy loop; the rest of the array was zeroed before.
  function Alignment(plan: seq<Insn>): (r: seq<Align>)
    ensures |r| == ALIGN_COUNT
  {
    seq(ALIGN_COUNT, n requires 0 <= n < ALIGN_COUNT =>
      if n < |plan| then Truncated(SourceOffset(plan, n + 1), CodeOffset(plan, n + 1)) else Align(0, 0))
  }

  /** detour_align_from_target: the first entry for the offset, or 0. */
  method AlignFromTarget(rAlign: seq<Align>, obTarget: nat) returns (r: nat)
    ensures r == FirstTarget(rAlign, obTarget, 0)
  {
    for n := 0 to |rAlign|
      invariant FirstTarget(rAlign, obTarget, 0) == FirstTarget(rAlign, obTarget, n)
    {
      if rAlign[n].obTarget == obTarget {
        return rAlign[n].obTrampoline;
      }
    }
    return 0;
  }

  method AlignFromTrampoline(rAlign: seq<Align>, obTrampoline: nat) returns (r: nat)
    ensures r == FirstTrampoline(rAlign, obTrampoline, 0)
  {
    for n := 0 to |rAlign|
      invariant FirstTrampoline(rAlign, obTrampoline, 0) == FirstTrampoline(rAlign, obTrampoline, n)
    {
      if rAlign[n].obTrampoline == obTrampoline {
        return rAlign[n].obTarget;
      }
    }
    return 0;
  }

  function FirstTarget(rAlign: seq<Align>, obTarget: nat, n: nat): nat
    requires n <= |rAlign|
    decreases |rAlign| - n
  {
    if n == |rAlign| then 0
    else if rAlign[n].obTarget == obTarget then rAlign[n].obTrampoline
    else FirstTarget(rAlign, obTarget, n + 1)
  }

  function FirstTrampoline(rAlign: seq<Align>, obTrampoline: nat, n: nat): nat
    requires n <= |rAlign|
    decreases |rAlign| - n
  {
    if n == |rAlign| then 0
    else if rAlign[n].obTrampoline == obTrampoline then rAlign[n].obTarget
    else FirstTrampoline(rAlign, obTrampoline, n + 1)
  }

  lemma {:induction false} FirstTargetIs(rAlign: seq<Align>, ob: nat, n: nat, k: nat)
    requires n <= k < |rAlign| && rAlign[k].obTarget == ob
    requires forall j :: n <= j < k ==> rAlign[j].obTarget != ob
    ensures FirstTarget(rAlign, ob, n) == rAlign[k].obTrampoline
    decreases k - n
  {
    if n < k {
      FirstTargetIs(rAlign, ob, n + 1, k);
    }
  }

  lemma {:induction false} FirstTrampolineIs(rAlign: seq<Align>, ob: nat, n: nat, k: nat)
    requires n <= k < |rAlign| && rAlign[k].obTrampoline == ob
    requires forall j :: n <= j < k ==> rAlign[j].obTrampoline != ob
    ensures FirstTrampoline(rAlign, ob, n) == rAlign[k].obTarget
    decreases k - n
  {
    if n < k {
      FirstTrampolineIs(rAlign, ob, n + 1, k);
    }
  }

  lemma {:induction false} OffsetsIncrease(plan: seq<Insn>, j: nat, k: nat)
    requires Sized(plan) && j < k <= |plan|
    ensures SourceOffset(plan, j) < SourceOffset(plan, k) && CodeOffset(plan, j) < CodeOffset(plan, k)
    decreases k
  {
    hide Movable, EmittedLength;
    MovableIsFaithful(plan[k - 1], 0);
    if j < k - 1 {
      OffsetsIncrease(plan, j, k - 1);
    }
  }

  lemma {:induction false} AlignIs(plan: seq<Insn>, j: nat)
    requires j < |plan| < ALIGN_COUNT
    ensures Alignment(plan)[j].obTarget == SourceOffset(plan, j + 1) % 8
    ensures CodeOffset(plan, j + 1) < 32 ==> Alignment(plan)[j].obTrampoline == CodeOffset(plan, j + 1)
  {
  }

  // Entry j records the boundary behind instruction j. Only the last can exceed its 3-bit field.
  lemma {:induction false} AlignEntry(plan: seq<Insn>, j: nat)
    requires Sized(plan) && j < |plan|
    requires CodeOffset(plan, |plan|) < 32
    ensures |plan| < ALIGN_COUNT
    ensures Alignment(plan)[j].obTarget == if j + 1 < |plan| then SourceOffset(plan, j + 1) else SourceOffset(plan, j + 1) % 8
    ensures Alignment(plan)[j].obTrampoline == CodeOffset(plan, j + 1)
    ensures 0 < SourceOffset(plan, j + 1) && 0 < CodeOffset(plan, j + 1) < 32
    ensures j + 1 < |plan| ==> SourceOffset(plan, j + 1) < SIZE_OF_JMP
  {
    hide Movable, EmittedLength, WellFormed, Alignment;
    OffsetBounds(plan, |plan| - 1);
    AlignIs(plan, j);
    OffsetsIncrease(plan, 0, j + 1);
    if j + 1 < |plan| {
      OffsetsIncrease(plan, j + 1, |plan|);
    }
  }

  // The entries behind the last instruction are zero.
  lemma {:induction false} UnusedEntry(plan: seq<Insn>)
    requires |plan| < ALIGN_COUNT
    ensures Alignment(plan)[|plan|] == Align(0, 0)
  {
  }

  // A suspended thread at instruction k of the target is sent to instruction k of the trampoline.
  ghost predicate RepairsFromTarget(plan: seq<Insn>, k: nat)
    requires k <= |plan|
  {
    FirstTarget(Alignment(plan), SourceOffset(plan, k), 0) == CodeOffset(plan, k)
  }

  ghost predicate RepairsFromTrampoline(plan: seq<Insn>, k: nat)
    requires k <= |plan|
  {
    FirstTrampoline(Alignment(plan), CodeOffset(plan, k), 0) == SourceOffset(plan, k)
  }

  /**
   Threads stopped in the prologue: at every moved instruction but the first the 3-bit field is always
   enough. The first, offset 0, is found unless the moved prologue is 8 or 16 bytes long, which the
   field truncates to 0.
   */
  lemma {:induction false} ThreadsLeaveTarget(plan: seq<Insn>, k: nat)
    requires Sized(plan) && k < |plan|
    requires CodeOffset(plan, |plan|) < 32
    ensures RepairsFromTarget(plan, k) <==> k > 0 || SourceOffset(plan, |plan|) % 8 != 0
  {
    hide Alignment, WellFormed, FirstTarget, Movable, EmittedLength;
    var a, n := Alignment(plan), |plan|;
    AlignEntry(plan, n - 1);
    if k > 0 {
      AlignEntry(plan, k - 1);
      forall j | 0 <= j < k - 1
        ensures a[j].obTarget != SourceOffset(plan, k)
      {
        AlignEntry(plan, j);
        OffsetsIncrease(plan, j + 1, k);
      }
      FirstTargetIs(a, SourceOffset(plan, k), 0, k - 1);
    } else {
      forall j | 0 <= j < n - 1
        ensures a[j].obTarget != 0
      {
        AlignEntry(plan, j);
      }
      UnusedEntry(plan);
      FirstTargetIs(a, 0, 0, if SourceOffset(plan, n) % 8 != 0 then n else n - 1);
    }
  }

  /**
   Threads stopped in the trampoline, k == |plan| being the jump behind the moved code: every one is
   sent back to its place, that at the jump if and only if the moved prologue is at most 7 bytes long.
   */
  lemma {:induction false} ThreadsLeaveTrampoline(plan: seq<Insn>, k: nat)
    requires Sized(plan) && 0 < |plan| && k <= |plan|
    requires CodeOffset(plan, |plan|) < 32
    ensures RepairsFromTrampoline(plan, k) <==> k < |plan| || SourceOffset(plan, |plan|) <= 7
  {
    hide Alignment, WellFormed, FirstTrampoline, Movable, EmittedLength;
    var a, n := Alignment(plan), |plan|;
    AlignEntry(plan, n - 1);
    if k == 0 {
      forall j | 0 <= j < n
        ensures a[j].obTrampoline != 0
      {
        AlignEntry(plan, j);
      }
      UnusedEntry(plan);
      FirstTrampolineIs(a, 0, 0, n);
    } else {
      AlignEntry(plan, k - 1);
      forall j | 0 <= j < k - 1
        ensures a[j].obTrampoline != CodeOffset(plan, k)
      {
        AlignEntry(plan, j);
        OffsetsIncrease(plan, j + 1, k);
      }
      FirstTrampolineIs(a, CodeOffset(plan, k), 0, k - 1);
    }
  }

  /** For moved prologues of at most seven bytes the two maps are inverse on all boundaries, both ends included. */
  lemma {:induction false} RepairsAreInverse(plan: seq<Insn>, k: nat)
    requires Sized(plan) && 0 < |plan| && k <= |plan|
    requires CodeOffset(plan, |plan|) < 32 && SourceOffset(plan, |plan|) <= 7
    ensures FirstTrampoline(Alignment(plan), FirstTarget(Alignment(plan), SourceOffset(plan, k), 0), 0) == SourceOffset(plan, k)
    ensures FirstTarget(Alignment(plan), FirstTrampoline(Alignment(plan), CodeOffset(plan, k), 0), 0) == CodeOffset(plan, k)
  {
    hide Alignment, FirstTarget, FirstTrampoline, Sized, SourceOffset, CodeOffset;
    ThreadsLeaveTrampoline(plan, k);
    OffsetsIncrease(plan, 0, |plan|);
    if k < |plan| {
      ThreadsLeaveTarget(plan, k);
    } else {
      var a := Alignment(plan);
      AlignEntry(plan, k - 1);
      forall j | 0 <= j < k - 1
        ensures a[j].obTarget != SourceOffset(plan, k)
      {
        AlignEntry(plan, j);
        OffsetsIncrease(plan, j + 1, k);
      }
      FirstTargetIs(a, SourceOffset(plan, k), 0, k - 1);
    }
  }
}