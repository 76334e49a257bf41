/** DetourAttachEx between the allocation of a trampoline and the unprotection of the target. */
module Builder {
  import opened Words
  import opened IntelDecoder
  import opened CopyTables
  import opened Relocation
  import opened Meaning
  import opened Prologue
  import opened Disassembler
  import opened MovedCode
  import opened Simulation

  // No more than this many bytes from the target on are looked at.
  const WINDOW := 32

  ghost predicate SameWindow(m: Memory, m': Memory, a: nat)
  {
    |m| == |m'| && forall k :: a <= k < a + WINDOW && k < |m| ==> m'[k] == m[k]
  }

  // What a prologue must be like to be moved.
  ghost predicate Moves(code: Memory, target: nat, plan: seq<Insn>)
  {
    && Planned(code, target, plan) && 0 < |plan|
    && (forall k :: 0 <= k < |plan| ==> EmittedLength(plan[k]) <= 13)
    && |code| <= TWO32 && target + WINDOW <= |code|
  }

  // cbTarget, the number of bytes of the target that are taken.
  function Taken(code: Memory, target: nat, plan: seq<Insn>): nat
  {
    FillerEnd(code, target, SourceOffset(plan, |plan|))
  }

  /** For example push ebp; mov ebp, esp; je: it can be moved, and grows by the four bytes of the wide jump. */
  lemma {:induction false} UsualPrologueMoves(code: Memory, target: nat, disp: Byte) returns (plan: seq<Insn>)
    requires Holds(code, target, [0x55, 0x8B, 0xEC, 0x74, disp]) && |code| <= TWO32 && target + WINDOW <= |code|
    ensures Moves(code, target, plan) && Taken(code, target, plan) == 5
    ensures |plan| == 3 && CodeOffset(plan, |plan|) == 9
  {
    hide FillerSize, Signed8, Decode, DecodeAt, ReadRight;
    var s := [0x55, 0x8B, 0xEC, 0x74, disp];
    assert code[target + 0] == s[0] && code[target + 1] == s[1] && code[target + 2] == s[2];
    assert code[target + 3] == s[3] && code[target + 4] == s[4];
    plan := [Insn(1, Sequential, NoModRm), Insn(2, Sequential, Address32(0xEC)), Insn(2, Relative(Short, Branch(4), Signed8(disp)), NoModRm)];
    UsualDecodes(code, target, disp);
    assert SourceOffset(plan, 0) == 0 && SourceOffset(plan, 1) == 1 && SourceOffset(plan, 2) == 3 && SourceOffset(plan, 3) == 5;
    assert CodeOffset(plan, 0) == 0 && CodeOffset(plan, 1) == 1 && CodeOffset(plan, 2) == 3 && CodeOffset(plan, 3) == 9;
  }

  lemma {:induction false} UsualDecodes(code: Memory, a: nat, disp: Byte)
    requires a + 5 <= |code| && code[a] == 0x55 && code[a + 1] == 0x8B && code[a + 2] == 0xEC && code[a + 3] == 0x74 && code[a + 4] == disp
    ensures DecodeAt(code, a) == Some(Insn(1, Sequential, NoModRm))
    ensures DecodeAt(code, a + 1) == Some(Insn(2, Sequential, Address32(0xEC)))
    ensures DecodeAt(code, a + 3) == Some(Insn(2, Relative(Short, Branch(4), Signed8(disp)), NoModRm))
    ensures ReadRight(code, a, Insn(1, Sequential, NoModRm)) && ReadRight(code, a + 1, Insn(2, Sequential, Address32(0xEC)))
    ensures ReadRight(code, a + 3, Insn(2, Relative(Short, Branch(4), Signed8(disp)), NoModRm))
  {
    hide Signed8;
  }

  lemma {:induction false} MovesFits(code: Memory, target: nat, plan: seq<Insn>)
    requires Moves(code, target, plan)
    ensures |plan| < ALIGN_COUNT
    ensures CodeOffset(plan, |plan|) + SIZE_OF_JMP <= CODE_SIZE
    ensures SourceOffset(plan, |plan|) <= Taken(code, target, plan) <= RESTORE_SIZE
  {
    hide Planned, CodeOffset, SourceOffset;
    SizeBound(code, target, plan);
  }

  // The plan and what is taken depend on the window alone.
  lemma {:induction false} MovesIsLocal(code: Memory, code': Memory, target: nat, plan: seq<Insn>)
    requires Moves(code, target, plan) && SameWindow(code, code', target)
    ensures Moves(code', target, plan) && Taken(code', target, plan) == Taken(code, target, plan)
  {
    hide Planned, SourceOffset, CodeOffset, EndsFunction, FillerEnd, DecodeAt, Movable, WellFormed;
    SizeBound(code, target, plan);
    PlannedIsLocal(code, code', target, plan);
    FillerIsLocal(code, code', target, SourceOffset(plan, |plan|));
  }

  lemma {:induction false} PlannedIsLocal(code: Memory, code': Memory, target: nat, plan: seq<Insn>)
    requires Planned(code, target, plan) && 0 < |plan| && SourceOffset(plan, |plan|) <= WINDOW
    requires SameWindow(code, code', target)
    ensures Planned(code', target, plan)
  {
    hide SourceOffset, EndsFunction, Decode, ReadAs, Movable, WellFormed;
    forall k | 0 <= k < |plan|
      ensures DecodeAt(code', target + SourceOffset(plan, k)) == Some(plan[k])
      ensures ReadRight(code', target + SourceOffset(plan, k), plan[k])
      ensures EndsFunction(code', target + SourceOffset(plan, k)) == EndsFunction(code, target + SourceOffset(plan, k))
    {
      PlannedAt(code, target, plan, k);
      NextOffset(plan, k);
      SourceOrdered(plan, k + 1, |plan|);
      DecodeIsLocal(code, target + SourceOffset(plan, k), code', target + SourceOffset(plan, k), NO_PREFIXES, plan[k]);
      ReadIsLocal(code, target + SourceOffset(plan, k), code', target + SourceOffset(plan, k), NO_PREFIXES, plan[k]);
      EndIsLocal(code, code', target, target + SourceOffset(plan, k));
    }
  }

  lemma {:induction false} EndIsLocal(code: Memory, code': Memory, target: nat, a: nat)
    requires SameWindow(code, code', target) && target <= a < target + SIZE_OF_JMP
    ensures EndsFunction(code', a) == EndsFunction(code, a)
  {
  }

  lemma {:induction false} FillerIsLocal(code: Memory, code': Memory, target: nat, cb: nat)
    requires SameWindow(code, code', target)
    ensures FillerEnd(code', target, cb) == FillerEnd(code, target, cb)
    decreases SIZE_OF_JMP - cb
  {
    hide FillerSize;
    if cb < SIZE_OF_JMP {
      FillerSizeIsLocal(code, code', target, cb);
      var n := FillerSize(code, target + cb);
      if n != 0 {
        FillerIsLocal(code, code', target, cb + n);
      }
    }
  }

  lemma {:induction false} FillerSizeIsLocal(code: Memory, code': Memory, target: nat, cb: nat)
    requires SameWindow(code, code', target) && cb < SIZE_OF_JMP
    ensures FillerSize(code', target + cb) == FillerSize(code, target + cb)
  {
    FirstFillerIsLocal(code, code', target, cb, 0);
  }

  lemma {:induction false} FirstFillerIsLocal(code: Memory, code': Memory, target: nat, cb: nat, k: nat)
    requires SameWindow(code, code', target) && cb < SIZE_OF_JMP && k <= |FILLERS|
    ensures FirstFiller(code', target + cb, k) == FirstFiller(code, target + cb, k)
    decreases |FILLERS| - k
  {
    if k < |FILLERS| {
      FirstFillerIsLocal(code, code', target, cb, k + 1);
    }
  }

  const INT3: Byte := 0xCC

  function Breaks(n: nat): (s: seq<Byte>)
    ensures |s| == n
  {
    seq(n, _ => INT3)
  }

  /** Whatever byte of it is executed, a breakpoint stops there. */
  lemma {:induction false} BreaksStop(m: Memory, a: nat, n: nat, k: nat)
    requires Holds(m, a, Breaks(n)) && k < n
    ensures DecodeAt(m, a + k) == Some(Insn(1, Departs, NoModRm))
  {
    assert m[a + k] == Breaks(n)[k];
  }

  /** detour_gen_brk. */
  method FillBreaks(space: AddressSpace, pbCode: nat, pbLimit: nat)
    requires pbCode <= pbLimit <= |space.bytes|
    modifies space
    ensures space.bytes == Written(old(space.bytes), pbCode, Breaks(pbLimit - pbCode))
  {
    hide Breaks;
    ghost var m := space.bytes;
    NoBreaks(m, pbCode);
    for a := pbCode to pbLimit
      invariant space.bytes == Written(m, pbCode, Breaks(a - pbCode))
    {
      space.Store(a, [INT3]);
      WrittenTwice(m, pbCode, Breaks(a - pbCode), [INT3]);
      OneMoreBreak(a - pbCode);
    }
  }

  lemma {:induction false} NoBreaks(m: Memory, a: nat)
    requires a <= |m|
    ensures Written(m, a, Breaks(0)) == m
  {
  }

  lemma {:induction false} OneMoreBreak(n: nat)
    ensures Breaks(n) + [INT3] == Breaks(n + 1)
  {
  }

  // What the trampoline records about its target, and the saved bytes of that.
  ghost predicate Recorded(code: Memory, target: nat, m: Memory, tramp: nat, cbTarget: nat, cbCode: nat, detour: Word)
  {
    && target + cbTarget < TWO32 && cbTarget < 256 && target + cbTarget <= |code|
    && Holds(m, tramp + CB_CODE, [cbCode % 256])
    && Holds(m, tramp + CB_RESTORE, [cbTarget])
    && Holds(m, tramp + RB_RESTORE, code[target..target + cbTarget])
    && Holds(m, tramp + PB_REMAIN, Le32(target + cbTarget))
    && Holds(m, tramp + PB_DETOUR, Le32(detour))
  }

  // The alignment array, as the thread repair reads it.
  ghost predicate Aligned(m: Memory, tramp: nat, plan: seq<Insn>)
  {
    && tramp + R_ALIGN + ALIGN_COUNT <= |m|
    && forall k :: 0 <= k < ALIGN_COUNT ==> AlignOf(m[tramp + R_ALIGN + k]) == Alignment(plan)[k]
  }

  /** A finished trampoline for the prologue of target. */
  ghost predicate Built(code: Memory, target: nat, m: Memory, tramp: nat, plan: seq<Insn>, detour: Word)
  {
    var cbTarget, cbCode := Taken(code, target, plan), CodeOffset(plan, |plan|);
    && Moves(code, target, plan) && SIZE_OF_JMP <= cbTarget
    && CodeOf(code, target, m, tramp, plan, cbTarget)
    && Recorded(code, target, m, tramp, cbTarget, cbCode, detour)
    && cbCode + SIZE_OF_JMP <= CODE_SIZE
    && Holds(m, tramp + cbCode + SIZE_OF_JMP, Breaks(CODE_SIZE - cbCode - SIZE_OF_JMP))
    && Aligned(m, tramp, plan)
  }

  // Steps over padding; only reads.
  method SkipFiller(space: AddressSpace, target: nat, cb: nat) returns (cbTarget: nat)
    ensures cbTarget == FillerEnd(space.bytes, target, cb)
  {
    hide FillerSize;
    cbTarget := cb;
    while cbTarget < SIZE_OF_JMP
      invariant FillerEnd(space.bytes, target, cbTarget) == FillerEnd(space.bytes, target, cb)
      decreases SIZE_OF_JMP - cbTarget
    {
      var cFiller := FillerSize(space.bytes, target + cbTarget);
      if cFiller == 0 {
        break;
      }
      cbTarget := cbTarget + cFiller;
    }
  }

  // The memory after the fields of the trampoline are written.
  function RecordedIn(code: Memory, target: nat, m: Memory, tramp: nat, cbTarget: nat, cbCode: nat, detour: Word): (r: Memory)
    requires tramp + TRAMPOLINE_SIZE <= |m| && target + cbTarget <= |code| && target + cbTarget < TWO32 && cbTarget <= RESTORE_SIZE
    ensures |r| == |m|
  {
    var m1 := Written(m, tramp + CB_CODE, [cbCode % 256]);
    var m2 := Written(m1, tramp + CB_RESTORE, [cbTarget]);
    var m3 := Written(m2, tramp + RB_RESTORE, code[target..target + cbTarget]);
    var m4 := Written(m3, tramp + PB_REMAIN, Le32(target + cbTarget));
    Written(m4, tramp + PB_DETOUR, Le32(detour))
  }

  lemma {:induction false} RecordedInIs(code: Memory, target: nat, m: Memory, tramp: nat, cbTarget: nat, cbCode: nat, detour: Word)
    requires tramp + TRAMPOLINE_SIZE <= |m| && target + cbTarget <= |code| && target + cbTarget < TWO32 && cbTarget <= RESTORE_SIZE
    ensures Recorded(code, target, RecordedIn(code, target, m, tramp, cbTarget, cbCode, detour), tramp, cbTarget, cbCode, detour)
  {
    hide Le32;
  }

  lemma {:induction false} RecordedInKeeps(code: Memory, target: nat, m: Memory, tramp: nat, plan: seq<Insn>, cbTarget: nat, cbCode: nat,
                                           detour: Word)
    requires tramp + TRAMPOLINE_SIZE <= |m| && target + cbTarget <= |code| && target + cbTarget < TWO32 && cbTarget <= RESTORE_SIZE
    requires Sized(plan) && |plan| < ALIGN_COUNT && CodeOffset(plan, |plan|) <= CB_CODE
    requires MovedFirst(code, target, m, tramp, plan, |plan|) && Unaligned(m, tramp, |plan|)
    ensures MovedFirst(code, target, RecordedIn(code, target, m, tramp, cbTarget, cbCode, detour), tramp, plan, |plan|)
    ensures Unaligned(RecordedIn(code, target, m, tramp, cbTarget, cbCode, detour), tramp, |plan|)
  {
    hide Le32, Written, MovedFirst, Unaligned, Sized, CodeOffset;
    var n := |plan|;
    var m1 := Written(m, tramp + CB_CODE, [cbCode % 256]);
    var m2 := Written(m1, tramp + CB_RESTORE, [cbTarget]);
    var m3 := Written(m2, tramp + RB_RESTORE, code[target..target + cbTarget]);
    var m4 := Written(m3, tramp + PB_REMAIN, Le32(target + cbTarget));
    KeptBy(code, target, m, tramp, plan, tramp + CB_CODE, [cbCode % 256]);
    KeptBy(code, target, m1, tramp, plan, tramp + CB_RESTORE, [cbTarget]);
    KeptBy(code, target, m2, tramp, plan, tramp + RB_RESTORE, code[target..target + cbTarget]);
    KeptBy(code, target, m3, tramp, plan, tramp + PB_REMAIN, Le32(target + cbTarget));
    KeptBy(code, target, m4, tramp, plan, tramp + PB_DETOUR, Le32(detour));
  }

  lemma {:induction false} KeptBy(code: Memory, target: nat, m: Memory, tramp: nat, plan: seq<Insn>, b: nat, t: seq<Byte>)
    requires Sized(plan) && MovedFirst(code, target, m, tramp, plan, |plan|) && Unaligned(m, tramp, |plan|)
    requires tramp + CodeOffset(plan, |plan|) <= b && b + |t| <= |m| && b + |t| <= tramp + TRAMPOLINE_SIZE
    requires b + |t| <= tramp + R_ALIGN || tramp + R_ALIGN + ALIGN_COUNT <= b
    requires |plan| <= ALIGN_COUNT
    ensures MovedFirst(code, target, Written(m, b, t), tramp, plan, |plan|) && Unaligned(Written(m, b, t), tramp, |plan|)
  {
    hide Written, MovedFirst, Unaligned, Sized, CodeOffset;
    MovedKept(code, target, m, tramp, plan, |plan|, b, t);
    UnalignedKept(m, tramp, |plan|, b, t);
  }

  lemma {:induction false} RecordedKept(code: Memory, target: nat, m: Memory, tramp: nat, cbTarget: nat, cbCode: nat, detour: Word,
                                        b: nat, t: seq<Byte>)
    requires Recorded(code, target, m, tramp, cbTarget, cbCode, detour)
    requires b + |t| <= tramp + CB_CODE && b + |t| <= |m|
    ensures Recorded(code, target, Written(m, b, t), tramp, cbTarget, cbCode, detour)
  {
    hide Le32;
  }

  // The jump to pbRemain and the breakpoints behind it.
  lemma {:induction false} JumpKeeps(code: Memory, target: nat, m: Memory, tramp: nat, plan: seq<Insn>, cbTarget: nat, detour: Word)
    requires Sized(plan) && |plan| < ALIGN_COUNT && CodeOffset(plan, |plan|) + SIZE_OF_JMP <= CODE_SIZE
    requires tramp + TRAMPOLINE_SIZE <= |m|
    requires MovedFirst(code, target, m, tramp, plan, |plan|) && Unaligned(m, tramp, |plan|)
    requires Recorded(code, target, m, tramp, cbTarget, CodeOffset(plan, |plan|), detour)
    ensures
      var a := tramp + CodeOffset(plan, |plan|);
      var jump, breaks := JumpBytes(a, target + cbTarget), Breaks(tramp + CODE_SIZE - (a + SIZE_OF_JMP));
      var r := Written(Written(m, a, jump), a + SIZE_OF_JMP, breaks);
      && MovedFirst(code, target, r, tramp, plan, |plan|) && Unaligned(r, tramp, |plan|)
      && Recorded(code, target, r, tramp, cbTarget, CodeOffset(plan, |plan|), detour)
      && Holds(r, a, jump) && Holds(r, a + SIZE_OF_JMP, breaks)
  {
    hide JumpBytes, Breaks, Written, MovedFirst, Unaligned, Recorded, Sized, CodeOffset, Holds;
    var a := tramp + CodeOffset(plan, |plan|);
    var jump, breaks := JumpBytes(a, target + cbTarget), Breaks(tramp + CODE_SIZE - (a + SIZE_OF_JMP));
    var m1 := Written(m, a, jump);
    KeptBy(code, target, m, tramp, plan, a, jump);
    KeptBy(code, target, m1, tramp, plan, a + SIZE_OF_JMP, breaks);
    RecordedKept(code, target, m, tramp, cbTarget, CodeOffset(plan, |plan|), detour, a, jump);
    RecordedKept(code, target, m1, tramp, cbTarget, CodeOffset(plan, |plan|), detour, a + SIZE_OF_JMP, breaks);
    WrittenHolds(m, a, jump);
    WrittenHolds(m1, a + SIZE_OF_JMP, breaks);
    HoldsAfterWrite(m1, a, jump, a + SIZE_OF_JMP, breaks);
  }

  lemma {:induction false} AlignedIs(code: Memory, target: nat, m: Memory, tramp: nat, plan: seq<Insn>)
    requires |plan| < ALIGN_COUNT && MovedFirst(code, target, m, tramp, plan, |plan|) && Unaligned(m, tramp, |plan|)
    ensures Aligned(m, tramp, plan)
  {
    hide CopiedAt, SourceOffset, CodeOffset, Outside;
    forall k | 0 <= k < ALIGN_COUNT
      ensures AlignOf(m[tramp + R_ALIGN + k]) == Alignment(plan)[k]
    {
      assert k < |plan| ==> AlignedAt(m, tramp, plan, k);
    }
  }

  lemma {:induction false} MovedIsCode(code: Memory, target: nat, m: Memory, tramp: nat, plan: seq<Insn>)
    requires Moves(code, target, plan) && MovedFirst(code, target, m, tramp, plan, |plan|) && tramp + TRAMPOLINE_SIZE <= |m|
    requires
      var a := tramp + CodeOffset(plan, |plan|);
      Holds(m, a, JumpBytes(a, target + Taken(code, target, plan)))
    ensures CodeOf(code, target, m, tramp, plan, Taken(code, target, plan))
  {
    hide CopiedAt, AlignedAt, Outside, Planned, FillerEnd, SourceOffset, CodeOffset, JumpBytes, Holds;
    MovesFits(code, target, plan);
  }

  // What BuildTrampoline does once enough bytes are taken.
  method FinishTrampoline(space: AddressSpace, target: nat, tramp: nat, detour: Word, cbTarget: nat, cbCode: nat,
                          ghost code: Memory, ghost plan: seq<Insn>)
    requires Moves(code, target, plan) && tramp + TRAMPOLINE_SIZE <= |space.bytes|
    requires cbTarget == Taken(code, target, plan) && SIZE_OF_JMP <= cbTarget && cbCode == CodeOffset(plan, |plan|)
    requires MovedFirst(code, target, space.bytes, tramp, plan, |plan|) && Unaligned(space.bytes, tramp, |plan|)
    requires SameWindow(code, space.bytes, target)
    requires target + WINDOW <= tramp || tramp + TRAMPOLINE_SIZE <= target
    modifies space
    ensures Built(code, target, space.bytes, tramp, plan, detour)
    ensures Outside(code, space.bytes, tramp, TRAMPOLINE_SIZE)
  {
    hide MovedFirst, Unaligned, Recorded, Aligned, Taken, Planned, CodeOffset, SourceOffset, FillerEnd, Written, Sized, JumpBytes,
      Le32, Breaks, CodeOf, Holds, Moves, Outside, EmittedLength;
    MovesFits(code, target, plan);
    MovesInside(code, target, plan);
    PlanIsSized(code, target, plan);
    ghost var m := space.bytes;
    space.Store(tramp + CB_CODE, [cbCode % 256]);
    space.Store(tramp + CB_RESTORE, [cbTarget % 256]);
    WindowAfter(code, target, tramp, m, cbTarget, cbCode);
    space.Store(tramp + RB_RESTORE, space.bytes[target..target + cbTarget]);
    space.Store(tramp + PB_REMAIN, Le32(Wrap(target + cbTarget)));
    space.Store(tramp + PB_DETOUR, Le32(detour));
    assert space.bytes == RecordedIn(code, target, m, tramp, cbTarget, cbCode, detour);
    RecordedInIs(code, target, m, tramp, cbTarget, cbCode, detour);
    RecordedInKeeps(code, target, m, tramp, plan, cbTarget, cbCode, detour);
    ghost var recorded := space.bytes;
    JumpKeeps(code, target, recorded, tramp, plan, cbTarget, detour);
    space.Store(tramp + cbCode, JumpBytes(tramp + cbCode, target + cbTarget));
    FillBreaks(space, tramp + cbCode + SIZE_OF_JMP, tramp + CODE_SIZE);
    MovedIsCode(code, target, space.bytes, tramp, plan);
    AlignedIs(code, target, space.bytes, tramp, plan);
    MovedIsOutside(code, target, space.bytes, tramp, plan);
  }

  lemma {:induction false} MovesInside(code: Memory, target: nat, plan: seq<Insn>)
    requires Moves(code, target, plan)
    ensures target + WINDOW <= |code| <= TWO32 && Planned(code, target, plan)
  {
    hide Planned, EmittedLength;
  }

  lemma {:induction false} MovedIsOutside(code: Memory, target: nat, m: Memory, tramp: nat, plan: seq<Insn>)
    requires MovedFirst(code, target, m, tramp, plan, |plan|)
    ensures Outside(code, m, tramp, TRAMPOLINE_SIZE)
  {
  }

  // The prologue is read back unchanged when it is saved.
  lemma {:induction false} WindowAfter(code: Memory, target: nat, tramp: nat, m: Memory, cbTarget: nat, cbCode: nat)
    requires SameWindow(code, m, target) && tramp + TRAMPOLINE_SIZE <= |m| && cbTarget <= RESTORE_SIZE && target + WINDOW <= |code|
    requires target + WINDOW <= tramp || tramp + TRAMPOLINE_SIZE <= target
    ensures
      var m2 := Written(Written(m, tramp + CB_CODE, [cbCode % 256]), tramp + CB_RESTORE, [cbTarget % 256]);
      m2[target..target + cbTarget] == code[target..target + cbTarget]
  {
    var m2 := Written(Written(m, tramp + CB_CODE, [cbCode % 256]), tramp + CB_RESTORE, [cbTarget % 256]);
    forall a | target <= a < target + cbTarget
      ensures m2[a] == code[a]
    {
      assert m2[a] == m[a];
    }
  }

  /**
   Fills the trampoline at tramp for target. It fails, with ERROR_INVALID_BLOCK, if and only if the function
   and the padding behind it are too short for a jump; only the trampoline is written.
   */
  method BuildTrampoline(space: AddressSpace, target: nat, tramp: nat, detour: Word, unset: Byte, ghost plan: seq<Insn>)
    returns (built: bool)
    requires Moves(space.bytes, target, plan) && tramp + TRAMPOLINE_SIZE <= |space.bytes|
    requires target + WINDOW <= tramp || tramp + TRAMPOLINE_SIZE <= target
    modifies space
    ensures Outside(old(space.bytes), space.bytes, tramp, TRAMPOLINE_SIZE)
    ensures built <==> SIZE_OF_JMP <= Taken(old(space.bytes), target, plan)
    ensures built ==> Built(old(space.bytes), target, space.bytes, tramp, plan, detour)
  {
    hide Moves, MovedFirst, Unaligned, Recorded, Aligned, Planned, CodeOffset, SourceOffset, FillerEnd, Written, Outside, Built;
    ghost var code := space.bytes;
    MovesFits(code, target, plan);
    space.Store(tramp + R_ALIGN, [0, 0, 0, 0, 0, 0, 0, 0]);
    ghost var clean := space.bytes;
    Cleaned(code, target, clean, tramp, plan);
    var cbTarget, cbCode := MoveInstructions(space, target, tramp, unset, plan);
    WindowKept(clean, target, space.bytes, tramp, plan);
    FillerIsLocal(clean, space.bytes, target, cbTarget);
    cbTarget := SkipFiller(space, target, cbTarget);
    if cbTarget < SIZE_OF_JMP {
      MovedIsOutside(clean, target, space.bytes, tramp, plan);
      OutsideOutside(code, clean, space.bytes, tramp);
      return false;
    }
    FinishTrampoline(space, target, tramp, detour, cbTarget, cbCode, clean, plan);
    OutsideOutside(code, clean, space.bytes, tramp);
    BuiltIsLocal(clean, code, target, space.bytes, tramp, plan, detour);
    built := true;
  }

  lemma {:induction false} OutsideOutside(m: Memory, m': Memory, m'': Memory, tramp: nat)
    requires Outside(m, m', tramp, TRAMPOLINE_SIZE) && Outside(m', m'', tramp, TRAMPOLINE_SIZE)
    ensures Outside(m, m'', tramp, TRAMPOLINE_SIZE)
  {
  }

  lemma {:induction false} Cleaned(code: Memory, target: nat, clean: Memory, tramp: nat, plan: seq<Insn>)
    requires Moves(code, target, plan) && tramp + TRAMPOLINE_SIZE <= |code|
    requires target + WINDOW <= tramp || tramp + TRAMPOLINE_SIZE <= target
    requires clean == Written(code, tramp + R_ALIGN, [0, 0, 0, 0, 0, 0, 0, 0])
    ensures Moves(clean, target, plan) && Taken(clean, target, plan) == Taken(code, target, plan)
    ensures Unaligned(clean, tramp, 0) && SameWindow(clean, code, target) && Outside(code, clean, tramp, TRAMPOLINE_SIZE)
    ensures Planned(clean, target, plan) && 0 < |plan| && |clean| <= TWO32
  {
    hide Planned, Taken, CodeOffset, SourceOffset, EmittedLength;
    MovesIsLocal(code, clean, target, plan);
  }

  lemma {:induction false} WindowKept(code: Memory, target: nat, m: Memory, tramp: nat, plan: seq<Insn>)
    requires MovedFirst(code, target, m, tramp, plan, |plan|)
    requires target + WINDOW <= tramp || tramp + TRAMPOLINE_SIZE <= target
    ensures SameWindow(code, m, target)
  {
    hide CopiedAt, AlignedAt;
  }

  lemma {:induction false} BuiltIsLocal(code: Memory, code': Memory, target: nat, m: Memory, tramp: nat, plan: seq<Insn>, detour: Word)
    requires Built(code, target, m, tramp, plan, detour) && SameWindow(code, code', target)
    ensures Built(code', target, m, tramp, plan, detour)
  {
    hide Aligned, Taken, Planned, CodeOffset, SourceOffset, Holds, Le32, Breaks, JumpBytes, EmittedLength, CopiedAt, FillerEnd;
    MovesIsLocal(code, code', target, plan);
    MovesFits(code, target, plan);
    AllCopiedIsLocal(code, code', target, m, tramp, plan);
    var cbTarget := Taken(code, target, plan);
    assert code'[target..target + cbTarget] == code[target..target + cbTarget];
    TakenIsFillerEnd(code, target, plan);
    TakenIsFillerEnd(code', target, plan);
  }

  lemma {:induction false} TakenIsFillerEnd(code: Memory, target: nat, plan: seq<Insn>)
    ensures Taken(code, target, plan) == FillerEnd(code, target, SourceOffset(plan, |plan|))
  {
    hide FillerEnd;
  }

  lemma {:induction false} AllCopiedIsLocal(code: Memory, code': Memory, target: nat, m: Memory, tramp: nat, plan: seq<Insn>)
    requires Moves(code, target, plan) && SameWindow(code, code', target)
    requires forall k :: 0 <= k < |plan| ==> CopiedAt(code, target, m, tramp, plan, k)
    ensures forall k :: 0 <= k < |plan| ==> CopiedAt(code', target, m, tramp, plan, k)
  {
    hide Taken, Planned, CodeOffset, SourceOffset, SameWindow, Sized, CopiedTo;
    MovesFits(code, target, plan);
    PlanIsSized(code, target, plan);
    forall k | 0 <= k < |plan|
      ensures CopiedAt(code', target, m, tramp, plan, k)
    {
      assert CopiedAt(code, target, m, tramp, plan, k);
      NextOffset(plan, k);
      SourceOrdered(plan, k + 1, |plan|);
      CopiedIsLocal(code, code', target, target + SourceOffset(plan, k), m, tramp + CodeOffset(plan, k), plan[k]);
    }
  }

  lemma {:induction false} CopiedIsLocal(code: Memory, code': Memory, target: nat, src: nat, m: Memory, dst: nat, i: Insn)
    requires CopiedTo(code, src, m, dst, i) && SameWindow(code, code', target)
    requires target <= src && src + i.length <= target + WINDOW
    ensures CopiedTo(code', src, m, dst, i)
  {
    hide Holds, Tail;
    assert code'[src..src + HeadSize(i)] == code[src..src + HeadSize(i)];
    assert Emitted(code', src, i, dst - src) == Emitted(code, src, i, dst - src);
  }

  // A trampoline whose slot is unchanged is still finished.
  lemma {:induction false} BuiltKept(code: Memory, target: nat, m: Memory, m': Memory, tramp: nat, plan: seq<Insn>, detour: Word)
    requires Built(code, target, m, tramp, plan, detour) && |m| == |m'|
    requires forall a :: tramp <= a < tramp + TRAMPOLINE_SIZE && a < |m| ==> m'[a] == m[a]
    ensures Built(code, target, m', tramp, plan, detour)
  {
    hide Moves, Taken, Planned, CodeOffset, SourceOffset, Le32, Breaks, JumpBytes, CopiedAt, FillerEnd, Alignment;
    MovesFits(code, target, plan);
    forall k | 0 <= k < |plan|
      ensures CopiedAt(code, target, m', tramp, plan, k)
    {
      assert CopiedAt(code, target, m, tramp, plan, k);
      CopyKept(code, target, m, m', tramp, plan, k);
    }
  }

  lemma {:induction false} CopyKept(code: Memory, target: nat, m: Memory, m': Memory, tramp: nat, plan: seq<Insn>, k: nat)
    requires Moves(code, target, plan) && k < |plan| && CopiedAt(code, target, m, tramp, plan, k) && |m| == |m'|
    requires forall a :: tramp <= a < tramp + TRAMPOLINE_SIZE && a < |m| ==> m'[a] == m[a]
    ensures CopiedAt(code, target, m', tramp, plan, k)
  {
    hide Taken, Planned, CodeOffset, SourceOffset, Emitted, EmittedLength;
    MovesFits(code, target, plan);
    PlanIsSized(code, target, plan);
    NextOffset(plan, k);
    Ordered(plan, k + 1, |plan|);
    EmittedHasLength(code, target + SourceOffset(plan, k), plan[k], tramp + CodeOffset(plan, k) - (target + SourceOffset(plan, k)));
  }
}