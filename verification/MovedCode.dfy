/** The copy loop of DetourAttachEx: the prologue of a target moved into a trampoline. */
module MovedCode {
  import opened Words
  import opened IntelDecoder
  import opened CopyTables
  import opened Relocation
  import opened Meaning
  import opened Prologue
  import opened Disassembler

  // _DETOUR_TRAMPOLINE.
  const CB_CODE := 30
  const RB_RESTORE := 32
  const CB_RESTORE := 54
  const R_ALIGN := 56
  const PB_REMAIN := 64
  const PB_DETOUR := 68
  const TRAMPOLINE_SIZE := 72

  // A field of a structure, in bytes, and where it is put: at the next address that its alignment allows.
  datatype Field = Field(size: nat, alignment: nat)

  function OffsetOf(fields: seq<Field>, k: nat): nat
    requires k <= |fields| && forall j :: 0 <= j < |fields| ==> 0 < fields[j].alignment
  {
    if k == 0 then 0
    else
      var end := OffsetOf(fields, k - 1) + fields[k - 1].size;
      if k == |fields| then end else (end + fields[k].alignment - 1) / fields[k].alignment * fields[k].alignment
  }

  /** The offsets are those of the structure's fields, in the order and of the sizes in which it declares them. */
  lemma {:induction false} LayoutIs()
    ensures
      var fields := [Field(30, 1), Field(1, 1), Field(1, 1), Field(22, 1), Field(1, 1), Field(1, 1), Field(8, 1), Field(4, 4), Field(4, 4)];
      && CB_CODE == OffsetOf(fields, 1) && RB_RESTORE == OffsetOf(fields, 3) && CB_RESTORE == OffsetOf(fields, 4)
      && R_ALIGN == OffsetOf(fields, 6) && PB_REMAIN == OffsetOf(fields, 7) && PB_DETOUR == OffsetOf(fields, 8)
      && TRAMPOLINE_SIZE == OffsetOf(fields, 9) == 72
      && CODE_SIZE == fields[0].size && RESTORE_SIZE == fields[3].size && ALIGN_COUNT == fields[6].size
  {
    var fields := [Field(30, 1), Field(1, 1), Field(1, 1), Field(22, 1), Field(1, 1), Field(1, 1), Field(8, 1), Field(4, 4), Field(4, 4)];
    assert OffsetOf(fields, 0) == 0 && OffsetOf(fields, 1) == 30 && OffsetOf(fields, 2) == 31 && OffsetOf(fields, 3) == 32;
    assert OffsetOf(fields, 4) == 54 && OffsetOf(fields, 5) == 55 && OffsetOf(fields, 6) == 56 && OffsetOf(fields, 7) == 64;
    assert OffsetOf(fields, 8) == 68;
  }

  // The instruction i at src has been copied to dst.
  ghost predicate CopiedTo(code: Memory, src: nat, m: Memory, dst: nat, i: Insn)
  {
    WellFormed(i) && src + i.length <= |code| && Holds(m, dst, Emitted(code, src, i, dst - src))
  }

  // Likewise for the k-th instruction of the plan.
  ghost predicate CopiedAt(code: Memory, target: nat, m: Memory, tramp: nat, plan: seq<Insn>, k: nat)
    requires k < |plan|
  {
    CopiedTo(code, target + SourceOffset(plan, k), m, tramp + CodeOffset(plan, k), plan[k])
  }

  function AlignEntryByte(plan: seq<Insn>, k: nat): Byte
    requires k < |plan|
  {
    AlignByte(Truncated(SourceOffset(plan, k + 1), CodeOffset(plan, k + 1)))
  }

  ghost predicate AlignedAt(m: Memory, tramp: nat, plan: seq<Insn>, k: nat)
    requires k < |plan|
  {
    tramp + R_ALIGN + k < |m| && m[tramp + R_ALIGN + k] == AlignEntryByte(plan, k)
  }

  // The first n instructions are moved and entered in rAlign; only the trampoline was written.
  ghost predicate MovedFirst(code: Memory, target: nat, m: Memory, tramp: nat, plan: seq<Insn>, n: nat)
    requires n <= |plan|
  {
    && |m| == |code|
    && (forall k :: 0 <= k < n ==> CopiedAt(code, target, m, tramp, plan, k))
    && (forall k :: 0 <= k < n ==> AlignedAt(m, tramp, plan, k))
    && Outside(code, m, tramp, TRAMPOLINE_SIZE)
  }

  // The entries of rAlign from n on are zero.
  ghost predicate Unaligned(m: Memory, tramp: nat, n: nat)
  {
    && tramp + R_ALIGN + ALIGN_COUNT <= |m|
    && forall a :: tramp + R_ALIGN + n <= a < tramp + R_ALIGN + ALIGN_COUNT ==> m[a] == 0
  }

  lemma {:induction false} UnalignedKept(m: Memory, tramp: nat, n: nat, b: nat, t: seq<Byte>)
    requires Unaligned(m, tramp, n) && b + |t| <= |m|
    requires b + |t| <= tramp + R_ALIGN + n || tramp + R_ALIGN + ALIGN_COUNT <= b
    ensures Unaligned(Written(m, b, t), tramp, n)
  {
  }

  // Only [a, a + n) differs.
  ghost predicate Outside(m: Memory, m': Memory, a: nat, n: nat)
  {
    |m| == |m'| && forall k :: 0 <= k < |m| && !(a <= k < a + n) ==> m'[k] == m[k]
  }

  lemma {:induction false} CopiedKept(code: Memory, src: nat, m: Memory, dst: nat, i: Insn, b: nat, t: seq<Byte>)
    requires CopiedTo(code, src, m, dst, i)
    requires b + |t| <= |m| && dst + EmittedLength(i) <= b
    ensures CopiedTo(code, src, Written(m, b, t), dst, i)
  {
    hide Emitted, EmittedLength, WellFormed, Written, Holds;
    EmittedHasLength(code, src, i, dst - src);
    HoldsAfterWrite(m, dst, Emitted(code, src, i, dst - src), b, t);
  }

  lemma {:induction false} CopiedNow(code: Memory, src: nat, m: Memory, dst: nat, i: Insn)
    requires WellFormed(i) && src + i.length <= |code| && dst + EmittedLength(i) <= |m|
    ensures |Emitted(code, src, i, dst - src)| == EmittedLength(i)
    ensures CopiedTo(code, src, Written(m, dst, Emitted(code, src, i, dst - src)), dst, i)
  {
    hide Emitted, EmittedLength, WellFormed, Written, Holds;
    EmittedHasLength(code, src, i, dst - src);
    WrittenHolds(m, dst, Emitted(code, src, i, dst - src));
  }

  lemma {:induction false} OutsideKept(m: Memory, m': Memory, a: nat, n: nat, b: nat, t: seq<Byte>)
    requires Outside(m, m', a, n) && a <= b && b + |t| <= a + n && b + |t| <= |m|
    ensures Outside(m, Written(m', b, t), a, n)
  {
  }

  // What is moved stays, whatever is written behind it.
  lemma {:induction false} MovedKept(code: Memory, target: nat, m: Memory, tramp: nat, plan: seq<Insn>, n: nat, b: nat, t: seq<Byte>)
    requires Sized(plan) && n <= |plan| && MovedFirst(code, target, m, tramp, plan, n)
    requires tramp + CodeOffset(plan, n) <= b && b + |t| <= |m| && b + |t| <= tramp + TRAMPOLINE_SIZE
    requires b + |t| <= tramp + R_ALIGN || tramp + R_ALIGN + n <= b
    ensures MovedFirst(code, target, Written(m, b, t), tramp, plan, n)
  {
    hide CopiedTo, AlignEntryByte, Sized, Outside, EmittedLength, SourceOffset, CodeOffset;
    var m' := Written(m, b, t);
    OutsideKept(code, m, tramp, TRAMPOLINE_SIZE, b, t);
    forall k | 0 <= k < n
      ensures CopiedAt(code, target, m', tramp, plan, k)
    {
      assert CopiedAt(code, target, m, tramp, plan, k);
      Ordered(plan, k + 1, n);
      NextOffset(plan, k);
      CopiedKept(code, target + SourceOffset(plan, k), m, tramp + CodeOffset(plan, k), plan[k], b, t);
    }
    forall k | 0 <= k < n
      ensures AlignedAt(m', tramp, plan, k)
    {
      assert AlignedAt(m, tramp, plan, k);
    }
  }

  lemma {:induction false} Ordered(plan: seq<Insn>, j: nat, k: nat)
    requires Sized(plan) && j <= k <= |plan|
    ensures CodeOffset(plan, j) <= CodeOffset(plan, k)
  {
    if j < k {
      OffsetsIncrease(plan, j, k);
    }
  }

  // One turn of the copy loop: instruction n is copied and entered in rAlign.
  lemma {:induction false} MovedStep(code: Memory, target: nat, m: Memory, tramp: nat, plan: seq<Insn>, n: nat)
    requires Sized(plan) && n < |plan| && |plan| <= ALIGN_COUNT && MovedFirst(code, target, m, tramp, plan, n)
    requires target + SourceOffset(plan, n) + plan[n].length <= |code|
    requires tramp + TRAMPOLINE_SIZE <= |code| && CodeOffset(plan, |plan|) + SIZE_OF_JMP <= CODE_SIZE
    ensures
      var src, dst := target + SourceOffset(plan, n), tramp + CodeOffset(plan, n);
      var e := Emitted(code, src, plan[n], dst - src);
      && |e| == EmittedLength(plan[n]) && dst + |e| <= tramp + CODE_SIZE
      && MovedFirst(code, target, Written(Written(m, dst, e), tramp + R_ALIGN + n, [AlignEntryByte(plan, n)]), tramp, plan, n + 1)
  {
    hide CopiedTo, AlignEntryByte, Movable, Emitted, Written, Outside, EmittedLength, SourceOffset, CodeOffset;
    NextOffset(plan, n);
    var src, dst := target + SourceOffset(plan, n), tramp + CodeOffset(plan, n);
    var e := Emitted(code, src, plan[n], dst - src);
    Ordered(plan, n + 1, |plan|);
    CopiedNow(code, src, m, dst, plan[n]);
    MovedKept(code, target, m, tramp, plan, n, dst, e);
    var m1 := Written(m, dst, e);
    var b := tramp + R_ALIGN + n;
    var t := [AlignEntryByte(plan, n)];
    MovedKept(code, target, m1, tramp, plan, n, b, t);
    CopiedKept(code, src, m1, dst, plan[n], b, t);
    assert Written(m1, b, t)[b] == t[0] by {
      ByteWritten(m1, b, t[0]);
    }
  }

  lemma {:induction false} ByteWritten(m: Memory, b: nat, x: Byte)
    requires b < |m|
    ensures Written(m, b, [x])[b] == x
  {
  }

  // What the copier writes, reads and adds for an instruction that it reads as r.
  function ReadBytes(code: Memory, src: nat, r: Reading, delta: int): seq<Byte>
    requires match r case Whole(x) => WellFormed(x) && src + x.length <= |code| case HeadOnly(k) => src + k <= |code|
  {
    match r case Whole(x) => Emitted(code, src, x, delta) case HeadOnly(k) => code[src..src + k]
  }

  function ReadSize(r: Reading): nat { match r case Whole(x) => x.length case HeadOnly(k) => k + 1 }

  function ReadExtra(r: Reading, delta: int): int { match r case Whole(x) => Extra(x, delta) case HeadOnly(_) => 0 }

  // One turn of the copy loop: the instruction at src is copied to dst as it is read, and an entry of rAlign is set.
  ghost predicate Turned(code: Memory, src: nat, was: Memory, dst: nat, r: Reading, entry: nat, x: Byte, m: Memory)
  {
    && (match r case Whole(i) => WellFormed(i) && src + i.length <= |code| case HeadOnly(k) => src + k <= |code|)
    && var e := ReadBytes(code, src, r, dst - src);
    && dst + |e| <= |was| && entry < |was| && m == Written(Written(was, dst, e), entry, [x])
  }

  /**
   One turn of the copy loop, for any instruction: cb bytes of the target are read before it, and cbOld bytes are taken
   to be written. It goes on with the next instruction if and only if this one is read right.
   */
  method MoveInstruction(space: AddressSpace, target: nat, tramp: nat, unset: Byte, cb: nat, cbOld: int, n: nat,
                         ghost code: Memory, ghost i: Insn)
    returns (cbTarget: nat, cbCode: int)
    requires DecodeAt(code, target + cb) == Some(i) && 0 <= tramp + cbOld
    requires PlacedFor(space.bytes, code, tramp + cbOld, target + cb, ReadAs(code, target + cb, NO_PREFIXES, i), i)
    requires n < ALIGN_COUNT && tramp + TRAMPOLINE_SIZE <= |code|
    modifies space
    ensures
      var src, dst := target + cb, tramp + cbOld;
      var r := ReadAs(code, src, NO_PREFIXES, i);
      && cbTarget == cb + ReadSize(r) && cbCode == cbOld + ReadSize(r) + ReadExtra(r, dst - src)
      && Turned(code, src, old(space.bytes), dst, r, tramp + R_ALIGN + n, AlignByte(Truncated(cbTarget, cbCode)), space.bytes)
    ensures cbTarget == cb + i.length <==> ReadRight(code, target + cb, i)
  {
    hide DecodeAt, ReadAs, Written, Emitted, Extra, WellFormed, PlacedFor, AlignByte, Truncated;
    ReadFits(space.bytes, code, tramp + cbOld, target + cb, i);
    var pbOp := target + cb;
    var dis := new CDetourDis(space, unset);
    var pbSrc := dis.CopyInstruction(tramp + cbOld, pbOp, code, i);
    cbCode := cbOld + (pbSrc - pbOp) + dis.extra;
    cbTarget := pbSrc - target;
    space.Store(tramp + R_ALIGN + n, [AlignByte(Truncated(cbTarget, cbCode))]);
  }

  // What is read and written for an instruction is inside memory.
  lemma {:induction false} ReadFits(m: Memory, code: Memory, dst: nat, src: nat, i: Insn)
    requires DecodeAt(code, src) == Some(i) && PlacedFor(m, code, dst, src, ReadAs(code, src, NO_PREFIXES, i), i)
    ensures
      var r := ReadAs(code, src, NO_PREFIXES, i);
      && |m| == |code| && src + ReadSize(r) <= |code|
      && (r.Whole? ==> WellFormed(r.insn)) && dst + |ReadBytes(code, src, r, dst - src)| <= |m|
  {
    hide Decode, ReadAs, Emitted, EmittedLength, WellFormed;
    var r := ReadAs(code, src, NO_PREFIXES, i);
    if r != Whole(i) {
      MisreadEndsElsewhere(code, src, NO_PREFIXES, i);
    }
    if r.Whole? {
      EmittedHasLength(code, src, r.insn, dst - src);
    }
  }

  // What is read and said to be written for instruction n of the plan.
  lemma {:induction false} PlannedTurn(code: Memory, target: nat, m: Memory, tramp: nat, plan: seq<Insn>, n: nat)
    requires Planned(code, target, plan) && n < |plan| && MovedFirst(code, target, m, tramp, plan, n)
    requires |code| <= TWO32 && tramp + TRAMPOLINE_SIZE <= |code| && CodeOffset(plan, |plan|) + SIZE_OF_JMP <= CODE_SIZE
    requires target + CODE_SIZE <= tramp || tramp + TRAMPOLINE_SIZE <= target
    ensures
      var src, dst := target + SourceOffset(plan, n), tramp + CodeOffset(plan, n);
      && DecodeAt(code, src) == Some(plan[n]) && ReadAs(code, src, NO_PREFIXES, plan[n]) == Whole(plan[n])
      && Placed(m, code, dst, src, plan[n])
      && SourceOffset(plan, n) + plan[n].length == SourceOffset(plan, n + 1)
      && CodeOffset(plan, n) + plan[n].length + Extra(plan[n], dst - src) == CodeOffset(plan, n + 1)
  {
    hide Planned, Sized, Movable, MovedFirst, DecodeAt, ReadAs, EmittedLength, Extra, WellFormed, SourceOffset, CodeOffset, Placed;
    PlannedAt(code, target, plan, n);
    NextOffset(plan, n);
    StepReady(code, target, m, tramp, plan, n);
  }

  // Where that leaves the moved code.
  lemma {:induction false} PlannedStep(code: Memory, target: nat, m: Memory, tramp: nat, plan: seq<Insn>, n: nat, m': Memory)
    requires Planned(code, target, plan) && n < |plan| <= ALIGN_COUNT
    requires MovedFirst(code, target, m, tramp, plan, n) && Unaligned(m, tramp, n)
    requires tramp + TRAMPOLINE_SIZE <= |code| && CodeOffset(plan, |plan|) + SIZE_OF_JMP <= CODE_SIZE
    requires Turned(code, target + SourceOffset(plan, n), m, tramp + CodeOffset(plan, n), Whole(plan[n]),
                    tramp + R_ALIGN + n, AlignEntryByte(plan, n), m')
    ensures MovedFirst(code, target, m', tramp, plan, n + 1) && Unaligned(m', tramp, n + 1)
  {
    hide Unaligned, Planned, Sized, Movable, DecodeAt, ReadRight, CopiedAt, AlignedAt, Outside, Written, Emitted, EmittedLength, WellFormed,
      SourceOffset, CodeOffset, AlignEntryByte;
    PlanIsSized(code, target, plan);
    PlannedAt(code, target, plan, n);
    MovedStep(code, target, m, tramp, plan, n);
    hide MovedFirst;
    MovedAligns(code, target, m, tramp, plan, n);
  }

  lemma {:induction false} MovedAligns(code: Memory, target: nat, m: Memory, tramp: nat, plan: seq<Insn>, n: nat)
    requires Unaligned(m, tramp, n) && n < |plan| <= ALIGN_COUNT && |m| == |code| && tramp + TRAMPOLINE_SIZE <= |m|
    requires WellFormed(plan[n]) && target + SourceOffset(plan, n) + plan[n].length <= |code|
    requires
      var src, dst := target + SourceOffset(plan, n), tramp + CodeOffset(plan, n);
      dst + |Emitted(code, src, plan[n], dst - src)| <= tramp + CODE_SIZE
    ensures
      var src, dst := target + SourceOffset(plan, n), tramp + CodeOffset(plan, n);
      var e := Emitted(code, src, plan[n], dst - src);
      Unaligned(Written(Written(m, dst, e), tramp + R_ALIGN + n, [AlignEntryByte(plan, n)]), tramp, n + 1)
  {
    hide Emitted, WellFormed, SourceOffset, CodeOffset, Written, AlignEntryByte, Unaligned;
    var src, dst := target + SourceOffset(plan, n), tramp + CodeOffset(plan, n);
    var e := Emitted(code, src, plan[n], dst - src);
    UnalignedKept(m, tramp, n, dst, e);
    UnalignedNext(Written(m, dst, e), tramp, n, tramp + R_ALIGN + n, [AlignEntryByte(plan, n)]);
  }

  lemma {:induction false} UnalignedNext(m: Memory, tramp: nat, n: nat, b: nat, t: seq<Byte>)
    requires Unaligned(m, tramp, n) && b + |t| <= |m| && b + |t| == tramp + R_ALIGN + n + 1
    ensures Unaligned(Written(m, b, t), tramp, n + 1)
  {
  }

  /**
   The copy loop: moves whole instructions until a jump fits or the function ends. cbTarget bytes were
   read and cbCode bytes written.
   */
  method MoveInstructions(space: AddressSpace, target: nat, tramp: nat, unset: Byte, ghost plan: seq<Insn>)
    returns (cbTarget: nat, cbCode: int)
    requires Planned(space.bytes, target, plan) && 0 < |plan| && Unaligned(space.bytes, tramp, 0)
    requires |space.bytes| <= TWO32 && tramp + TRAMPOLINE_SIZE <= |space.bytes|
    requires CodeOffset(plan, |plan|) + SIZE_OF_JMP <= CODE_SIZE
    requires target + CODE_SIZE <= tramp || tramp + TRAMPOLINE_SIZE <= target
    modifies space
    ensures cbTarget == SourceOffset(plan, |plan|) && cbCode == CodeOffset(plan, |plan|)
    ensures MovedFirst(old(space.bytes), target, space.bytes, tramp, plan, |plan|) && Unaligned(space.bytes, tramp, |plan|)
  {
    hide Unaligned, Planned, Sized, CodeOffset, SourceOffset, MovedFirst, EndsFunction, DecodeAt, ReadAs, Placed, Emitted, Extra, Turned, AlignByte;
    ghost var code := space.bytes;
    var nAlign := 0;
    cbTarget, cbCode := 0, 0;
    NothingMoved(code, target, tramp, plan);
    PlanIsSized(code, target, plan);
    PlanStops(code, target, plan);
    while cbTarget < SIZE_OF_JMP
      invariant nAlign <= |plan|
      invariant cbTarget == SourceOffset(plan, nAlign) && cbCode == CodeOffset(plan, nAlign)
      invariant MovedFirst(code, target, space.bytes, tramp, plan, nAlign) && Unaligned(space.bytes, tramp, nAlign)
      invariant nAlign == |plan| ==> cbTarget >= SIZE_OF_JMP
      decreases |plan| - nAlign
    {
      var pbOp := target + cbTarget;
      PlannedTurn(code, target, space.bytes, tramp, plan, nAlign);
      ghost var m := space.bytes;
      cbTarget, cbCode := MoveInstruction(space, target, tramp, unset, cbTarget, cbCode, nAlign, code, plan[nAlign]);
      PlannedStep(code, target, m, tramp, plan, nAlign, space.bytes);
      SameEnd(code, space.bytes, pbOp, target, tramp, plan, nAlign);
      nAlign := nAlign + 1;
      if nAlign >= ALIGN_COUNT {
        break;
      }
      if EndsFunction(space.bytes, pbOp) {
        break;
      }
    }
  }

  lemma {:induction false} NothingMoved(code: Memory, target: nat, tramp: nat, plan: seq<Insn>)
    ensures MovedFirst(code, target, code, tramp, plan, 0)
    ensures SourceOffset(plan, 0) == 0 && CodeOffset(plan, 0) == 0
  {
  }

  // The loop's exits are the plan's end.
  lemma {:induction false} PlanStops(m: Memory, target: nat, plan: seq<Insn>)
    requires Planned(m, target, plan) && 0 < |plan|
    ensures |plan| < ALIGN_COUNT
    ensures forall k :: 0 <= k < |plan| ==> SourceOffset(plan, k) < SIZE_OF_JMP
    ensures forall k :: 0 <= k < |plan| - 1 ==> !EndsFunction(m, target + SourceOffset(plan, k))
    ensures SourceOffset(plan, |plan|) >= SIZE_OF_JMP || EndsFunction(m, target + SourceOffset(plan, |plan| - 1))
  {
    hide DecodeAt, ReadRight, EndsFunction, Movable, WellFormed, SourceOffset, CodeOffset;
    OffsetBounds(plan, |plan| - 1);
  }

  // The target is still readable.
  lemma {:induction false} SameEnd(code: Memory, m: Memory, a: nat, target: nat, tramp: nat, plan: seq<Insn>, n: nat)
    requires n < |plan| && MovedFirst(code, target, m, tramp, plan, n + 1)
    requires target <= a < target + SIZE_OF_JMP
    requires target + CODE_SIZE <= tramp || tramp + TRAMPOLINE_SIZE <= target
    ensures EndsFunction(m, a) == EndsFunction(code, a)
  {
    hide CopiedAt, AlignedAt;
    assert ByteAt(m, a) == ByteAt(code, a) && ByteAt(m, a + 1) == ByteAt(code, a + 1) && ByteAt(m, a + 2) == ByteAt(code, a + 2);
  }

  // What CopyInstruction needs for instruction n.
  lemma {:induction false} StepReady(code: Memory, target: nat, m: Memory, tramp: nat, plan: seq<Insn>, n: nat)
    requires Planned(code, target, plan) && n < |plan| && MovedFirst(code, target, m, tramp, plan, n)
    requires |code| <= TWO32 && tramp + TRAMPOLINE_SIZE <= |code|
    requires CodeOffset(plan, |plan|) + SIZE_OF_JMP <= CODE_SIZE
    requires target + CODE_SIZE <= tramp || tramp + TRAMPOLINE_SIZE <= target
    ensures Placed(m, code, tramp + CodeOffset(plan, n), target + SourceOffset(plan, n), plan[n])
    ensures Extra(plan[n], (tramp + CodeOffset(plan, n)) - (target + SourceOffset(plan, n))) == EmittedLength(plan[n]) - plan[n].length
  {
    hide Movable, Emitted, Extra, EmittedLength, WellFormed, EndsFunction, CopiedAt, AlignedAt, SourceOffset, CodeOffset, Planned, DecodeAt;
    PlannedAt(code, target, plan, n);
    MovableIsFaithful(plan[n], (tramp + CodeOffset(plan, n)) - (target + SourceOffset(plan, n)));
    NextOffset(plan, n);
    PlanIsSized(code, target, plan);
    Ordered(plan, n + 1, |plan|);
    OffsetBounds(plan, n + 1);
  }

  lemma {:induction false} PlanIsSized(m: Memory, target: nat, plan: seq<Insn>)
    requires Planned(m, target, plan)
    ensures Sized(plan)
  {
  }
}
