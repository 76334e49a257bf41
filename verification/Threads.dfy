/** The repair of suspended threads by a commit: those stopped in code that is being moved or removed. */
module Threads {
  import opened Words
  import opened IntelDecoder
  import opened Relocation
  import opened Meaning
  import opened Prologue
  import opened MovedCode
  import opened Simulation
  import opened Builder
  import opened Trampolines
  import opened Edits

  // The alignment array in a trampoline.
  function AlignArray(m: Memory, p: nat): (r: seq<Align>)
    requires p + TRAMPOLINE_SIZE <= |m|
    ensures |r| == ALIGN_COUNT
  {
    seq(ALIGN_COUNT, k requires 0 <= k < ALIGN_COUNT => AlignOf(m[p + R_ALIGN + k]))
  }

  // Where an operation sends a thread that is stopped at eip.
  function SentBy(m: Memory, o: Operation, eip: Word): Word
    requires o.pTrampoline + TRAMPOLINE_SIZE <= |m|
  {
    var p, t := o.pTrampoline, o.pbTarget;
    if o.fIsRemove then
      if p <= eip < p + TRAMPOLINE_SIZE then Wrap(t + FirstTrampoline(AlignArray(m, p), eip - p, 0)) else eip
    else
      if t <= eip < t + Saved(m, p) then Wrap(p + FirstTarget(AlignArray(m, p), eip - t, 0)) else eip
  }

  function SentByAll(m: Memory, ops: seq<Operation>, eip: Word): Word
    requires forall k :: 0 <= k < |ops| ==> ops[k].pTrampoline + TRAMPOLINE_SIZE <= |m|
    decreases |ops|
  {
    if ops == [] then eip else SentByAll(m, ops[1..], SentBy(m, ops[0], eip))
  }

  // The operation moves a thread that is stopped there.
  predicate Reaches(m: Memory, o: Operation, eip: Word)
    requires o.pTrampoline + TRAMPOLINE_SIZE <= |m|
  {
    if o.fIsRemove then o.pTrampoline <= eip < o.pTrampoline + TRAMPOLINE_SIZE
    else o.pbTarget <= eip < o.pbTarget + Saved(m, o.pTrampoline)
  }

  // The trampolines lie outside the program's memory, and the targets inside.
  ghost predicate Placed(m: Memory, mapped: set<nat>, live: set<nat>, ops: seq<Operation>)
  {
    && |m| == TWO32
    && (forall k :: 0 <= k < |ops| ==> ops[k].pTrampoline + TRAMPOLINE_SIZE <= |m|)
    && forall k :: 0 <= k < |ops| ==>
         OpOk(m, mapped, live, ops[k]) && RegionOf(ops[k].pTrampoline) !in mapped && IsSlot(RegionOf(ops[k].pTrampoline), ops[k].pTrampoline)
  }

  lemma {:induction false} SkipUnreached(m: Memory, ops: seq<Operation>, k: nat, eip: Word)
    requires (forall j :: 0 <= j < |ops| ==> ops[j].pTrampoline + TRAMPOLINE_SIZE <= |m|) && k <= |ops|
    requires forall j :: 0 <= j < k ==> !Reaches(m, ops[j], eip)
    ensures SentByAll(m, ops, eip) == SentByAll(m, ops[k..], eip)
    decreases k
  {
    hide FirstTarget, FirstTrampoline, AlignArray;
    if k == 0 {
      assert ops[0..] == ops;
    } else {
      SkipUnreached(m, ops[1..], k - 1, eip);
      assert ops[1..][k - 1..] == ops[k..];
    }
  }

  // Where a thread is sent: into the slot of an attachment, or close behind the target of a removal.
  lemma {:induction false} SentTo(m: Memory, mapped: set<nat>, live: set<nat>, ops: seq<Operation>, k: nat, eip: Word)
    requires Placed(m, mapped, live, ops) && k < |ops| && Reaches(m, ops[k], eip)
    ensures
      var o, e := ops[k], SentBy(m, ops[k], eip);
      if o.fIsRemove then o.pbTarget <= e < o.pbTarget + 8 && RegionOf(e) in mapped
      else o.pTrampoline <= e < o.pTrampoline + 32
  {
    hide U32At, FirstTarget, FirstTrampoline, AlignArray, IsSlot, RegionOf;
    var o := ops[k];
    assert OpOk(m, mapped, live, o);
    AlignArrayIsSmall(m, o.pTrampoline);
    if o.fIsRemove {
      FirstIsSmall(AlignArray(m, o.pTrampoline), 0, eip - o.pTrampoline, 0);
    } else {
      FirstIsSmall(AlignArray(m, o.pTrampoline), eip - o.pbTarget, 0, 0);
    }
  }

  lemma {:induction false} AlignArrayIsSmall(m: Memory, p: nat)
    requires p + TRAMPOLINE_SIZE <= |m|
    ensures forall j :: 0 <= j < ALIGN_COUNT ==> AlignArray(m, p)[j].obTrampoline < 32 && AlignArray(m, p)[j].obTarget < 8
  {
    forall j | 0 <= j < ALIGN_COUNT
      ensures AlignArray(m, p)[j].obTrampoline < 32 && AlignArray(m, p)[j].obTarget < 8
    {
      assert AlignArray(m, p)[j] == AlignOf(m[p + R_ALIGN + j]);
    }
  }

  // No removal reaches a thread in the program's memory, and no attachment one in a trampoline.
  lemma {:induction false} ReachesOwnKind(m: Memory, mapped: set<nat>, live: set<nat>, ops: seq<Operation>, j: nat, eip: Word)
    requires Placed(m, mapped, live, ops) && j < |ops|
    ensures RegionOf(eip) in mapped && ops[j].fIsRemove ==> !Reaches(m, ops[j], eip)
    ensures RegionOf(eip) !in mapped && !ops[j].fIsRemove ==> !Reaches(m, ops[j], eip)
  {
    hide U32At, IsSlot, RegionOf;
    var o := ops[j];
    assert OpOk(m, mapped, live, o);
    if o.pTrampoline <= eip < o.pTrampoline + TRAMPOLINE_SIZE {
      ByteOfSlot(o.pTrampoline, eip);
    }
  }

  /**
   What all operations together do to a thread that operation k, and no newer one, reaches. An attachment
   sends it to its trampoline, for good. From a trampoline that is removed it goes to the target, and on
   from there if and only if an older attachment takes the byte it is sent to; then that sends it to its own
   trampoline, for good.
   */
  lemma {:induction false} RepairIs(m: Memory, mapped: set<nat>, live: set<nat>, ops: seq<Operation>, k: nat, eip: Word)
    requires Placed(m, mapped, live, ops) && ReleasesOnce(ops, false) && k < |ops|
    requires Reaches(m, ops[k], eip) && forall j :: 0 <= j < k ==> !Reaches(m, ops[j], eip)
    ensures !ops[k].fIsRemove ==> SentByAll(m, ops, eip) == SentBy(m, ops[k], eip)
    ensures
      var e := SentBy(m, ops[k], eip);
      ops[k].fIsRemove ==>
        && (SentByAll(m, ops, eip) == e <==> forall j :: k < j < |ops| ==> !Reaches(m, ops[j], e))
        && forall j :: k < j < |ops| && Reaches(m, ops[j], e) && (forall i :: k < i < j ==> !Reaches(m, ops[i], e)) ==>
             !ops[j].fIsRemove && SentByAll(m, ops, eip) == SentBy(m, ops[j], e)
  {
    hide SentBy, Reaches, SentByAll, RegionOf, IsSlot, OpOk;
    SentOn(m, ops, k, eip);
    SentTo(m, mapped, live, ops, k, eip);
    var e := SentBy(m, ops[k], eip);
    if !ops[k].fIsRemove {
      AttachmentIsFinal(m, mapped, live, ops, k, eip);
    } else {
      forall j | k < j < |ops| && Reaches(m, ops[j], e) && forall i :: k < i < j ==> !Reaches(m, ops[i], e)
        ensures !ops[j].fIsRemove && SentByAll(m, ops, eip) == SentBy(m, ops[j], e) != e
      {
        ReachesOwnKind(m, mapped, live, ops, j, e);
        SkipFrom(m, ops, k + 1, j, e);
        AttachmentIsFinal(m, mapped, live, ops, j, e);
        SentOn(m, ops[j..], 0, e);
        SentTo(m, mapped, live, ops, j, e);
        InSlotIsUnmapped(m, mapped, live, ops, j, SentBy(m, ops[j], e));
      }
      if forall j :: k < j < |ops| ==> !Reaches(m, ops[j], e) {
        SkipFrom(m, ops, k + 1, |ops|, e);
        NothingSends(m, e);
        assert ops[|ops|..] == [];
      } else {
        var j := FirstReached(m, ops, k + 1, e);
        assert Reaches(m, ops[j], e);
      }
    }
  }

  lemma {:induction false} NothingSends(m: Memory, eip: Word)
    ensures SentByAll(m, [], eip) == eip
  {
  }

  lemma {:induction false} SentOn(m: Memory, ops: seq<Operation>, k: nat, eip: Word)
    requires (forall j :: 0 <= j < |ops| ==> ops[j].pTrampoline + TRAMPOLINE_SIZE <= |m|) && k < |ops|
    requires forall j :: 0 <= j < k ==> !Reaches(m, ops[j], eip)
    ensures SentByAll(m, ops, eip) == SentByAll(m, ops[k + 1..], SentBy(m, ops[k], eip))
  {
    hide Reaches, SentBy;
    SkipUnreached(m, ops, k, eip);
    assert ops[k..][0] == ops[k] && ops[k..][1..] == ops[k + 1..];
  }

  lemma {:induction false} SkipFrom(m: Memory, ops: seq<Operation>, k: nat, n: nat, eip: Word)
    requires (forall j :: 0 <= j < |ops| ==> ops[j].pTrampoline + TRAMPOLINE_SIZE <= |m|) && k <= n <= |ops|
    requires forall j :: k <= j < n ==> !Reaches(m, ops[j], eip)
    ensures SentByAll(m, ops[k..], eip) == SentByAll(m, ops[n..], eip)
  {
    hide Reaches, SentBy, SentByAll;
    var rest := ops[k..];
    assert forall j :: 0 <= j < n - k ==> rest[j] == ops[k + j];
    SkipUnreached(m, rest, n - k, eip);
    assert rest[n - k..] == ops[n..];
  }

  lemma {:induction false} FirstReached(m: Memory, ops: seq<Operation>, k: nat, eip: Word) returns (j: nat)
    requires (forall i :: 0 <= i < |ops| ==> ops[i].pTrampoline + TRAMPOLINE_SIZE <= |m|) && k <= |ops|
    requires exists i :: k <= i < |ops| && Reaches(m, ops[i], eip)
    ensures k <= j < |ops| && Reaches(m, ops[j], eip) && forall i :: k <= i < j ==> !Reaches(m, ops[i], eip)
    decreases |ops| - k
  {
    hide Reaches;
    if Reaches(m, ops[k], eip) {
      j := k;
    } else {
      j := FirstReached(m, ops, k + 1, eip);
    }
  }

  lemma {:induction false} InSlotIsUnmapped(m: Memory, mapped: set<nat>, live: set<nat>, ops: seq<Operation>, k: nat, e: Word)
    requires Placed(m, mapped, live, ops) && k < |ops| && ops[k].pTrampoline <= e < ops[k].pTrampoline + 32
    ensures RegionOf(e) !in mapped
  {
    hide OpOk, IsSlot, RegionOf;
    ByteOfSlot(ops[k].pTrampoline, e);
  }

  // No older operation moves a thread that an attachment has sent to its trampoline.
  lemma {:induction false} AttachmentIsFinal(m: Memory, mapped: set<nat>, live: set<nat>, ops: seq<Operation>, k: nat, eip: Word)
    requires Placed(m, mapped, live, ops) && ReleasesOnce(ops, false) && k < |ops| && !ops[k].fIsRemove && Reaches(m, ops[k], eip)
    ensures SentByAll(m, ops[k + 1..], SentBy(m, ops[k], eip)) == SentBy(m, ops[k], eip)
  {
    hide SentBy, SentByAll, RegionOf, IsSlot, OpOk;
    SentTo(m, mapped, live, ops, k, eip);
    var e := SentBy(m, ops[k], eip);
    InSlotIsUnmapped(m, mapped, live, ops, k, e);
    forall j | k + 1 <= j < |ops|
      ensures !Reaches(m, ops[j], e)
    {
      ReachesOwnKind(m, mapped, live, ops, j, e);
      DifferentSlots(ops[k].pTrampoline, ops[j].pTrampoline);
    }
    SkipFrom(m, ops, k + 1, |ops|, e);
    NothingSends(m, e);
    assert ops[|ops|..] == [];
  }

  lemma {:induction false} DifferentSlots(p: nat, q: nat)
    requires IsSlot(RegionOf(p), p) && IsSlot(RegionOf(q), q) && p != q
    ensures p + TRAMPOLINE_SIZE <= q || q + TRAMPOLINE_SIZE <= p
  {
    hide IsSlot;
    MaskFindsRegion(RegionOf(p), p);
    MaskFindsRegion(RegionOf(q), q);
    if RegionOf(p) == RegionOf(q) {
      SlotsApart(RegionOf(p), p, q);
    } else {
      RegionsApart(RegionOf(p), RegionOf(q));
    }
  }

  // The bytes that a thread may be taken from or sent to at the target.
  function Span(m: Memory, o: Operation): nat
    requires o.pTrampoline + TRAMPOLINE_SIZE <= |m|
  {
    if Saved(m, o.pTrampoline) < 8 then 8 else Saved(m, o.pTrampoline)
  }

  /** Of operations on separate targets and trampolines only the one whose range a thread is in moves it. */
  lemma {:induction false} SeparateRepairs(m: Memory, mapped: set<nat>, live: set<nat>, ops: seq<Operation>, k: nat, eip: Word)
    requires Placed(m, mapped, live, ops) && k < |ops| && Reaches(m, ops[k], eip)
    requires forall i, j :: 0 <= i < |ops| && 0 <= j < |ops| && i != j ==>
               ops[i].pTrampoline != ops[j].pTrampoline && Disjoint(ops[i].pbTarget, Span(m, ops[i]), ops[j].pbTarget, Span(m, ops[j]))
    ensures SentByAll(m, ops, eip) == SentBy(m, ops[k], eip)
  {
    hide SentBy, SentByAll, RegionOf, IsSlot, U32At;
    forall j | 0 <= j < |ops| && j != k
      ensures !Reaches(m, ops[j], eip)
    {
      OtherIsElsewhere(m, mapped, live, ops, k, j, eip);
    }
    SentTo(m, mapped, live, ops, k, eip);
    var e := SentBy(m, ops[k], eip);
    forall j | k < j < |ops|
      ensures ops[k].fIsRemove ==> !Reaches(m, ops[j], e)
    {
      ReachesOwnKind(m, mapped, live, ops, j, e);
    }
    RepairIs(m, mapped, live, ops, k, eip);
  }

  lemma {:induction false} OtherIsElsewhere(m: Memory, mapped: set<nat>, live: set<nat>, ops: seq<Operation>, k: nat, j: nat, eip: Word)
    requires Placed(m, mapped, live, ops) && k < |ops| && j < |ops| && j != k && Reaches(m, ops[k], eip)
    requires ops[k].pTrampoline != ops[j].pTrampoline && Disjoint(ops[k].pbTarget, Span(m, ops[k]), ops[j].pbTarget, Span(m, ops[j]))
    ensures !Reaches(m, ops[j], eip)
  {
    hide RegionOf, IsSlot, U32At;
    DifferentSlots(ops[k].pTrampoline, ops[j].pTrampoline);
    ReachesOwnKind(m, mapped, live, ops, j, eip);
    ReachesOwnKind(m, mapped, live, ops, k, eip);
  }

  /** The loop over the pending operations for one suspended thread. */
  method RepairThread(space: AddressSpace, operations: seq<Operation>, context: Word) returns (eip: Word)
    requires forall k :: 0 <= k < |operations| ==> operations[k].pTrampoline + TRAMPOLINE_SIZE <= |space.bytes|
    ensures eip == SentByAll(space.bytes, operations, context)
  {
    hide FirstTarget, FirstTrampoline, AlignArray;
    eip := context;
    var k := 0;
    while k < |operations|
      invariant k <= |operations|
      invariant SentByAll(space.bytes, operations[k..], eip) == SentByAll(space.bytes, operations, context)
    {
      var o := operations[k];
      assert operations[k..][0] == o && operations[k..][1..] == operations[k + 1..];
      var rAlign := AlignArray(space.bytes, o.pTrampoline);
      if o.fIsRemove {
        if o.pTrampoline <= eip < o.pTrampoline + TRAMPOLINE_SIZE {
          var ob := AlignFromTrampoline(rAlign, eip - o.pTrampoline);
          eip := Wrap(o.pbTarget + ob);
        }
      } else if o.pbTarget <= eip < o.pbTarget + Saved(space.bytes, o.pTrampoline) {
        var ob := AlignFromTarget(rAlign, eip - o.pbTarget);
        eip := Wrap(o.pTrampoline + ob);
      }
      k := k + 1;
    }
  }

  /** And for all of them. */
  method RepairThreads(space: AddressSpace, operations: seq<Operation>, contexts: seq<Word>) returns (eips: seq<Word>)
    requires forall k :: 0 <= k < |operations| ==> operations[k].pTrampoline + TRAMPOLINE_SIZE <= |space.bytes|
    ensures |eips| == |contexts| && forall i :: 0 <= i < |contexts| ==> eips[i] == SentByAll(space.bytes, operations, contexts[i])
  {
    hide SentByAll;
    eips := [];
    while |eips| < |contexts|
      invariant |eips| <= |contexts| && forall i :: 0 <= i < |eips| ==> eips[i] == SentByAll(space.bytes, operations, contexts[i])
    {
      var eip := RepairThread(space, operations, contexts[|eips|]);
      eips := eips + [eip];
    }
  }

  lemma {:induction false} AlignArrayIs(code: Memory, t: nat, m: Memory, p: nat, plan: seq<Insn>, detour: Word)
    requires Built(code, t, m, p, plan, detour) && p + TRAMPOLINE_SIZE <= |m|
    ensures AlignArray(m, p) == Alignment(plan)
    ensures Sized(plan) && 0 < |plan| && CodeOffset(plan, |plan|) + SIZE_OF_JMP <= CODE_SIZE
    ensures SourceOffset(plan, |plan|) <= Taken(code, t, plan) && Saved(m, p) == Taken(code, t, plan)
  {
    hide CodeOf, Alignment, Planned, CodeOffset, SourceOffset, Le32, Breaks, EmittedLength, U32At, FillerEnd;
    MovesFits(code, t, plan);
    PlanIsSized(code, t, plan);
    assert m[p + CB_RESTORE] == [Taken(code, t, plan)][0];
  }

  /**
   Attaching sends a thread that is stopped before instruction k of the prologue to instruction k of the
   trampoline, from where it goes on as it would have, in all cases but one: at the very first
   instruction the 3-bit field fails if the moved instructions are 8 or 16 bytes long.
   */
  lemma {:induction false} AttachMovesThreads<D>(cpu: Processor<D>, code: Memory, t: nat, m: Memory, p: nat, plan: seq<Insn>, detour: Word,
                                                 o: Operation, k: nat, d: D)
    requires Built(code, t, m, p, plan, detour) && p + TRAMPOLINE_SIZE <= |m| && k < |plan|
    requires o.pbTarget == t && o.pTrampoline == p && !o.fIsRemove
    ensures t + SourceOffset(plan, k) < TWO32
    ensures SentBy(m, o, t + SourceOffset(plan, k)) == p + CodeOffset(plan, k) <==> k > 0 || SourceOffset(plan, |plan|) % 8 != 0
    ensures PrologueAlike(cpu, code, m, t, plan, k, d, |plan|) ==> SameRun(cpu, code, t, m, p, plan, k, d, |plan|)
  {
    hide Built, CodeOf, PrologueAlike, AlignArray, Alignment, FirstTarget, SourceOffset, CodeOffset, SameRun, EmittedLength, Sized;
    AlignArrayIs(code, t, m, p, plan, detour);
    BuiltRuns(cpu, code, t, m, p, plan, detour, k, d);
    SourceOrdered(plan, k, |plan|);
    OffsetsIncrease(plan, k, |plan|);
    SmallFirst(plan, k);
    ThreadsLeaveTarget(plan, k);
  }

  // What the alignment array answers fits its five bits.
  lemma {:induction false} SmallFirst(plan: seq<Insn>, k: nat)
    requires k <= |plan|
    ensures FirstTarget(Alignment(plan), SourceOffset(plan, k), 0) < 32
    ensures FirstTrampoline(Alignment(plan), CodeOffset(plan, k), 0) < 8
  {
    hide Alignment, SourceOffset, CodeOffset;
    AlignmentIsSmall(plan);
    FirstIsSmall(Alignment(plan), SourceOffset(plan, k), CodeOffset(plan, k), 0);
  }

  lemma {:induction false} AlignmentIsSmall(plan: seq<Insn>)
    ensures forall j :: 0 <= j < ALIGN_COUNT ==> Alignment(plan)[j].obTrampoline < 32 && Alignment(plan)[j].obTarget < 8
  {
  }

  lemma {:induction false} FirstIsSmall(a: seq<Align>, x: nat, y: nat, n: nat)
    requires n <= |a| && forall j :: 0 <= j < |a| ==> a[j].obTrampoline < 32 && a[j].obTarget < 8
    ensures FirstTarget(a, x, n) < 32 && FirstTrampoline(a, y, n) < 8
    decreases |a| - n
  {
    if n < |a| {
      FirstIsSmall(a, x, y, n + 1);
    }
  }

  lemma {:induction false} BuiltRuns<D>(cpu: Processor<D>, code: Memory, t: nat, m: Memory, p: nat, plan: seq<Insn>, detour: Word, k: nat, d: D)
    requires Built(code, t, m, p, plan, detour) && p + TRAMPOLINE_SIZE <= |m| && k < |plan|
    ensures PrologueAlike(cpu, code, m, t, plan, k, d, |plan|) ==> SameRun(cpu, code, t, m, p, plan, k, d, |plan|)
    ensures t + Taken(code, t, plan) < TWO32 && p + CODE_SIZE + 32 <= TWO32
  {
    hide Planned, CodeOffset, SourceOffset, CopiedAt, SameRun, Recorded, Aligned, JumpBytes, EmittedLength, FillerEnd, Le32, Breaks, PrologueAlike;
    MovesFits(code, t, plan);
    if PrologueAlike(cpu, code, m, t, plan, k, d, |plan|) {
      MovedCodeSimulates(cpu, code, t, m, p, plan, k, d, |plan|);
    }
  }

  /**
   Detaching sends a thread that is stopped in the trampoline before its copy of instruction k, or for
   k == |plan| at the jump behind, back to where it belongs in the target; at that jump exactly if the
   moved instructions are at most 7 bytes long.
   */
  lemma {:induction false} DetachMovesThreads(code: Memory, t: nat, m: Memory, p: nat, plan: seq<Insn>, detour: Word, o: Operation, k: nat)
    requires Built(code, t, m, p, plan, detour) && p + TRAMPOLINE_SIZE <= |m| && k <= |plan| && |m| <= TWO32
    requires o.pbTarget == t && o.pTrampoline == p && o.fIsRemove
    ensures p + CodeOffset(plan, k) < TWO32
    ensures SentBy(m, o, p + CodeOffset(plan, k)) == t + SourceOffset(plan, k) <==> k < |plan| || SourceOffset(plan, |plan|) <= 7
  {
    hide Built, CodeOf, AlignArray, Alignment, FirstTrampoline, SourceOffset, CodeOffset, EmittedLength, Sized;
    AlignArrayIs(code, t, m, p, plan, detour);
    BuiltInMemory(code, t, m, p, plan, detour);
    Ordered(plan, k, |plan|);
    SourceOrdered(plan, k, |plan|);
    SmallFirst(plan, k);
    ThreadsLeaveTrampoline(plan, k);
  }

  lemma {:induction false} BuiltInMemory(code: Memory, t: nat, m: Memory, p: nat, plan: seq<Insn>, detour: Word)
    requires Built(code, t, m, p, plan, detour)
    ensures t + WINDOW <= TWO32 && Taken(code, t, plan) <= RESTORE_SIZE
  {
    hide Planned, CodeOffset, SourceOffset, CopiedAt, Recorded, Aligned, JumpBytes, EmittedLength, FillerEnd, Le32, Breaks;
    MovesFits(code, t, plan);
  }
}
