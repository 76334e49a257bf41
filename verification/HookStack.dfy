/** Hooks stacked on one target by successive transactions, and taken off again. */
module HookStack {
  import opened Words
  import opened IntelDecoder
  import opened Relocation
  import opened Meaning
  import opened Prologue
  import opened MovedCode
  import opened Simulation
  import opened Builder
  import opened Pages
  import opened RegionSearch
  import opened Trampolines
  import opened Targets
  import opened Edits
  import opened Transactions

  // The pointer cell, the trampoline and the detour of an attached hook, and the prologue it moved.
  datatype Hook = Hook(pointer: nat, tramp: nat, detour: Word, plan: seq<Insn>)

  // The hooks use different trampolines and pointer cells, and none of those is part of the target.
  ghost predicate Apart(t: nat, hooks: seq<Hook>)
  {
    && (forall k :: 0 <= k < |hooks| ==> ApartFrom(t, hooks[k]))
    && (forall j, k :: 0 <= j < k < |hooks| ==>
          && hooks[j].tramp != hooks[k].tramp
          && Disjoint(hooks[j].pointer, 4, hooks[k].pointer, 4))
    && (forall j, k :: 0 <= j < |hooks| && 0 <= k < |hooks| ==> Disjoint(hooks[j].tramp, TRAMPOLINE_SIZE, hooks[k].pointer, 4))
  }

  ghost predicate ApartFrom(t: nat, h: Hook)
  {
    && Disjoint(t, WINDOW, h.tramp, TRAMPOLINE_SIZE)
    && Disjoint(t, WINDOW, h.pointer, 4)
  }

  // The bytes under the hook h.
  function Beneath(m: Memory, h: Hook): (s: seq<Byte>)
    requires h.tramp + TRAMPOLINE_SIZE <= |m| && Saved(m, h.tramp) <= RESTORE_SIZE
    ensures |s| == Saved(m, h.tramp)
  {
    m[h.tramp + RB_RESTORE..h.tramp + RB_RESTORE + Saved(m, h.tramp)]
  }

  // The memory with the hook's saved bytes put back.
  ghost function Uncovered(m: Memory, t: nat, h: Hook): (r: Memory)
    requires h.tramp + TRAMPOLINE_SIZE <= |m| && Saved(m, h.tramp) <= RESTORE_SIZE && t + WINDOW <= |m|
    ensures |r| == |m|
  {
    Written(m, t, Beneath(m, h))
  }

  // The hook is in place on top: the target jumps to its detour, its pointer to its trampoline, and that
  // is finished for the code beneath.
  ghost predicate OnTop(m: Memory, t: nat, h: Hook)
  {
    && h.tramp + TRAMPOLINE_SIZE <= |m| && SIZE_OF_JMP <= Saved(m, h.tramp) <= RESTORE_SIZE && t + WINDOW <= |m|
    && h.pointer + 4 <= |m| && U32At(m, h.pointer) == h.tramp
    && Holds(m, t, JumpBytes(t, h.detour) + Breaks(Saved(m, h.tramp) - SIZE_OF_JMP))
    && Built(Uncovered(m, t, h), t, m, h.tramp, h.plan, h.detour)
  }

  // The hooks on t, oldest first, over the target's original code.
  ghost predicate Stacked(m: Memory, t: nat, hooks: seq<Hook>, original: Memory)
    decreases |hooks|
  {
    if hooks == [] then SameWindow(original, m, t)
    else
      var n := |hooks| - 1;
      OnTop(m, t, hooks[n]) && Stacked(Uncovered(m, t, hooks[n]), t, hooks[..n], original)
  }

  // What the stack consists of reads the same.
  ghost predicate SameStack(m: Memory, m': Memory, t: nat, hooks: seq<Hook>)
  {
    && |m| == |m'| && SameWindow(m, m', t)
    && forall k :: 0 <= k < |hooks| ==> SameHook(m, m', hooks[k])
  }

  ghost predicate SameHook(m: Memory, m': Memory, h: Hook)
  {
    && |m| == |m'|
    && SameSlot(m, m', h.tramp)
    && (forall a :: h.pointer <= a < h.pointer + 4 && a < |m| ==> m'[a] == m[a])
  }

  lemma {:induction false} OnTopKept(m: Memory, m': Memory, t: nat, h: Hook)
    requires OnTop(m, t, h) && SameWindow(m, m', t) && SameHook(m, m', h) && ApartFrom(t, h)
    ensures OnTop(m', t, h) && Beneath(m', h) == Beneath(m, h)
  {
    hide U32At, JumpBytes, Breaks, Built;
    U32Kept(m, m', h.pointer);
    assert Beneath(m', h) == Beneath(m, h);
    var code, code' := Uncovered(m, t, h), Uncovered(m', t, h);
    BuiltIsLocal(code, code', t, m, h.tramp, h.plan, h.detour);
    BuiltKept(code', t, m, m', h.tramp, h.plan, h.detour);
  }

  // Uncovering the top hook leaves the hooks under it alone.
  lemma {:induction false} UncoveredIsSame(m: Memory, t: nat, h: Hook, hooks: seq<Hook>)
    requires OnTop(m, t, h) && forall k :: 0 <= k < |hooks| ==> ApartFrom(t, hooks[k])
    ensures forall k :: 0 <= k < |hooks| ==> SameHook(m, Uncovered(m, t, h), hooks[k])
  {
    hide U32At, JumpBytes, Breaks, Built;
    forall k | 0 <= k < |hooks|
      ensures SameHook(m, Uncovered(m, t, h), hooks[k])
    {
      assert ApartFrom(t, hooks[k]);
    }
  }

  lemma {:induction false} StackKept(m: Memory, m': Memory, t: nat, hooks: seq<Hook>, original: Memory)
    requires Stacked(m, t, hooks, original) && SameStack(m, m', t, hooks)
    requires forall k :: 0 <= k < |hooks| ==> ApartFrom(t, hooks[k])
    ensures Stacked(m', t, hooks, original)
    decreases |hooks|
  {
    hide OnTop, U32At, ApartFrom;
    if hooks != [] {
      var n := |hooks| - 1;
      var h := hooks[n];
      OnTopKept(m, m', t, h);
      OnTopBounds(m, t, h);
      OnTopBounds(m', t, h);
      var u, u' := Uncovered(m, t, h), Uncovered(m', t, h);
      UncoveredIsSame(m, t, h, hooks[..n]);
      UncoveredIsSame(m', t, h, hooks[..n]);
      forall k | 0 <= k < n
        ensures SameHook(u, u', hooks[..n][k])
      {
        assert SameHook(m, m', hooks[k]) && SameHook(m, u, hooks[..n][k]) && SameHook(m', u', hooks[..n][k]);
      }
      StackKept(u, u', t, hooks[..n], original);
    }
  }

  lemma {:induction false} OnTopBounds(m: Memory, t: nat, h: Hook)
    requires OnTop(m, t, h)
    ensures h.tramp + TRAMPOLINE_SIZE <= |m| && SIZE_OF_JMP <= Saved(m, h.tramp) <= RESTORE_SIZE && t + WINDOW <= |m|
    ensures h.pointer + 4 <= |m| && U32At(m, h.pointer) == h.tramp
  {
  }

  // The hooks' trampolines are in use; the target and the pointers belong to the program.
  ghost predicate Owned(mapped: set<nat>, live: set<nat>, t: nat, hooks: seq<Hook>)
  {
    && MappedRange(mapped, t, WINDOW)
    && forall k :: 0 <= k < |hooks| ==> hooks[k].tramp in live && 0 < hooks[k].pointer && MappedRange(mapped, hooks[k].pointer, 4)
  }

  // A commit of one operation, as the program's memory and the trampolines in use see it.
  ghost predicate CommitsOne(m: Memory, m': Memory, mapped: set<nat>, live: set<nat>, o: Operation)
  {
    Editable(m, o) && SameMapped(Committed(m, [o]), m', mapped) && SameSlots(m, m', live)
  }

  lemma {:induction false} CommittedOne(m: Memory, o: Operation)
    requires Editable(m, o)
    ensures AllEditable(m, [o])
    ensures Committed(m, [o]) == Written(Written(m, o.pbTarget, TargetBytes(m, o)), o.ppbPointer, PointerBytes(o))
  {
    hide TargetBytes, PointerBytes, EditsOf, Edited;
    CommittedNext(m, [o], 0);
    assert [o][..0] == [] && [o][..1] == [o];
    NothingCommitted(m);
  }

  // A pointer cell that the commit does not write.
  lemma {:induction false} CellKept(m: Memory, m': Memory, mapped: set<nat>, live: set<nat>, o: Operation, a: nat)
    requires CommitsOne(m, m', mapped, live, o) && MappedRange(mapped, a, 4) && a + 4 <= |m|
    requires Disjoint(o.pbTarget, WINDOW, a, 4) && Disjoint(o.ppbPointer, 4, a, 4)
    ensures |m'| == |m| && forall k :: a <= k < a + 4 ==> m'[k] == m[k]
  {
    hide TargetBytes, PointerBytes, RegionOf, U32At, Committed;
    CommittedOne(m, o);
  }

  // What the commit writes at the target and at the pointer.
  lemma {:induction false} CommitWrites(m: Memory, m': Memory, mapped: set<nat>, live: set<nat>, o: Operation)
    requires CommitsOne(m, m', mapped, live, o)
    requires MappedRange(mapped, o.pbTarget, WINDOW) && MappedRange(mapped, o.ppbPointer, 4)
    requires Disjoint(o.pbTarget, WINDOW, o.ppbPointer, 4)
    ensures SameWindow(Written(m, o.pbTarget, TargetBytes(m, o)), m', o.pbTarget)
    ensures Holds(m', o.pbTarget, TargetBytes(m, o))
    ensures U32At(m', o.ppbPointer) == if o.fIsRemove then o.pbTarget else o.pTrampoline
  {
    hide TargetBytes, RegionOf, U32At, Le32, Committed;
    CommittedOne(m, o);
    assert Holds(m', o.ppbPointer, PointerBytes(o));
    Holds32(m', o.ppbPointer, if o.fIsRemove then o.pbTarget else o.pTrampoline);
  }

  // The memory m1 in which the trampoline was finished, and m2 after the commit.
  lemma {:induction false} HookAdded(m: Memory, m1: Memory, m2: Memory, mapped: set<nat>, live: set<nat>, t: nat, hooks: seq<Hook>,
                                     original: Memory, h: Hook, o: Operation)
    requires |m| == TWO32 && Stacked(m, t, hooks, original) && Apart(t, hooks + [h]) && Owned(mapped, live, t, hooks)
    requires Built(m, t, m1, h.tramp, h.plan, h.detour) && SameMapped(m, m1, mapped) && SameSlots(m, m1, live)
    requires 0 < t && h.tramp + TRAMPOLINE_SIZE <= |m| && MappedRange(mapped, h.pointer, 4)
    requires o.ppbPointer == h.pointer && o.pbTarget == t && o.pTrampoline == h.tramp && !o.fIsRemove
    requires CommitsOne(m1, m2, mapped, live + {h.tramp}, o)
    ensures Stacked(m2, t, hooks + [h], original)
  {
    hide RegionOf, U32At, JumpBytes, Breaks, Built, Stacked, Written, OnTop, CommitsOne, MappedRange;
    var all := hooks + [h];
    assert all[|hooks|] == h && all[..|hooks|] == hooks;
    NewOnTop(m, m1, m2, mapped, live, t, h, o);
    OnTopBounds(m2, t, h);
    var u := Uncovered(m2, t, h);
    forall k | 0 <= k < |hooks|
      ensures SameHook(m, u, hooks[k]) && ApartFrom(t, hooks[k])
    {
      assert all[k] == hooks[k] && ApartFrom(t, all[k]);
      StackHookCell(m, t, hooks, original, k);
      NewLeavesHook(m, m1, m2, mapped, live, t, h, o, hooks[k]);
    }
    StackKept(m, u, t, hooks, original);
    StackMore(m2, t, all, original);
  }

  lemma {:induction false} StackMore(m: Memory, t: nat, hooks: seq<Hook>, original: Memory)
    requires hooks != [] && OnTop(m, t, hooks[|hooks| - 1])
    requires Stacked(Uncovered(m, t, hooks[|hooks| - 1]), t, hooks[..|hooks| - 1], original)
    ensures Stacked(m, t, hooks, original)
  {
    hide OnTop, Uncovered;
  }

  // A stacked hook's pointer cell and trampoline lie in memory.
  lemma {:induction false} StackHookCell(m: Memory, t: nat, hooks: seq<Hook>, original: Memory, k: nat)
    requires Stacked(m, t, hooks, original) && k < |hooks|
    ensures hooks[k].pointer + 4 <= |m| && hooks[k].tramp + TRAMPOLINE_SIZE <= |m|
    decreases |hooks|
  {
    hide OnTop, U32At;
    var n := |hooks| - 1;
    OnTopBounds(m, t, hooks[n]);
    if k < n {
      StackHookCell(Uncovered(m, t, hooks[n]), t, hooks[..n], original, k);
    }
  }

  lemma {:induction false} NewOnTop(m: Memory, m1: Memory, m2: Memory, mapped: set<nat>, live: set<nat>, t: nat, h: Hook, o: Operation)
    requires |m| == TWO32 && MappedRange(mapped, t, WINDOW) && ApartFrom(t, h)
    requires Built(m, t, m1, h.tramp, h.plan, h.detour) && SameMapped(m, m1, mapped)
    requires 0 < t && h.tramp + TRAMPOLINE_SIZE <= |m| && MappedRange(mapped, h.pointer, 4)
    requires o.ppbPointer == h.pointer && o.pbTarget == t && o.pTrampoline == h.tramp && !o.fIsRemove
    requires CommitsOne(m1, m2, mapped, live + {h.tramp}, o)
    ensures OnTop(m2, t, h) && SameWindow(m, Uncovered(m2, t, h), t)
  {
    hide RegionOf, U32At, JumpBytes, Breaks, Built, MappedRange, Committed, SameWindow, Uncovered, TargetBytes, Holds, Remembers;
    MappedIsSameWindow(m, m1, mapped, t);
    BuiltRemembers(m, t, m1, h.tramp, h.plan, h.detour, mapped);
    CommitWrites(m1, m2, mapped, live + {h.tramp}, o);
    assert SameSlot(m1, m2, h.tramp);
    RememberedKept(m1, m2, mapped, h.tramp);
    NewJump(m1, t, h, o);
    NewCovers(m, m1, m2, t, h, o);
    var u := Uncovered(m2, t, h);
    BuiltIsLocal(m, u, t, m1, h.tramp, h.plan, h.detour);
    BuiltKept(u, t, m1, m2, h.tramp, h.plan, h.detour);
  }

  // What the commit writes at the target.
  lemma {:induction false} NewJump(m: Memory, t: nat, h: Hook, o: Operation)
    requires Editable(m, o) && o.pbTarget == t && o.pTrampoline == h.tramp && !o.fIsRemove
    requires U32At(m, h.tramp + PB_DETOUR) == h.detour
    ensures TargetBytes(m, o) == JumpBytes(t, h.detour) + Breaks(Saved(m, h.tramp) - SIZE_OF_JMP)
  {
    hide JumpBytes, Breaks, U32At;
  }

  // Under the new jump lies what was there before.
  lemma {:induction false} NewCovers(m: Memory, m1: Memory, m2: Memory, t: nat, h: Hook, o: Operation)
    requires h.tramp + TRAMPOLINE_SIZE <= |m| == |m1| == |m2| && t + WINDOW <= |m| && SameWindow(m, m1, t) && SameSlot(m1, m2, h.tramp)
    requires Saved(m2, h.tramp) == Saved(m1, h.tramp) <= RESTORE_SIZE
    requires Holds(m1, h.tramp + RB_RESTORE, m[t..t + Saved(m1, h.tramp)])
    requires o.pbTarget == t && Editable(m1, o) && |TargetBytes(m1, o)| == Saved(m1, h.tramp)
    requires SameWindow(Written(m1, t, TargetBytes(m1, o)), m2, t)
    ensures SameWindow(m, Uncovered(m2, t, h), t)
  {
    hide U32At, TargetBytes, Editable;
    assert Beneath(m2, h) == m[t..t + Saved(m2, h.tramp)];
  }

  lemma {:induction false} NewLeavesHook(m: Memory, m1: Memory, m2: Memory, mapped: set<nat>, live: set<nat>, t: nat, h: Hook, o: Operation,
                                         g: Hook)
    requires |m| == TWO32 && OnTop(m2, t, h) && SameMapped(m, m1, mapped) && SameSlots(m, m1, live)
    requires o.ppbPointer == h.pointer && o.pbTarget == t && CommitsOne(m1, m2, mapped, live + {h.tramp}, o)
    requires g.tramp in live && MappedRange(mapped, g.pointer, 4) && g.pointer + 4 <= |m|
    requires ApartFrom(t, g) && Disjoint(g.pointer, 4, h.pointer, 4)
    ensures SameHook(m, Uncovered(m2, t, h), g)
  {
    hide RegionOf, U32At, JumpBytes, Breaks, Built, Committed;
    CellKept(m1, m2, mapped, live + {h.tramp}, o, g.pointer);
    assert SameSlot(m, m1, g.tramp) && SameSlot(m1, m2, g.tramp);
  }

  lemma {:induction false} HookRemoved(m: Memory, m': Memory, mapped: set<nat>, live: set<nat>, t: nat, hooks: seq<Hook>, original: Memory,
                                       h: Hook, o: Operation)
    requires |m| == TWO32 && Stacked(m, t, hooks + [h], original) && Apart(t, hooks + [h]) && Owned(mapped, live, t, hooks)
    requires MappedRange(mapped, h.pointer, 4)
    requires o.ppbPointer == h.pointer && o.pbTarget == t && o.pTrampoline == h.tramp && o.fIsRemove
    requires CommitsOne(m, m', mapped, live, o)
    ensures Stacked(m', t, hooks, original) && U32At(m', h.pointer) == t
  {
    hide RegionOf, U32At, JumpBytes, Breaks, Built, OnTop, CommitsOne, MappedRange;
    var all := hooks + [h];
    assert all[|hooks|] == h && all[..|hooks|] == hooks;
    assert ApartFrom(t, all[|hooks|]);
    OnTopBounds(m, t, h);
    var u := Uncovered(m, t, h);
    OldWindow(m, m', mapped, live, t, h, o);
    forall k | 0 <= k < |hooks|
      ensures SameHook(u, m', hooks[k]) && ApartFrom(t, hooks[k])
    {
      assert all[k] == hooks[k] && ApartFrom(t, all[k]);
      StackHookCell(m, t, all, original, k);
      OldLeavesHook(m, m', mapped, live, t, h, o, hooks[k]);
    }
    StackKept(u, m', t, hooks, original);
  }

  lemma {:induction false} OldWindow(m: Memory, m': Memory, mapped: set<nat>, live: set<nat>, t: nat, h: Hook, o: Operation)
    requires |m| == TWO32 && OnTop(m, t, h) && MappedRange(mapped, t, WINDOW) && MappedRange(mapped, h.pointer, 4) && ApartFrom(t, h)
    requires o.ppbPointer == h.pointer && o.pbTarget == t && o.pTrampoline == h.tramp && o.fIsRemove
    requires CommitsOne(m, m', mapped, live, o)
    ensures SameWindow(Uncovered(m, t, h), m', t) && U32At(m', h.pointer) == t
  {
    hide RegionOf, U32At, JumpBytes, Breaks, Built, MappedRange, CommitsOne, Written;
    EditableOne(m, m', mapped, live, o);
    CommitWrites(m, m', mapped, live, o);
    assert TargetBytes(m, o) == Beneath(m, h);
  }

  lemma {:induction false} EditableOne(m: Memory, m': Memory, mapped: set<nat>, live: set<nat>, o: Operation)
    requires CommitsOne(m, m', mapped, live, o)
    ensures Editable(m, o)
  {
  }

  lemma {:induction false} OldLeavesHook(m: Memory, m': Memory, mapped: set<nat>, live: set<nat>, t: nat, h: Hook, o: Operation, g: Hook)
    requires |m| == TWO32 && OnTop(m, t, h) && o.ppbPointer == h.pointer && o.pbTarget == t && CommitsOne(m, m', mapped, live, o)
    requires g.tramp in live && MappedRange(mapped, g.pointer, 4) && g.pointer + 4 <= |m|
    requires ApartFrom(t, g) && Disjoint(g.pointer, 4, h.pointer, 4)
    ensures SameHook(Uncovered(m, t, h), m', g)
  {
    hide RegionOf, U32At, JumpBytes, Breaks, Built, Committed;
    CellKept(m, m', mapped, live, o, g.pointer);
    assert SameSlot(m, m', g.tramp);
  }

  // A trampoline made from a jump jumps to the same place.
  // A jump acts the same in any memory.
  lemma {:induction false} JumpIsAlike<D>(cpu: Processor<D>, code: Memory, m: Memory, t: nat, to: Word, limit: nat, d: D, fuel: nat)
    requires Holds(code, t, JumpBytes(t, to))
    ensures AlikeRun(cpu, code, m, t, d, limit, fuel)
  {
    hide Execute, DecodeAt, JumpBytes, Holds;
    JumpGoes(cpu, code, t, to, d);
  }

  lemma {:induction false} MovedJumpGoes<D>(cpu: Processor<D>, code: Memory, t: nat, m: Memory, tramp: nat, plan: seq<Insn>, cb: nat,
                                            to: Word, d: D)
    requires CodeOf(code, t, m, tramp, plan, cb) && Holds(code, t, JumpBytes(t, to))
    ensures tramp < TWO32 && Steps(cpu, m, tramp, d, 1) == Some((to, d))
  {
    hide Execute, Steps, Planned, CopiedAt, CodeOffset, FillerEnd, JumpBytes, Holds, NeverFallsThrough, DecodeAt, SourceOffset, AlikeRun;
    StartsInMemory(code, t, m, tramp, plan, cb);
    PlanStarts(code, t, tramp, plan);
    JumpIsAlike(cpu, code, m, t, to, t + SourceOffset(plan, |plan|), d, |plan|);
    TrampolineIsPrologue(cpu, code, t, m, tramp, plan, cb, d);
    JumpGoes(cpu, code, t, to, d);
    PlanIsSized(code, t, plan);
    OffsetsIncrease(plan, 0, |plan|);
    WordWraps(to);
  }

  // What the k-th hook's trampoline stands for: the jump to the hook below it, or the original code.
  lemma {:induction false} HookBelow(m: Memory, t: nat, hooks: seq<Hook>, original: Memory, k: nat) returns (code: Memory)
    requires Stacked(m, t, hooks, original) && k < |hooks| && forall j :: 0 <= j < |hooks| ==> ApartFrom(t, hooks[j])
    ensures Built(code, t, m, hooks[k].tramp, hooks[k].plan, hooks[k].detour)
    ensures if k > 0 then Holds(code, t, JumpBytes(t, hooks[k - 1].detour)) else SameWindow(original, code, t)
    decreases |hooks|
  {
    hide OnTop, U32At, Built, JumpBytes;
    var n := |hooks| - 1;
    var h := hooks[n];
    OnTopBounds(m, t, h);
    var u := Uncovered(m, t, h);
    if k == n {
      code := u;
      TopIsBuilt(m, t, h);
      if n > 0 {
        TopIsBuilt(u, t, hooks[..n][n - 1]);
      }
    } else {
      code := HookBelow(u, t, hooks[..n], original, k);
      assert hooks[..n][k] == hooks[k] && (k > 0 ==> hooks[..n][k - 1] == hooks[k - 1]) && ApartFrom(t, hooks[k]);
      BuiltKept(code, t, u, m, hooks[k].tramp, hooks[k].plan, hooks[k].detour);
    }
  }

  lemma {:induction false} TopIsBuilt(m: Memory, t: nat, h: Hook)
    requires OnTop(m, t, h)
    ensures h.tramp + TRAMPOLINE_SIZE <= |m| && Saved(m, h.tramp) <= RESTORE_SIZE && t + WINDOW <= |m|
    ensures Built(Uncovered(m, t, h), t, m, h.tramp, h.plan, h.detour)
    ensures Holds(m, t, JumpBytes(t, h.detour))
  {
    hide Built, JumpBytes, Breaks, U32At;
    HoldsBoth(m, t, JumpBytes(t, h.detour), Breaks(Saved(m, h.tramp) - SIZE_OF_JMP));
  }

  lemma {:induction false} PointersHoldTrampolines(m: Memory, t: nat, hooks: seq<Hook>, original: Memory, k: nat)
    requires Stacked(m, t, hooks, original) && k < |hooks| && forall j :: 0 <= j < |hooks| ==> ApartFrom(t, hooks[j])
    ensures hooks[k].pointer + 4 <= |m| && U32At(m, hooks[k].pointer) == hooks[k].tramp
    decreases |hooks|
  {
    hide OnTop, U32At;
    var n := |hooks| - 1;
    OnTopBounds(m, t, hooks[n]);
    if k < n {
      var u := Uncovered(m, t, hooks[n]);
      PointersHoldTrampolines(u, t, hooks[..n], original, k);
      assert ApartFrom(t, hooks[k]);
      U32Kept(u, m, hooks[k].pointer);
    }
  }

  /**
   Control reaches the detours in reverse order of attachment: a call of the target enters the detour
   attached last, and a call through a hook's pointer enters the one attached before it.
   */
  lemma {:induction false} DetoursRunNewestFirst<D>(cpu: Processor<D>, m: Memory, t: nat, hooks: seq<Hook>, original: Memory, k: nat, d: D)
    requires Stacked(m, t, hooks, original) && Apart(t, hooks) && k < |hooks| && |m| <= TWO32
    ensures t < TWO32 && Steps(cpu, m, t, d, 1) == Some((hooks[|hooks| - 1].detour, d))
    ensures hooks[k].pointer + 4 <= |m| && U32At(m, hooks[k].pointer) == hooks[k].tramp < TWO32
    ensures k > 0 ==> Steps(cpu, m, hooks[k].tramp, d, 1) == Some((hooks[k - 1].detour, d))
  {
    hide OnTop, U32At, Built, JumpBytes, Execute, Steps;
    var h := hooks[|hooks| - 1];
    TopIsBuilt(m, t, h);
    JumpGoes(cpu, m, t, h.detour, d);
    OneStep(cpu, m, t, d);
    WordWraps(h.detour);
    PointersHoldTrampolines(m, t, hooks, original, k);
    var code := HookBelow(m, t, hooks, original, k);
    if k > 0 {
      BuiltIsCode(code, t, m, hooks[k].tramp, hooks[k].plan, hooks[k].detour);
      MovedJumpGoes(cpu, code, t, m, hooks[k].tramp, hooks[k].plan, Taken(code, t, hooks[k].plan), hooks[k - 1].detour, d);
    }
  }

  lemma {:induction false} BuiltIsCode(code: Memory, t: nat, m: Memory, tramp: nat, plan: seq<Insn>, detour: Word)
    requires Built(code, t, m, tramp, plan, detour)
    ensures CodeOf(code, t, m, tramp, plan, Taken(code, t, plan))
  {
  }

  /**
   And then the original code: a call through the oldest hook's pointer runs, step for step, what a call
   of the target ran before any hook, as long as that stays in code the hooked program has unchanged and
   what it executes acts the same.
   */
  lemma {:induction false} OldestRunsOriginal<D>(cpu: Processor<D>, m: Memory, t: nat, hooks: seq<Hook>, original: Memory, d: D, n: nat)
    requires Stacked(m, t, hooks, original) && Apart(t, hooks) && hooks != [] && t < TWO32 && hooks[0].tramp < TWO32
    requires PrologueAlike(cpu, original, m, t, hooks[0].plan, 0, d, |hooks[0].plan|)
    requires
      var x := PrologueExit(cpu, original, t, hooks[0].plan, d);
      x.Some? ==> Untouched(cpu, original, m, x.value.eip, x.value.data, n)
    ensures PrologueExit(cpu, original, t, hooks[0].plan, d).Some?
    ensures
      var x := PrologueExit(cpu, original, t, hooks[0].plan, d).value;
      Steps(cpu, m, hooks[0].tramp, d, |x.events| + (if x.away then 0 else 1) + n) == Steps(cpu, original, t, d, |x.events| + n)
  {
    hide Stacked, Built, Execute, Steps, Untouched, PrologueExit, PrologueAlike, CodeOf;
    var code := HookBelow(m, t, hooks, original, 0);
    BuiltIsLocal(code, original, t, m, hooks[0].tramp, hooks[0].plan, hooks[0].detour);
    BuiltIsCode(original, t, m, hooks[0].tramp, hooks[0].plan, hooks[0].detour);
    TrampolineIsOriginal(cpu, original, t, m, hooks[0].tramp, hooks[0].plan, Taken(original, t, hooks[0].plan), d, n);
  }

  /**
   The exception: where the original calls t itself, the hooked program runs the newest detour, and goes on
   as the original does if and only if the detour has the effect that the original target had.
   */
  lemma {:induction false} RecursionRunsNewest<D>(cpu: Processor<D>, m: Memory, t: nat, hooks: seq<Hook>, original: Memory, a: nat, d: D)
    requires Stacked(m, t, hooks, original) && hooks != [] && t < TWO32 && FollowsJump(cpu, m, t, d)
    requires DecodeAt(original, a).Some? && DecodeAt(original, a).value.control.Relative?
    requires DecodeAt(original, a).value.control.flow.Call? && Target(DecodeAt(original, a).value, a) == t
    ensures AlikeAt(cpu, original, m, a, d) <==> cpu.call(m, hooks[|hooks| - 1].detour, d) == cpu.call(original, t, d)
  {
    hide OnTop, Decode, DecodeAt, Target, JumpBytes, Built;
    TopIsBuilt(m, t, hooks[|hooks| - 1]);
    RecursionRunsDetour(cpu, original, m, a, t, hooks[|hooks| - 1].detour, d);
  }

  // The state of the program and the hooks on t, with no transaction pending.
  ghost predicate Holding(d: Detours, t: nat, hooks: seq<Hook>, original: Memory)
    reads d, d.space, d.pages, d.heap
  {
    && d.Valid() && d.pendingThread == 0
    && REGION_SIZE <= t < TWO32 && Apart(t, hooks) && Owned(d.mapped, d.heap.live, t, hooks)
    && Stacked(d.space.bytes, t, hooks, original)
  }

  // A pointer cell that can be used for one more hook on t.
  ghost predicate NewCell(d: Detours, t: nat, hooks: seq<Hook>, pointer: nat)
    reads d
  {
    && 0 < pointer && MappedRange(d.mapped, pointer, 4) && Disjoint(t, WINDOW, pointer, 4)
    && forall k :: 0 <= k < |hooks| ==> Disjoint(hooks[k].pointer, 4, pointer, 4)
  }

  // Of the program's memory only the target and the pointer cell were written.
  ghost predicate OnlyTargetAndCell(m: Memory, m': Memory, mapped: set<nat>, t: nat, pointer: nat)
  {
    && |m| == |m'|
    && forall a :: 0 <= a < |m| && RegionOf(a) in mapped && !(t <= a < t + WINDOW) && !(pointer <= a < pointer + 4) ==> m'[a] == m[a]
  }

  lemma {:induction false} OneCommitWrites(m: Memory, m1: Memory, m2: Memory, mapped: set<nat>, live: set<nat>, o: Operation)
    requires SameMapped(m, m1, mapped) && CommitsOne(m1, m2, mapped, live, o)
    ensures OnlyTargetAndCell(m, m2, mapped, o.pbTarget, o.ppbPointer)
  {
    hide TargetBytes, PointerBytes, RegionOf, U32At, Committed;
    CommittedOne(m1, o);
  }

  // One more hook keeps the hooks apart.
  lemma {:induction false} ApartMore(m: Memory, pRegions: Word, regions: seq<nat>, free: map<nat, seq<nat>>, live: set<nat>, mapped: set<nat>,
                                     t: nat, hooks: seq<Hook>, h: Hook)
    requires Managed(m, pRegions, regions, free, live) && forall b :: b in regions ==> b !in mapped
    requires Apart(t, hooks) && Owned(mapped, live, t, hooks) && h.tramp in live
    requires forall k :: 0 <= k < |hooks| ==> hooks[k].tramp != h.tramp && Disjoint(hooks[k].pointer, 4, h.pointer, 4)
    requires 0 < h.pointer && MappedRange(mapped, h.pointer, 4) && Disjoint(t, WINDOW, h.pointer, 4)
    ensures Apart(t, hooks + [h]) && Owned(mapped, live, t, hooks + [h])
  {
    hide Managed, MappedRange, RegionOf, IsSlot;
    LiveAreSlots(m, pRegions, regions, free, live);
    var all := hooks + [h];
    forall k | 0 <= k < |all|
      ensures ApartFrom(t, all[k]) && all[k].tramp in live && 0 < all[k].pointer && MappedRange(mapped, all[k].pointer, 4)
    {
      SlotIsNotMapped(mapped, all[k].tramp, t, WINDOW);
    }
    forall j, k | 0 <= j < |all| && 0 <= k < |all|
      ensures Disjoint(all[j].tramp, TRAMPOLINE_SIZE, all[k].pointer, 4)
    {
      SlotIsNotMapped(mapped, all[j].tramp, all[k].pointer, 4);
    }
  }

  // The protections after the first n bytes at t were set to what was reported for them.
  function Set(s: Protections, t: nat, n: nat): Protections
  {
    if 0 < n && t + n <= TWO32 then Protected(s, t, n, Reported(s, t)) else s
  }

  // The size of the hook's target, as its trampoline remembers it.
  ghost predicate Sizes(m: Memory, p: nat, cb: nat) { p + TRAMPOLINE_SIZE <= |m| && Saved(m, p) == cb }

  /**
   One transaction that attaches one detour: it puts one more hook on top, or fails and leaves the stack
   as it was.
   */
  method AttachHook(d: Detours, thread: nat, t: nat, pointer: nat, pDetour: Word, env: Environment,
                    ghost hooks: seq<Hook>, ghost original: Memory, ghost plan: seq<Insn>)
    returns (error: nat, ghost hooks': seq<Hook>)
    requires Holding(d, t, hooks, original) && thread != 0 && NewCell(d, t, hooks, pointer)
    requires Sound(env, d.heap.regions, d.mapped) && Moves(d.space.bytes, t, plan)
    requires SkipJmp(d.space.bytes, env.imported, U32At(d.space.bytes, pointer)) == t && U32At(d.space.bytes, pointer) != 0
    requires pDetour != 0 && SkipJmp(d.space.bytes, env.imported, pDetour) != t
    modifies d`pendingThread, d`pendingError, d`pendingPointer, d`operations, d`start, d.space, d.pages, d.heap
    ensures Holding(d, t, hooks', original)
    ensures error != NO_ERROR ==>
      && hooks' == hooks && SameMapped(old(d.space.bytes), d.space.bytes, d.mapped)
      && d.heap.live == old(d.heap.live) && d.pages.protections == old(d.pages.protections)
    ensures OnlyTargetAndCell(old(d.space.bytes), d.space.bytes, d.mapped, t, pointer)
    ensures SameSlots(old(d.space.bytes), d.space.bytes, old(d.heap.live))
    ensures error == NO_ERROR ==>
      && |hooks'| == |hooks| + 1 && hooks'[..|hooks|] == hooks && hooks'[|hooks|].pointer == pointer && hooks'[|hooks|].plan == plan
      && hooks'[|hooks|].detour == SkipJmp(old(d.space.bytes), env.imported, pDetour)
    ensures error == NO_ERROR ==>
      var p, cb := hooks'[|hooks|].tramp, Taken(old(d.space.bytes), t, plan);
      && p !in old(d.heap.live) && d.heap.live == old(d.heap.live) + {p} && SIZE_OF_JMP <= cb && Sizes(d.space.bytes, p, cb)
      && d.pages.protections == Set(old(d.pages.protections), t, cb)
    ensures error == NO_ERROR ==> d.OneTakenAtMost() && d.RegionFound(env.map_, t)
    ensures env.operationAllocated && env.protectError == NO_ERROR && old(d.SlotAtHand(env.map_, t)) && SIZE_OF_JMP <= Taken(old(d.space.bytes), t, plan) ==>
      error == NO_ERROR
  {
    hide RegionOf, U32At, Built, Stacked, Moves, Taken, SkipJmp, Managed, Committed, Apart, Undone, MappedRange, Remembers, Starving, Found,
      Pending, AllRemember, Protected, InUse, Reported, Restorable;
    ghost var m, s, live := d.space.bytes, d.pages.protections, d.heap.live;
    var began := d.Begin(thread, NO_ERROR);
    InRangeWhenMapped(d.mapped, t, pointer);
    assert old(d.SlotAtHand(env.map_, t)) ==> d.SlotAtHand(env.map_, t);
    error := d.Attach(thread, pointer, pDetour, env, plan);
    ghost var m1 := d.space.bytes;
    hooks' := hooks;
    if error != NO_ERROR {
      NothingUndone(d.pages.protections);
      var aborted := d.Abort(thread);
      StackUnchanged(m, m1, d.space.bytes, d.mapped, live, t, hooks, original);
      SlotsTwice(m, m1, d.space.bytes, live);
      return;
    }
    assert |d.operations| == 1;
    ghost var o := d.operations[0];
    assert d.operations == [o];
    ghost var s1 := d.pages.protections;
    var failed, none;
    error, failed, none := d.Commit(thread, []);
    AttachedIsUndone(m, s, m1, s1, o, t, plan, SkipJmp(m, env.imported, pDetour), d.mapped);
    OnlyOne(o);
    SlotsThrough(m, m1, d.space.bytes, live, d.heap.live);
    assert SameSlot(m1, d.space.bytes, o.pTrampoline);
    ghost var h := Hook(pointer, o.pTrampoline, SkipJmp(m, env.imported, pDetour), plan);
    FreshHook(d, m, t, hooks, original, live, h);
    HookAdded(m, m1, d.space.bytes, d.mapped, live, t, hooks, original, h, o);
    OneCommitWrites(m, m1, d.space.bytes, d.mapped, d.heap.live, o);
    hooks' := hooks + [h];
  }

  // What putting back the protections of one attachment comes to.
  lemma {:induction false} AttachedIsUndone(m: Memory, s: Protections, m1: Memory, s1: Protections, o: Operation, t: nat, plan: seq<Insn>,
                                            detour: Word, mapped: set<nat>)
    requires |m1| == TWO32 && 0 < t && MappedRange(mapped, t, WINDOW) && o.pTrampoline + TRAMPOLINE_SIZE <= |m1|
    requires Queues(m, s, [], m1, s1, [o], o.ppbPointer, t, o.pTrampoline, plan, detour)
    requires AllEditable(m1, [o])
    ensures SIZE_OF_JMP <= Taken(m, t, plan) && Saved(m1, o.pTrampoline) == Taken(m, t, plan) && o.pbTarget == t
    ensures Undone(s1, Changes(m1, [o])) == Set(s, t, Taken(m, t, plan))
  {
    hide Built, Taken, Protected, Undone, U32At, MappedRange, Remembers;
    BuiltRemembers(m, t, m1, o.pTrampoline, plan, detour, mapped);
    var one := [o];
    assert one == [Operation(false, o.ppbPointer, t, o.pTrampoline, Reported(s, t))] + [] && one[0] == o;
    assert o.dwPerm == Reported(s, t) && Editable(m1, one[0]);
    assert Changes(m1, one) == [Change(t, Taken(m, t, plan), Reported(s, t))];
    OneUndone(s, t, Taken(m, t, plan), PAGE_EXECUTE_READWRITE, Reported(s, t));
  }

  lemma {:induction false} SlotsThrough(m: Memory, m1: Memory, m2: Memory, live: set<nat>, live': set<nat>)
    requires SameSlots(m, m1, live) && SameSlots(m1, m2, live') && live <= live'
    ensures SameSlots(m, m2, live)
  {
    forall p | p in live
      ensures SameSlot(m, m2, p)
    {
      assert SameSlot(m, m1, p) && SameSlot(m1, m2, p);
    }
  }

  lemma {:induction false} InRangeWhenMapped(mapped: set<nat>, t: nat, pointer: nat)
    requires MappedRange(mapped, t, WINDOW) && MappedRange(mapped, pointer, 4)
    ensures t + WINDOW <= TWO32 && pointer + 4 <= TWO32
  {
  }

  lemma {:induction false} OnlyOne(o: Operation)
    ensures Attached([o]) == if o.fIsRemove then {} else {o.pTrampoline}
    ensures Removed([o]) == if o.fIsRemove then {o.pTrampoline} else {}
  {
  }

  lemma {:induction false} FreshHook(d: Detours, m: Memory, t: nat, hooks: seq<Hook>, original: Memory, live: set<nat>, h: Hook)
    requires d.Valid() && Apart(t, hooks) && Owned(d.mapped, live, t, hooks) && h.tramp !in live && d.heap.live == live + {h.tramp}
    requires NewCell(d, t, hooks, h.pointer)
    ensures Apart(t, hooks + [h]) && Owned(d.mapped, d.heap.live, t, hooks + [h]) && h.tramp + TRAMPOLINE_SIZE <= |d.space.bytes|
  {
    hide Managed, MappedRange, RegionOf, Pending, AllRemember;
    SlotInMemory(d.space.bytes, d.heap.pRegions, d.heap.regions, d.heap.free, d.heap.live, h.tramp);
    ApartMore(d.space.bytes, d.heap.pRegions, d.heap.regions, d.heap.free, d.heap.live, d.mapped, t, hooks, h);
  }

  // Nothing of the stack changed, in two steps.
  lemma {:induction false} StackUnchanged(m: Memory, m1: Memory, m2: Memory, mapped: set<nat>, live: set<nat>, t: nat, hooks: seq<Hook>,
                                          original: Memory)
    requires |m| == TWO32 && Stacked(m, t, hooks, original) && Apart(t, hooks) && Owned(mapped, live, t, hooks)
    requires SameMapped(m, m2, mapped) && SameSlots(m, m1, live) && SameSlots(m1, m2, live)
    ensures Stacked(m2, t, hooks, original)
  {
    hide RegionOf, Stacked;
    MappedIsSameWindow(m, m2, mapped, t);
    forall k | 0 <= k < |hooks|
      ensures SameHook(m, m2, hooks[k])
    {
      assert SameSlot(m, m1, hooks[k].tramp) && SameSlot(m1, m2, hooks[k].tramp);
    }
    StackKept(m, m2, t, hooks, original);
  }

  // The hook on top, as DetourDetach finds it through its pointer.
  lemma {:induction false} TopIsFound(d: Detours, t: nat, hooks: seq<Hook>, original: Memory, env: Environment)
    requires Holding(d, t, hooks, original) && hooks != [] && Sound(env, d.heap.regions, d.mapped)
    ensures
      var h, m := hooks[|hooks| - 1], d.space.bytes;
      && 0 < h.tramp < TWO32 && h.pointer + 4 <= |m| && h.tramp + TRAMPOLINE_SIZE <= |m|
      && WordAt(m, h.pointer) == h.tramp && SkipJmp(m, env.imported, h.tramp) == h.tramp
      && TargetOf(m, h.tramp) == t && U32At(m, h.tramp + PB_DETOUR) == h.detour
      && 0 < h.pointer && MappedRange(d.mapped, h.pointer, 4) && h.tramp in d.heap.live
  {
    hide RegionOf, U32At, Built, Moves, Taken, SkipJmp, Managed, Undone, MappedRange, Remembers, OnTop, Pending;
    var h, m := hooks[|hooks| - 1], d.space.bytes;
    PointersHoldTrampolines(m, t, hooks, original, |hooks| - 1);
    TopIsBuilt(m, t, h);
    SlotInMemory(m, d.heap.pRegions, d.heap.regions, d.heap.free, d.heap.live, h.tramp);
    LiveAreSlots(m, d.heap.pRegions, d.heap.regions, d.heap.free, d.heap.live);
    BuiltRemembers(Uncovered(m, t, h), t, m, h.tramp, h.plan, h.detour, d.mapped);
    TrampolineIsItsCode(m, env.imported, Uncovered(m, t, h), t, h.tramp, h.plan, h.detour);
  }

  /**
   One transaction that detaches the hook on top: it takes it off and points its pointer at the target
   again, and fails only for want of memory or of access to the target.
   */
  method DetachHook(d: Detours, thread: nat, t: nat, pointer: nat, pDetour: Word, env: Environment,
                    ghost hooks: seq<Hook>, ghost original: Memory)
    returns (error: nat, ghost hooks': seq<Hook>)
    requires Holding(d, t, hooks, original) && thread != 0 && hooks != [] && pointer == hooks[|hooks| - 1].pointer
    requires Sound(env, d.heap.regions, d.mapped)
    requires pDetour != 0 && SkipJmp(d.space.bytes, env.imported, pDetour) == hooks[|hooks| - 1].detour
    modifies d`pendingThread, d`pendingError, d`pendingPointer, d`operations, d`start, d.space, d.pages, d.heap
    ensures Holding(d, t, hooks', original)
    ensures OnlyTargetAndCell(old(d.space.bytes), d.space.bytes, d.mapped, t, pointer)
    ensures env.operationAllocated && env.protectError == NO_ERROR ==> error == NO_ERROR
    ensures error != NO_ERROR ==>
      && hooks' == hooks && SameMapped(old(d.space.bytes), d.space.bytes, d.mapped)
      && d.heap.live == old(d.heap.live) && d.pages.protections == old(d.pages.protections)
    ensures SameSlots(old(d.space.bytes), d.space.bytes, d.heap.live)
    ensures error == NO_ERROR ==>
      var p := hooks[|hooks| - 1].tramp;
      && d.heap.live == old(d.heap.live) - {p} && p in old(d.heap.live) && p + TRAMPOLINE_SIZE <= |old(d.space.bytes)|
      && d.pages.protections == Set(old(d.pages.protections), t, Saved(old(d.space.bytes), p))
    ensures error == NO_ERROR ==> hooks' == hooks[..|hooks| - 1] && pointer + 4 <= |d.space.bytes| && U32At(d.space.bytes, pointer) == t
  {
    hide RegionOf, U32At, Built, Stacked, Moves, Taken, SkipJmp, Managed, Committed, Apart, Owned, Undone, MappedRange, Remembers,
      Pending, AllRemember, Protected, InUse, Reported, Restorable, LooksHooked;
    ghost var m, s, live, h := d.space.bytes, d.pages.protections, d.heap.live, hooks[|hooks| - 1];
    TopIsFound(d, t, hooks, original, env);
    var began := d.Begin(thread, NO_ERROR);
    error := d.Detach(thread, pointer, pDetour, env);
    ghost var m1 := d.space.bytes;
    hooks' := hooks;
    if error != NO_ERROR {
      NothingUndone(d.pages.protections);
      var aborted := d.Abort(thread);
      StackUnchanged(m, m1, d.space.bytes, d.mapped, live, t, hooks, original);
      return;
    }
    assert |d.operations| == 1;
    ghost var o := d.operations[0];
    assert d.operations == [o];
    var failed, none;
    error, failed, none := d.Commit(thread, []);
    OnlyOne(o);
    DetachedIsUndone(m, s, o, d.mapped);
    assert d.heap.live == live - {h.tramp};
    hooks' := hooks[..|hooks| - 1];
    FewerHooks(d.mapped, live, t, hooks);
    assert hooks' + [h] == hooks;
    HookRemoved(m, d.space.bytes, d.mapped, d.heap.live, t, hooks', original, h, o);
    OneCommitWrites(m, m1, d.space.bytes, d.mapped, d.heap.live, o);
  }

  lemma {:induction false} DetachedIsUndone(m: Memory, s: Protections, o: Operation, mapped: set<nat>)
    requires Remembers(m, mapped, o.pTrampoline) && AllEditable(m, [o]) && o.pbTarget == TargetOf(m, o.pTrampoline)
    requires o.pbTarget < TWO32 && o.dwPerm == Reported(s, o.pbTarget)
    ensures
      var cb := Saved(m, o.pTrampoline);
      && 0 < cb && o.pbTarget + cb <= TWO32
      && Undone(Protected(s, o.pbTarget, cb, PAGE_EXECUTE_READWRITE), Changes(m, [o])) == Set(s, o.pbTarget, cb)
  {
    hide Protected, Undone, U32At, RegionOf;
    var one := [o];
    assert one[0] == o && Editable(m, one[0]);
    assert Changes(m, one) == [Change(o.pbTarget, Saved(m, o.pTrampoline), o.dwPerm)];
    OneUndone(s, o.pbTarget, Saved(m, o.pTrampoline), PAGE_EXECUTE_READWRITE, o.dwPerm);
  }

  lemma {:induction false} FewerHooks(mapped: set<nat>, live: set<nat>, t: nat, hooks: seq<Hook>)
    requires Apart(t, hooks) && Owned(mapped, live, t, hooks) && hooks != []
    ensures
      var h := hooks[|hooks| - 1];
      && Apart(t, hooks[..|hooks| - 1]) && Owned(mapped, live - {h.tramp}, t, hooks[..|hooks| - 1])
      && 0 < h.pointer && MappedRange(mapped, h.pointer, 4)
  {
    hide MappedRange;
  }

  // A jump is a prologue that can be moved.
  lemma {:induction false} JumpMoves(m: Memory, t: nat, to: Word) returns (plan: seq<Insn>)
    requires Holds(m, t, JumpBytes(t, to)) && |m| <= TWO32 && t + WINDOW <= |m|
    ensures Moves(m, t, plan) && Taken(m, t, plan) == SIZE_OF_JMP
  {
    hide Decode, ReadRight, FillerSize, JumpBytes, U32At;
    var i := JumpDecodes(m, t, to);
    JumpReads(m, t, to);
    JumpIsNear(m, t, i);
    plan := [i];
    assert SourceOffset(plan, 0) == 0 && SourceOffset(plan, 1) == SIZE_OF_JMP;
  }

  lemma {:induction false} JumpIsNear(m: Memory, t: nat, i: Insn)
    requires DecodeAt(m, t) == Some(i) && m[t] == 0xE9
    ensures ReadRight(m, t, i) && Movable(i) && i.control.Relative? && i.control.form.Near32? && EmittedLength(i) == i.length
  {
  }

  // Nothing of the program's memory but the target and the given pointer cells differs.
  ghost predicate OnlyTargetAndCells(m: Memory, m': Memory, mapped: set<nat>, t: nat, pointers: seq<nat>)
  {
    && |m| == |m'|
    && forall a :: 0 <= a < |m| && RegionOf(a) in mapped && !(t <= a < t + WINDOW) && !InCell(pointers, a) ==> m'[a] == m[a]
  }

  predicate InCell(pointers: seq<nat>, a: nat) { exists k :: 0 <= k < |pointers| && pointers[k] <= a < pointers[k] + 4 }

  // Code that is no jump stub, in the program's memory and neither part of the target nor a pointer cell.
  ghost predicate Settled(m: Memory, mapped: set<nat>, t: nat, pointers: seq<nat>, x: Word)
  {
    && 0 < x < |m| && RegionOf(x) in mapped && !(t <= x < t + WINDOW) && !InCell(pointers, x)
    && m[x] != 0xEB && m[x] != 0xFF
  }

  lemma {:induction false} PlainCodeIsFound(m: Memory, imported: (nat, nat) -> bool, x: Word)
    requires 0 < x < |m| && m[x] != 0xEB && m[x] != 0xFF
    ensures SkipJmp(m, imported, x) == x
  {
  }

  // A whole session's hooks on one target: distinct cells that all point at it, and detours to attach.
  ghost predicate Session(m: Memory, mapped: set<nat>, t: nat, pointers: seq<nat>, detours: seq<Word>)
  {
    && |m| == TWO32 && |pointers| == |detours| && REGION_SIZE <= t && MappedRange(mapped, t, WINDOW) && m[t] != 0xEB && m[t] != 0xFF
    && (forall k :: 0 <= k < |pointers| ==>
          && 0 < pointers[k] && MappedRange(mapped, pointers[k], 4) && Disjoint(t, WINDOW, pointers[k], 4)
          && U32At(m, pointers[k]) == t)
    && (forall j, k :: 0 <= j < k < |pointers| ==> Disjoint(pointers[j], 4, pointers[k], 4))
    && (forall k :: 0 <= k < |detours| ==> Settled(m, mapped, t, pointers, detours[k]))
  }

  // The first k hooks of the session are attached.
  ghost predicate Standing(d: Detours, original: Memory, t: nat, pointers: seq<nat>, detours: seq<Word>, hooks: seq<Hook>)
    reads d, d.space, d.pages, d.heap
  {
    && Session(original, d.mapped, t, pointers, detours) && Holding(d, t, hooks, original) && |hooks| <= |pointers|
    && (forall k :: 0 <= k < |hooks| ==> hooks[k].pointer == pointers[k] && hooks[k].detour == detours[k])
    && (forall k :: |hooks| <= k < |pointers| ==> U32At(d.space.bytes, pointers[k]) == t)
    && OnlyTargetAndCells(original, d.space.bytes, d.mapped, t, pointers)
  }

  // The answers of a system that knows which regions it has handed out.
  ghost predicate SoundSystem(os: seq<nat> -> Environment, mapped: set<nat>)
  {
    forall r :: Sound(os(r), r, mapped)
  }

  // And has memory for an operation, and lets the code be written.
  ghost predicate Willing(os: seq<nat> -> Environment)
  {
    forall r :: os(r).operationAllocated && os(r).protectError == NO_ERROR
  }

  // The code at t is found through a pointer to t, hooked or not, and can be moved.
  lemma {:induction false} TargetIsReady(d: Detours, original: Memory, t: nat, pointers: seq<nat>, detours: seq<Word>, hooks: seq<Hook>,
                                         first: seq<Insn>, imported: (nat, nat) -> bool)
    returns (plan: seq<Insn>)
    requires Standing(d, original, t, pointers, detours, hooks) && Moves(original, t, first)
    ensures Moves(d.space.bytes, t, plan) && SkipJmp(d.space.bytes, imported, t) == t
    ensures hooks == [] ==> plan == first
    ensures Taken(d.space.bytes, t, plan) == if hooks == [] then Taken(original, t, first) else SIZE_OF_JMP
  {
    hide RegionOf, U32At, Built, Moves, Taken, SkipJmp, OnTop, JumpBytes;
    var m := d.space.bytes;
    if hooks == [] {
      plan := first;
      MovesIsLocal(original, m, t, plan);
    } else {
      var h := hooks[|hooks| - 1];
      TopIsBuilt(m, t, h);
      JumpReads(m, t, h.detour);
      plan := JumpMoves(m, t, h.detour);
    }
    PlainCodeIsFound(m, imported, t);
  }

  // After one more attachment, or after one that failed.
  lemma {:induction false} StandingMore(d: Detours, m: Memory, original: Memory, t: nat, pointers: seq<nat>, detours: seq<Word>,
                                        hooks: seq<Hook>, hooks': seq<Hook>)
    requires Session(original, d.mapped, t, pointers, detours) && Holding(d, t, hooks', original) && |hooks| < |pointers| && |m| == TWO32
    requires forall k :: 0 <= k < |hooks| ==> hooks[k].pointer == pointers[k] && hooks[k].detour == detours[k]
    requires forall k :: |hooks| <= k < |pointers| ==> pointers[k] + 4 <= |m| && U32At(m, pointers[k]) == t
    requires OnlyTargetAndCells(original, m, d.mapped, t, pointers)
    requires OnlyTargetAndCell(m, d.space.bytes, d.mapped, t, pointers[|hooks|])
    requires |hooks'| == |hooks| + 1 && hooks'[..|hooks|] == hooks
    requires hooks'[|hooks|].pointer == pointers[|hooks|] && hooks'[|hooks|].detour == detours[|hooks|]
    ensures Standing(d, original, t, pointers, detours, hooks')
  {
    hide RegionOf, U32At, Stacked, Settled;
    var m' := d.space.bytes;
    var n := |hooks|;
    forall k | n + 1 <= k < |pointers|
      ensures U32At(m', pointers[k]) == t
    {
      CellSame(m, m', d.mapped, t, pointers[n], pointers[k]);
    }
    CellsGrow(original, m, m', d.mapped, t, pointers, n);
    forall k | 0 <= k < |hooks'|
      ensures hooks'[k].pointer == pointers[k] && hooks'[k].detour == detours[k]
    {
      assert k < n ==> hooks'[k] == hooks'[..n][k];
    }
  }

  lemma {:induction false} CellSame(m: Memory, m': Memory, mapped: set<nat>, t: nat, pointer: nat, a: nat)
    requires OnlyTargetAndCell(m, m', mapped, t, pointer) && MappedRange(mapped, a, 4) && a + 4 <= |m|
    requires Disjoint(t, WINDOW, a, 4) && Disjoint(pointer, 4, a, 4)
    ensures U32At(m', a) == U32At(m, a)
  {
    hide RegionOf, U32At;
    U32Kept(m, m', a);
  }

  lemma {:induction false} CellsGrow(m0: Memory, m: Memory, m': Memory, mapped: set<nat>, t: nat, pointers: seq<nat>, n: nat)
    requires OnlyTargetAndCells(m0, m, mapped, t, pointers) && n < |pointers| && OnlyTargetAndCell(m, m', mapped, t, pointers[n])
    ensures OnlyTargetAndCells(m0, m', mapped, t, pointers)
  {
    hide RegionOf;
  }

  // All of region b is within reach of the target, hooked or not.
  ghost predicate CoversAll(original: Memory, t: nat, detours: seq<Word>, b: nat)
  {
    && t + WINDOW <= |original| && Covers(JumpBounds(Bits32, original, t), b)
    && forall k :: 0 <= k < |detours| ==> Covers(BoundsFor(Bits32, t, Some(detours[k])), b)
  }

  // An address near the target and near a detour, and not too near an end of memory.
  predicate Between(t: nat, detour: nat, p: int)
  {
    p <= 0xfff8_0000 && Near(p, t) && Near(p, detour) && (0x8_0000 <= p || t > 0x7ff8_0000 || detour > 0x7ff8_0000)
  }

  /** It is if and only if each of its addresses is within reach of the target as it was, and near it and each detour. */
  lemma {:induction false} CoversAllIs(original: Memory, t: nat, detours: seq<Word>, b: nat)
    requires t + WINDOW <= |original| <= TWO32
    ensures CoversAll(original, t, detours, b) <==>
      && (forall p :: b <= p <= b + 0x1_0000 ==> WithinReach(Bits32, original, t, p))
      && forall p, k :: b <= p <= b + 0x1_0000 && 0 <= k < |detours| ==> Between(t, detours[k], p)
  {
    hide JumpBounds, BoundsFor, WithinReach;
    CoversIs(original, t, b);
    forall k, p | 0 <= k < |detours|
      ensures
        var w := BoundsFor(Bits32, t, Some(detours[k]));
        w.lo <= p <= w.hi <==> Between(t, detours[k], p)
    {
      BoundsAre(t, detours[k], p);
    }
    forall k | 0 <= k < |detours|
      ensures
        Covers(BoundsFor(Bits32, t, Some(detours[k])), b) <==>
          forall p :: b <= p <= b + 0x1_0000 ==> Between(t, detours[k], p)
    {
      assert Between(t, detours[k], b) && Between(t, detours[k], b + 0x1_0000) ==> Covers(BoundsFor(Bits32, t, Some(detours[k])), b);
    }
  }

  // Region b has n free slots, all of them within reach of the target, hooked or not.
  ghost predicate RoomIn(regions: seq<nat>, free: map<nat, seq<nat>>, original: Memory, t: nat, detours: seq<Word>, n: int, b: nat)
  {
    b in regions && b in free && n <= |free[b]| && CoversAll(original, t, detours, b)
  }

  // There are no regions yet, a new one can be had, and whichever the search finds, it is within reach.
  ghost predicate NewRegionWill(regions: seq<nat>, os: seq<nat> -> Environment, original: Memory, t: nat, detours: seq<Word>, n: int)
  {
    && regions == [] && n <= 907 && t + WINDOW <= |original|
    && (exists a :: RegionAtHand(os([]).map_, original, t, a))
    && forall b :: Found(os([]).map_, original, t, b) ==> CoversAll(original, t, detours, b)
  }

  // Room for n more hooks: in region b, or in a new one if there are none yet.
  ghost predicate Ready(regions: seq<nat>, free: map<nat, seq<nat>>, os: seq<nat> -> Environment, original: Memory, t: nat, detours: seq<Word>,
                        n: int, b: nat)
  {
    RoomIn(regions, free, original, t, detours, n, b) || NewRegionWill(regions, os, original, t, detours, n)
  }

  ghost predicate Room(d: Detours, os: seq<nat> -> Environment, original: Memory, t: nat, detours: seq<Word>, n: int)
    reads d, d.heap
  {
    exists b :: Ready(d.heap.regions, d.heap.free, os, original, t, detours, n, b)
  }

  lemma {:induction false} RoomServes(d: Detours, os: seq<nat> -> Environment, original: Memory, t: nat, pointers: seq<nat>,
                                      detours: seq<Word>, hooks: seq<Hook>, n: nat, b: nat)
    requires Standing(d, original, t, pointers, detours, hooks)
    requires 0 < n && Ready(d.heap.regions, d.heap.free, os, original, t, detours, n, b)
    ensures t + 6 <= |d.space.bytes| && d.SlotAtHand(os(d.heap.regions).map_, t)
    ensures d.heap.regions == [] ==> hooks == []
  {
    hide RegionOf, Stacked, OnlyTargetAndCells, Settled, Pending, Linked, JumpBounds, BoundsFor, RegionOk, Apart, U32At, Starving, Found,
      RegionAtHand, NoRegionFor, Covers, WithinReach;
    if hooks != [] {
      assert hooks[0].tramp in d.heap.live;
    }
    if RoomIn(d.heap.regions, d.heap.free, original, t, detours, n, b) {
      HookedIsCovered(d.space.bytes, original, t, detours, hooks, b);
      CoveringServes(d, os(d.heap.regions).map_, t, b);
    } else {
      var map_ := os([]).map_;
      var a :| RegionAtHand(map_, original, t, a);
      RegionAtHandIsFound(map_, original, t, a);
      Unhooked(d.space.bytes, t, original);
      SameSearch(original, d.space.bytes, map_, t);
      NoneServe(map_, original, t);
    }
  }

  lemma {:induction false} Unhooked(m: Memory, t: nat, original: Memory)
    requires Stacked(m, t, [], original)
    ensures SameWindow(original, m, t)
  {
  }

  lemma {:induction false} NoneServe(map_: AddressMap, m: Memory, t: nat)
    requires t + 6 <= |m|
    ensures forall free :: Starving([], free, map_, m, t) <==> NoRegionFor(map_, m, t)
  {
    hide NoRegionFor;
  }

  // The bounds of a hooked target are those of a jump to the newest hook's detour.
  lemma {:induction false} HookedIsCovered(m: Memory, original: Memory, t: nat, detours: seq<Word>, hooks: seq<Hook>, b: nat)
    requires Stacked(m, t, hooks, original) && t + WINDOW <= |original| && |hooks| <= |detours|
    requires CoversAll(original, t, detours, b)
    requires forall k :: 0 <= k < |hooks| ==> hooks[k].detour == detours[k]
    ensures t + WINDOW <= |m| && Covers(JumpBounds(Bits32, m, t), b)
  {
    hide OnTop, BoundsFor, U32At, Signed32, JumpBytes, Covers, Built;
    if hooks == [] {
      SameBounds(original, m, t);
    } else {
      var k := |hooks| - 1;
      TopIsBuilt(m, t, hooks[k]);
      JumpReads(m, t, hooks[k].detour);
    }
  }

  ghost function RoomyRegion(d: Detours, os: seq<nat> -> Environment, original: Memory, t: nat, detours: seq<Word>, n: int): (b: nat)
    requires Room(d, os, original, t, detours, n)
    reads d, d.heap
    ensures Ready(d.heap.regions, d.heap.free, os, original, t, detours, n, b)
  {
    var b: nat :| Ready(d.heap.regions, d.heap.free, os, original, t, detours, n, b);
    b
  }

  // After an attach there is room for one less, in the region that it may have allocated if it has.
  lemma {:induction false} StillReady(regions: seq<nat>, free: map<nat, seq<nat>>, regions': seq<nat>, free': map<nat, seq<nat>>,
                                      os: seq<nat> -> Environment, original: Memory, t: nat, detours: seq<Word>, n: nat, b: nat)
    returns (b': nat)
    requires 0 < n && Ready(regions, free, os, original, t, detours, n, b)
    requires forall c :: c in regions ==> c in regions' && c in free && c in free' && |free[c]| <= |free'[c]| + 1
    requires regions == [] ==>
      && |regions'| > 0 && t + 6 <= |original| && Found(os([]).map_, original, t, regions'[0])
      && regions'[0] in free' && 906 <= |free'[regions'[0]]|
    ensures Ready(regions', free', os, original, t, detours, n - 1, b')
  {
    hide JumpBounds, BoundsFor, Found, RegionAtHand, CoversAll;
    b' := if RoomIn(regions, free, original, t, detours, n, b) then b else regions'[0];
  }

  // What a session has changed besides the program's memory: the trampolines in use are those at its start and
  // the hooks' own, and the protections are as at its start, or set once for the target's n bytes.
  ghost predicate Tidy(m: Memory, s: Protections, live: set<nat>, s0: Protections, live0: set<nat>, t: nat, n: nat, hooks: seq<Hook>, ever: bool)
  {
    && live == live0 + Tramps(hooks) && live0 !! Tramps(hooks)
    && (forall k :: 0 <= k < |hooks| ==> SizedUpTo(m, hooks[k].tramp, n))
    && s == if ever then Set(s0, t, n) else s0
  }

  ghost predicate SizedUpTo(m: Memory, p: nat, n: nat) { p + TRAMPOLINE_SIZE <= |m| && 0 < Saved(m, p) <= n }

  ghost function Tramps(hooks: seq<Hook>): set<nat> { set h | h in hooks :: h.tramp }

  lemma {:induction false} TidyStarts(m: Memory, s: Protections, live: set<nat>, t: nat, n: nat)
    ensures Tidy(m, s, live, s, live, t, n, [], false)
  {
  }

  // After one more attachment.
  lemma {:induction false} TidyMore(m: Memory, m': Memory, s: Protections, s': Protections, live: set<nat>, live': set<nat>, s0: Protections,
                                    live0: set<nat>, t: nat, n: nat, hooks: seq<Hook>, hooks': seq<Hook>, cb: nat)
    requires Tidy(m, s, live, s0, live0, t, n, hooks, hooks != []) && SameSlots(m, m', live) && t + n <= TWO32
    requires |hooks'| == |hooks| + 1 && hooks'[..|hooks|] == hooks && hooks'[|hooks|].tramp !in live
    requires live' == live + {hooks'[|hooks|].tramp} && 0 < cb && Sizes(m', hooks'[|hooks|].tramp, cb)
    requires s' == Set(s, t, cb) && (if hooks == [] then cb == n else cb <= n)
    ensures Tidy(m', s', live', s0, live0, t, n, hooks', true)
  {
    hide Protected;
    var h := hooks'[|hooks|];
    assert hooks' == hooks + [h];
    assert Tramps(hooks') == Tramps(hooks) + {h.tramp};
    forall k | 0 <= k < |hooks'|
      ensures SizedUpTo(m', hooks'[k].tramp, n)
    {
      if k < |hooks| {
        assert hooks'[k] == hooks[k] && hooks[k] in hooks && SizedUpTo(m, hooks[k].tramp, n);
        assert hooks[k].tramp in Tramps(hooks);
        assert SameSlot(m, m', hooks[k].tramp);
      }
    }
    if hooks != [] {
      SetAgain(s0, t, n, cb);
    }
  }

  // After one detachment.
  lemma {:induction false} TidyLess(m: Memory, m': Memory, s: Protections, s': Protections, live: set<nat>, live': set<nat>, s0: Protections,
                                    live0: set<nat>, t: nat, n: nat, hooks: seq<Hook>)
    requires Tidy(m, s, live, s0, live0, t, n, hooks, true) && SameSlots(m, m', live') && t + n <= TWO32 && hooks != []
    requires forall j, k :: 0 <= j < k < |hooks| ==> hooks[j].tramp != hooks[k].tramp
    requires
      var p := hooks[|hooks| - 1].tramp;
      live' == live - {p} && p + TRAMPOLINE_SIZE <= |m| && s' == Set(s, t, Saved(m, p))
    ensures Tidy(m', s', live', s0, live0, t, n, hooks[..|hooks| - 1], true)
  {
    hide Protected;
    var k, rest := |hooks| - 1, hooks[..|hooks| - 1];
    assert hooks == rest + [hooks[k]] && SizedUpTo(m, hooks[k].tramp, n);
    forall h | h in rest
      ensures h.tramp != hooks[k].tramp
    {
      var j :| 0 <= j < |rest| && rest[j] == h;
      assert hooks[j] == h;
    }
    assert Tramps(hooks) == Tramps(rest) + {hooks[k].tramp};
    forall j | 0 <= j < |rest|
      ensures SizedUpTo(m', rest[j].tramp, n)
    {
      assert rest[j] == hooks[j] && rest[j] in rest && SizedUpTo(m, hooks[j].tramp, n);
      assert rest[j].tramp in Tramps(rest);
      assert SameSlot(m, m', rest[j].tramp);
    }
    SetAgain(s0, t, n, Saved(m, hooks[k].tramp));
  }

  lemma {:induction false} StillTidy(m: Memory, m': Memory, s: Protections, live: set<nat>, s0: Protections, live0: set<nat>, t: nat, n: nat,
                                     hooks: seq<Hook>, ever: bool)
    requires Tidy(m, s, live, s0, live0, t, n, hooks, ever) && SameSlots(m, m', live)
    ensures Tidy(m', s, live, s0, live0, t, n, hooks, ever)
  {
    hide Protected;
    forall k | 0 <= k < |hooks|
      ensures SizedUpTo(m', hooks[k].tramp, n)
    {
      assert hooks[k] in hooks && SizedUpTo(m, hooks[k].tramp, n);
      assert hooks[k].tramp in Tramps(hooks);
      assert SameSlot(m, m', hooks[k].tramp);
    }
  }

  lemma {:induction false} TakenInRange(original: Memory, t: nat, first: seq<Insn>)
    requires Moves(original, t, first)
    ensures t + Taken(original, t, first) <= TWO32
  {
    hide Planned, Taken;
    MovesFits(original, t, first);
  }

  // Attaches the hooks one after the other, each in a transaction of its own, until one fails. With room for
  // them in a region and a system that refuses nothing none does.
  method StackHooks(d: Detours, thread: nat, t: nat, pointers: seq<nat>, detours: seq<Word>, os: seq<nat> -> Environment,
                    ghost original: Memory, ghost first: seq<Insn>)
    returns (n: nat, ghost hooks: seq<Hook>)
    requires Standing(d, original, t, pointers, detours, []) && thread != 0 && Moves(original, t, first) && SoundSystem(os, d.mapped)
    modifies d`pendingThread, d`pendingError, d`pendingPointer, d`operations, d`start, d.space, d.pages, d.heap
    ensures Standing(d, original, t, pointers, detours, hooks) && |hooks| == n
    ensures Tidy(d.space.bytes, d.pages.protections, d.heap.live, old(d.pages.protections), old(d.heap.live), t, Taken(original, t, first),
                 hooks, n > 0)
    ensures n > 0 ==> SIZE_OF_JMP <= Taken(original, t, first)
    ensures Willing(os) && SIZE_OF_JMP <= Taken(original, t, first) && old(Room(d, os, original, t, detours, |pointers|)) ==> n == |pointers|
  {
    hide RegionOf, U32At, Moves, SkipJmp, Stacked, OnlyTargetAndCell, OnlyTargetAndCells, Settled, Sound, Apart, Owned, Ready, Taken,
      Tidy, Session, SameSlots, Sizes;
    ghost var room := Room(d, os, original, t, detours, |pointers|) && Willing(os);
    ghost var b: nat := if room then RoomyRegion(d, os, original, t, detours, |pointers|) else 0;
    n, hooks := 0, [];
    ghost var cb0 := Taken(original, t, first);
    TidyStarts(d.space.bytes, d.pages.protections, d.heap.live, t, cb0);
    TakenInRange(original, t, first);
    var ok := true;
    while n < |pointers| && ok
      invariant Standing(d, original, t, pointers, detours, hooks) && |hooks| == n <= |pointers|
      invariant Tidy(d.space.bytes, d.pages.protections, d.heap.live, old(d.pages.protections), old(d.heap.live), t, cb0, hooks, hooks != [])
      invariant n > 0 ==> SIZE_OF_JMP <= cb0
      invariant room && SIZE_OF_JMP <= cb0 ==> ok && Ready(d.heap.regions, d.heap.free, os, original, t, detours, |pointers| - n, b)
      decreases |pointers| - n, ok
    {
      ok, hooks, b := StackOne(d, thread, t, pointers, detours, os, n, original, first, hooks, old(d.pages.protections), old(d.heap.live),
                            room && SIZE_OF_JMP <= cb0, b);
      if ok {
        n := n + 1;
      }
    }
  }

  // One attachment of a session.
  method StackOne(d: Detours, thread: nat, t: nat, pointers: seq<nat>, detours: seq<Word>, os: seq<nat> -> Environment, n: nat,
                  ghost original: Memory, ghost first: seq<Insn>, ghost hooks: seq<Hook>, ghost s0: Protections, ghost live0: set<nat>,
                  ghost room: bool, ghost b: nat)
    returns (ok: bool, ghost hooks': seq<Hook>, ghost b': nat)
    requires Standing(d, original, t, pointers, detours, hooks) && thread != 0 && Moves(original, t, first) && SoundSystem(os, d.mapped)
    requires n == |hooks| < |pointers| && t + Taken(original, t, first) <= TWO32
    requires Tidy(d.space.bytes, d.pages.protections, d.heap.live, s0, live0, t, Taken(original, t, first), hooks, hooks != [])
    requires n > 0 ==> SIZE_OF_JMP <= Taken(original, t, first)
    requires room ==> Willing(os) && SIZE_OF_JMP <= Taken(original, t, first)
    requires room ==> Ready(d.heap.regions, d.heap.free, os, original, t, detours, |pointers| - n, b)
    modifies d`pendingThread, d`pendingError, d`pendingPointer, d`operations, d`start, d.space, d.pages, d.heap
    ensures Standing(d, original, t, pointers, detours, hooks') && |hooks'| == if ok then n + 1 else n
    ensures Tidy(d.space.bytes, d.pages.protections, d.heap.live, s0, live0, t, Taken(original, t, first), hooks', hooks' != [])
    ensures ok ==> SIZE_OF_JMP <= Taken(original, t, first)
    ensures room ==> ok && Ready(d.heap.regions, d.heap.free, os, original, t, detours, |pointers| - n - 1, b')
  {
    hide RegionOf, U32At, Moves, SkipJmp, Stacked, OnlyTargetAndCell, OnlyTargetAndCells, Settled, Sound, Apart, Owned, Ready, Taken,
      Tidy, SameSlots, Sizes, Starving, Found, Managed, Pending, AllRemember, Detours.SlotAtHand;
    b' := b;
    AllListed(d);
    if room {
      RoomServes(d, os, original, t, pointers, detours, hooks, |pointers| - n, b);
    }
    ghost var regions, free := d.heap.regions, d.heap.free;
    ghost var m, s, live := d.space.bytes, d.pages.protections, d.heap.live;
    var r := d.heap.ListRegions();
    var env := os(r);
    assert Sound(env, r, d.mapped);
    ghost var plan := TargetIsReady(d, original, t, pointers, detours, hooks, first, env.imported);
    DetourIsReady(d, original, t, pointers, detours, hooks, env.imported, n);
    var error;
    error, hooks' := AttachHook(d, thread, t, pointers[n], detours[n], env, hooks, original, plan);
    ok := error == NO_ERROR;
    if !ok {
      StandingStill(d, m, original, t, pointers, detours, hooks);
      StillTidy(m, d.space.bytes, s, live, s0, live0, t, Taken(original, t, first), hooks, hooks != []);
      return;
    }
    StandingMore(d, m, original, t, pointers, detours, hooks, hooks');
    TidyMore(m, d.space.bytes, s, d.pages.protections, live, d.heap.live, s0, live0, t, Taken(original, t, first), hooks, hooks',
             Taken(m, t, plan));
    if room {
      if hooks == [] {
        Unhooked(m, t, original);
      }
      NewIsFound(d, m, live, original, t, pointers, detours, hooks, regions, env.map_);
      AllListed(d);
      b' := StillReady(regions, free, d.heap.regions, d.heap.free, os, original, t, detours, |pointers| - n, b);
    }
  }

  // The first region, as seen from the unhooked target.
  lemma {:induction false} NewIsFound(d: Detours, m: Memory, live: set<nat>, original: Memory, t: nat, pointers: seq<nat>, detours: seq<Word>,
                                      hooks: seq<Hook>, regions: seq<nat>, map_: AddressMap)
    requires d.heap.Valid() && d.heap.live != {} && (regions == [] ==> hooks == []) && |m| == |original| == TWO32
    requires MappedRange(d.mapped, t, WINDOW) && (hooks == [] ==> SameWindow(original, m, t))
    requires d.heap.regions == regions ||
      (t + 6 <= |m| && |d.heap.regions| > 0 && Found(map_, m, t, d.heap.regions[0]) && d.heap.regions[0] in d.heap.free
       && 906 <= |d.heap.free[d.heap.regions[0]]|)
    ensures regions == [] ==>
      && |d.heap.regions| > 0 && t + 6 <= |original| && Found(map_, original, t, d.heap.regions[0]) && d.heap.regions[0] in d.heap.free
      && 906 <= |d.heap.free[d.heap.regions[0]]|
  {
    hide RegionOf, Found, MappedRange, Linked, RegionOk;
    if regions == [] {
      var p :| p in d.heap.live;
      WindowIsInside(d.mapped, t);
      SameSearch(original, m, map_, t);
    }
  }

  lemma {:induction false} DetourIsReady(d: Detours, original: Memory, t: nat, pointers: seq<nat>, detours: seq<Word>, hooks: seq<Hook>,
                                         imported: (nat, nat) -> bool, n: nat)
    requires Standing(d, original, t, pointers, detours, hooks) && n < |detours|
    ensures detours[n] != 0 && detours[n] != t && SkipJmp(d.space.bytes, imported, detours[n]) == detours[n]
    ensures |hooks| <= n ==> NewCell(d, t, hooks, pointers[n])
  {
    hide RegionOf, U32At, SkipJmp, Stacked;
    assert Settled(original, d.mapped, t, pointers, detours[n]);
    PlainCodeIsFound(d.space.bytes, imported, detours[n]);
  }

  lemma {:induction false} StandingStill(d: Detours, m: Memory, original: Memory, t: nat, pointers: seq<nat>, detours: seq<Word>,
                                         hooks: seq<Hook>)
    requires Session(original, d.mapped, t, pointers, detours) && Holding(d, t, hooks, original) && |hooks| <= |pointers| && |m| == TWO32
    requires forall k :: 0 <= k < |hooks| ==> hooks[k].pointer == pointers[k] && hooks[k].detour == detours[k]
    requires forall k :: |hooks| <= k < |pointers| ==> pointers[k] + 4 <= |m| && U32At(m, pointers[k]) == t
    requires OnlyTargetAndCells(original, m, d.mapped, t, pointers) && SameMapped(m, d.space.bytes, d.mapped)
    ensures Standing(d, original, t, pointers, detours, hooks)
  {
    hide RegionOf, U32At, Stacked, Settled;
    var m' := d.space.bytes;
    forall k | |hooks| <= k < |pointers|
      ensures U32At(m', pointers[k]) == t
    {
      U32Kept(m, m', pointers[k]);
    }
  }

  // After one detachment.
  lemma {:induction false} StandingLess(d: Detours, m: Memory, original: Memory, t: nat, pointers: seq<nat>, detours: seq<Word>,
                                        hooks: seq<Hook>, n: nat)
    requires Session(original, d.mapped, t, pointers, detours) && n < |hooks| <= |pointers| && n + 1 == |hooks| && |m| == TWO32
    requires Holding(d, t, hooks[..n], original)
    requires forall k :: 0 <= k < |hooks| ==> hooks[k].pointer == pointers[k] && hooks[k].detour == detours[k]
    requires forall k :: |hooks| <= k < |pointers| ==> pointers[k] + 4 <= |m| && U32At(m, pointers[k]) == t
    requires OnlyTargetAndCells(original, m, d.mapped, t, pointers)
    requires OnlyTargetAndCell(m, d.space.bytes, d.mapped, t, pointers[n])
    requires pointers[n] + 4 <= |d.space.bytes| && U32At(d.space.bytes, pointers[n]) == t
    ensures Standing(d, original, t, pointers, detours, hooks[..n])
  {
    hide RegionOf, U32At, Stacked, Settled;
    var m' := d.space.bytes;
    forall k | n <= k < |pointers|
      ensures U32At(m', pointers[k]) == t
    {
      if k > n {
        CellSame(m, m', d.mapped, t, pointers[n], pointers[k]);
      }
    }
    CellsGrow(original, m, m', d.mapped, t, pointers, n);
  }

  // Detaches the hooks again, newest first.
  method UnstackHooks(d: Detours, thread: nat, t: nat, pointers: seq<nat>, detours: seq<Word>, os: seq<nat> -> Environment, count: nat,
                      ghost original: Memory, ghost attached: seq<Hook>, ghost s0: Protections, ghost live0: set<nat>, ghost cb0: nat)
    requires Standing(d, original, t, pointers, detours, attached) && thread != 0 && count == |attached|
    requires SoundSystem(os, d.mapped) && Willing(os) && t + cb0 <= TWO32
    requires Tidy(d.space.bytes, d.pages.protections, d.heap.live, s0, live0, t, cb0, attached, count > 0)
    modifies d`pendingThread, d`pendingError, d`pendingPointer, d`operations, d`start, d.space, d.pages, d.heap
    ensures Standing(d, original, t, pointers, detours, [])
    ensures Tidy(d.space.bytes, d.pages.protections, d.heap.live, s0, live0, t, cb0, [], count > 0)
  {
    hide RegionOf, U32At, Moves, SkipJmp, Stacked, OnlyTargetAndCell, OnlyTargetAndCells, Settled, Sound, Apart, Owned, Tidy, Session,
      SameSlots;
    var n := count;
    ghost var hooks := attached;
    while n > 0
      invariant Standing(d, original, t, pointers, detours, hooks) && |hooks| == n <= count
      invariant Tidy(d.space.bytes, d.pages.protections, d.heap.live, s0, live0, t, cb0, hooks, count > 0)
    {
      n := n - 1;
      hooks := UnstackOne(d, thread, t, pointers, detours, os, n, original, hooks, s0, live0, cb0);
    }
    assert hooks == [];
  }

  // One detachment of a session.
  method UnstackOne(d: Detours, thread: nat, t: nat, pointers: seq<nat>, detours: seq<Word>, os: seq<nat> -> Environment, n: nat,
                    ghost original: Memory, ghost hooks: seq<Hook>, ghost s0: Protections, ghost live0: set<nat>, ghost cb0: nat)
    returns (ghost hooks': seq<Hook>)
    requires Standing(d, original, t, pointers, detours, hooks) && thread != 0 && n + 1 == |hooks|
    requires SoundSystem(os, d.mapped) && Willing(os) && t + cb0 <= TWO32
    requires Tidy(d.space.bytes, d.pages.protections, d.heap.live, s0, live0, t, cb0, hooks, true)
    modifies d`pendingThread, d`pendingError, d`pendingPointer, d`operations, d`start, d.space, d.pages, d.heap
    ensures Standing(d, original, t, pointers, detours, hooks') && |hooks'| == n
    ensures Tidy(d.space.bytes, d.pages.protections, d.heap.live, s0, live0, t, cb0, hooks', true)
  {
    hide RegionOf, U32At, Moves, SkipJmp, Stacked, OnlyTargetAndCell, OnlyTargetAndCells, Settled, Sound, Apart, Owned, Tidy, SameSlots;
    ghost var m, s, live := d.space.bytes, d.pages.protections, d.heap.live;
    var r := d.heap.ListRegions();
    var env := os(r);
    assert Sound(env, r, d.mapped) && env.operationAllocated && env.protectError == NO_ERROR;
    DetourIsReady(d, original, t, pointers, detours, hooks, env.imported, n);
    TrampsDiffer(t, hooks);
    var error;
    error, hooks' := DetachHook(d, thread, t, pointers[n], detours[n], env, hooks, original);
    StandingLess(d, m, original, t, pointers, detours, hooks, n);
    TidyLess(m, d.space.bytes, s, d.pages.protections, live, d.heap.live, s0, live0, t, cb0, hooks);
  }

  lemma {:induction false} TrampsDiffer(t: nat, hooks: seq<Hook>)
    requires Apart(t, hooks)
    ensures forall j, k :: 0 <= j < k < |hooks| ==> hooks[j].tramp != hooks[k].tramp
  {
  }

  /**
   Any number of hooks attached to one target in successive transactions, as far as that succeeds, and
   detached in reverse order: every byte of the program is as before, the target's as well as the hooks'
   pointers, which point at the target again, and the same trampolines are in use. The page protections are as
   before if and only if no hook was attached or the target's pages were protected alike. In between, the first n
   detours are stacked.
   */
  method HookAndUnhook(d: Detours, thread: nat, t: nat, pointers: seq<nat>, detours: seq<Word>, os: seq<nat> -> Environment,
                       os': seq<nat> -> Environment, ghost first: seq<Insn>)
    returns (n: nat, ghost hooks: seq<Hook>, ghost hooked: Memory)
    requires d.Valid() && d.pendingThread == 0 && thread != 0 && t < TWO32
    requires Session(d.space.bytes, d.mapped, t, pointers, detours) && Moves(d.space.bytes, t, first)
    requires SoundSystem(os, d.mapped) && SoundSystem(os', d.mapped) && Willing(os')
    modifies d`pendingThread, d`pendingError, d`pendingPointer, d`operations, d`start, d.space, d.pages, d.heap
    ensures d.Valid() && d.pendingThread == 0 && SameMapped(old(d.space.bytes), d.space.bytes, d.mapped)
    ensures d.heap.live == old(d.heap.live)
    ensures n > 0 ==> 0 < Taken(old(d.space.bytes), t, first) && t + Taken(old(d.space.bytes), t, first) <= TWO32
    ensures d.pages.protections == old(d.pages.protections) <==>
            n == 0 || Uniform(old(d.pages.protections), t, Taken(old(d.space.bytes), t, first))
    ensures Willing(os) && SIZE_OF_JMP <= Taken(old(d.space.bytes), t, first)
            && old(Room(d, os, d.space.bytes, t, detours, |pointers|)) ==>
      n == |pointers|
    ensures |hooks| == n <= |pointers| && Stacked(hooked, t, hooks, old(d.space.bytes)) && Apart(t, hooks)
    ensures forall k :: 0 <= k < n ==> hooks[k].pointer == pointers[k] && hooks[k].detour == detours[k]
  {
    hide RegionOf, U32At, Moves, SkipJmp, Settled, Sound, Session, Room, Taken, Tidy, Uniform;
    ghost var original, s, live := d.space.bytes, d.pages.protections, d.heap.live;
    ghost var cb := Taken(original, t, first);
    TakenInRange(original, t, first);
    SessionStarts(d, original, t, pointers, detours);
    n, hooks := StackHooks(d, thread, t, pointers, detours, os, original, first);
    hooked := d.space.bytes;
    UnstackHooks(d, thread, t, pointers, detours, os', n, original, hooks, s, live, cb);
    AllBack(d, original, t, pointers, detours);
    TidyEnds(d.space.bytes, d.pages.protections, d.heap.live, s, live, t, cb, n > 0);
  }

  lemma {:induction false} TidyEnds(m: Memory, s: Protections, live: set<nat>, s0: Protections, live0: set<nat>, t: nat, n: nat, ever: bool)
    requires Tidy(m, s, live, s0, live0, t, n, [], ever) && t + n <= TWO32 && (ever ==> 0 < n)
    ensures live == live0
    ensures s == s0 <==> !ever || Uniform(s0, t, n)
  {
    hide Protected, Uniform;
    if ever {
      SetIsUniform(s0, t, n);
    }
  }

  lemma {:induction false} SessionStarts(d: Detours, original: Memory, t: nat, pointers: seq<nat>, detours: seq<Word>)
    requires d.Valid() && d.pendingThread == 0 && t < TWO32 && d.space.bytes == original
    requires Session(original, d.mapped, t, pointers, detours)
    ensures Standing(d, original, t, pointers, detours, [])
  {
    hide RegionOf, U32At, Settled;
  }

  lemma {:induction false} SameU32(m: Memory, m': Memory, a: nat)
    requires |m| == |m'| && a + 4 <= |m| && U32At(m, a) == U32At(m', a)
    ensures forall k :: a <= k < a + 4 ==> m'[k] == m[k]
  {
    SameDigits(m[a], m[a + 1], m[a + 2], m[a + 3], m'[a], m'[a + 1], m'[a + 2], m'[a + 3]);
  }

  lemma {:induction false} SameDigits(a: Byte, b: Byte, c: Byte, d: Byte, a': Byte, b': Byte, c': Byte, d': Byte)
    requires a as int + 0x100 * b as int + 0x1_0000 * c as int + 0x100_0000 * d as int
          == a' as int + 0x100 * b' as int + 0x1_0000 * c' as int + 0x100_0000 * d' as int
    ensures a == a' && b == b' && c == c' && d == d'
  {
    LowDigit(a, b as int + 0x100 * c as int + 0x1_0000 * d as int, a', b' as int + 0x100 * c' as int + 0x1_0000 * d' as int);
    LowDigit(b, c as int + 0x100 * d as int, b', c' as int + 0x100 * d' as int);
    LowDigit(c, d as int, c', d' as int);
  }

  lemma {:induction false} LowDigit(a: Byte, r: int, a': Byte, r': int)
    requires a as int + 0x100 * r == a' as int + 0x100 * r'
    ensures a == a' && r == r'
  {
  }

  lemma {:induction false} AllBack(d: Detours, original: Memory, t: nat, pointers: seq<nat>, detours: seq<Word>)
    requires Standing(d, original, t, pointers, detours, [])
    ensures SameMapped(original, d.space.bytes, d.mapped)
  {
    hide RegionOf, U32At, Settled;
    var m := d.space.bytes;
    forall a | 0 <= a < |m| && RegionOf(a) in d.mapped
      ensures m[a] == original[a]
    {
      if InCell(pointers, a) {
        var k :| 0 <= k < |pointers| && pointers[k] <= a < pointers[k] + 4;
        SameU32(original, m, pointers[k]);
      }
    }
  }
}