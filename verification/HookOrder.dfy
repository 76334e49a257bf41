/** Hooks taken off a stack out of order. */
module HookOrder {
  import opened Words
  import opened IntelDecoder
  import opened Prologue
  import opened MovedCode
  import opened Simulation
  import opened Builder
  import opened Trampolines
  import opened Targets
  import opened Edits
  import opened Transactions
  import opened HookStack

  // o removes the hook h of t.
  predicate Removes(o: Operation, t: nat, h: Hook) { o.fIsRemove && o.pbTarget == t && o.pTrampoline == h.tramp && o.ppbPointer == h.pointer }

  // The stack without hook k.
  function Without(hooks: seq<Hook>, k: nat): seq<Hook>
    requires k < |hooks|
  {
    hooks[..k] + hooks[k + 1..]
  }

  // A removal puts the code back for which the trampoline was built.
  lemma {:induction false} RemovalRestores(code: Memory, m: Memory, m': Memory, mapped: set<nat>, live: set<nat>, t: nat, h: Hook, o: Operation)
    requires |m| == TWO32 && Built(code, t, m, h.tramp, h.plan, h.detour) && 0 < t && ApartFrom(t, h)
    requires MappedRange(mapped, t, WINDOW) && MappedRange(mapped, h.pointer, 4)
    requires Removes(o, t, h) && CommitsOne(m, m', mapped, live, o)
    ensures h.tramp + TRAMPOLINE_SIZE <= |m| && t + Saved(m, h.tramp) <= |code| && SIZE_OF_JMP <= Saved(m, h.tramp) <= RESTORE_SIZE
    ensures Holds(m', t, code[t..t + Saved(m, h.tramp)])
    ensures h.pointer + 4 <= |m'| && U32At(m', h.pointer) == t
  {
    hide Built, U32At, RegionOf, MappedRange, Committed, SameMapped, SameSlots;
    BuiltRemembers(code, t, m, h.tramp, h.plan, h.detour, mapped);
    BuiltInside(code, t, m, h.tramp, h.plan, h.detour);
    CommitWrites(m, m', mapped, live, o);
    var cb := Saved(m, h.tramp) as nat;
    assert TargetBytes(m, o) == code[t..t + cb] by {
      SameSlice(m, h.tramp + RB_RESTORE, code[t..t + cb]);
    }
    InRangeWhenMapped(mapped, t, h.pointer);
  }

  lemma {:induction false} BuiltInside(code: Memory, t: nat, m: Memory, p: nat, plan: seq<Insn>, detour: Word)
    requires Built(code, t, m, p, plan, detour)
    ensures t + WINDOW <= |code| && Taken(code, t, plan) <= RESTORE_SIZE
  {
    hide Recorded, CodeOf, Aligned, Taken, CodeOffset, Planned;
    MovesFits(code, t, plan);
    MovesInside(code, t, plan);
  }

  lemma {:induction false} SameSlice(m: Memory, a: nat, s: seq<Byte>)
    requires Holds(m, a, s)
    ensures a + |s| <= |m| && m[a..a + |s|] == s
  {
  }

  lemma {:induction false} SliceHolds(m: Memory, a: nat, s: seq<Byte>)
    requires a + |s| <= |m|
    ensures Holds(m, a, s) <==> m[a..a + |s|] == s
  {
    if m[a..a + |s|] == s {
      assert forall k :: 0 <= k < |s| ==> s[k] == m[a..a + |s|][k];
    }
  }

  // What stands at t in code stands there once it is restored.
  lemma {:induction false} Restored(code: Memory, m: Memory, t: nat, cb: nat, s: seq<Byte>)
    requires |s| <= cb && t + cb <= |code| && Holds(m, t, code[t..t + cb])
    ensures Holds(code, t, s) <==> Holds(m, t, s)
  {
    SameSlice(m, t, code[t..t + cb]);
    assert code[t..t + cb][..|s|] == code[t..t + |s|] && m[t..t + cb][..|s|] == m[t..t + |s|];
    SliceHolds(code, t, s);
    SliceHolds(m, t, s);
  }

  /**
   Any hook can be removed. Its pointer is reset and the target becomes what lay under the hook, a jump to the next
   older detour or the original code, so that a call of the target misses all newer detours. The remaining hooks are
   stacked if the removed one was the newest; if they are although it was not, then the newest one's detour is what
   lay under it all the same.
   */
  lemma {:induction false} AnyRemoved(m: Memory, m': Memory, mapped: set<nat>, live: set<nat>, t: nat, hooks: seq<Hook>, original: Memory,
                                      k: nat, o: Operation)
    requires |m| == TWO32 && 0 < t && Stacked(m, t, hooks, original) && Apart(t, hooks) && k < |hooks|
    requires Owned(mapped, live, t, Without(hooks, k)) && MappedRange(mapped, hooks[k].pointer, 4)
    requires Removes(o, t, hooks[k]) && CommitsOne(m, m', mapped, live, o)
    ensures hooks[k].pointer + 4 <= |m'| && U32At(m', hooks[k].pointer) == t
    ensures k > 0 ==> Holds(m', t, JumpBytes(t, hooks[k - 1].detour))
    ensures k == 0 ==>
      && hooks[0].tramp + TRAMPOLINE_SIZE <= |m| && t + Saved(m, hooks[0].tramp) <= |original|
      && Holds(m', t, original[t..t + Saved(m, hooks[0].tramp)])
    ensures k == |hooks| - 1 ==> Stacked(m', t, Without(hooks, k), original)
    ensures Stacked(m', t, Without(hooks, k), original) ==>
      var newest := hooks[|hooks| - 1].detour;
      || k == |hooks| - 1
      || (if k > 0 then hooks[k - 1].detour == newest else Holds(original, t, JumpBytes(t, newest)))
  {
    hide Built, U32At, RegionOf, MappedRange, Committed, Stacked, JumpBytes, CommitsOne, OnTop, Holds;
    var n, h, others := |hooks| - 1, hooks[k], Without(hooks, k);
    ApartAt(t, hooks);
    var code := HookBelow(m, t, hooks, original, k);
    RemovalRestores(code, m, m', mapped, live, t, h, o);
    var cb := Saved(m, h.tramp) as nat;
    if k > 0 {
      Restored(code, m', t, cb, JumpBytes(t, hooks[k - 1].detour));
    } else {
      OriginalRestored(original, code, m, t, cb);
    }
    if k == n {
      assert others == hooks[..n] && hooks[..n] + [h] == hooks;
      HookRemoved(m, m', mapped, live, t, others, original, h, o);
    } else if Stacked(m', t, others, original) {
      assert others != [] && others[|others| - 1] == hooks[n];
      StackTop(m', t, others, original);
      TopIsBuilt(m', t, hooks[n]);
      if k > 0 {
        JumpsToOne(m', t, hooks[n].detour, hooks[k - 1].detour);
      } else {
        Restored(code, m', t, cb, JumpBytes(t, hooks[n].detour));
        SameJump(original, code, t, hooks[n].detour);
      }
    }
  }

  lemma {:induction false} ApartAt(t: nat, hooks: seq<Hook>)
    requires Apart(t, hooks)
    ensures forall k :: 0 <= k < |hooks| ==> ApartFrom(t, hooks[k])
  {
  }

  lemma {:induction false} StackTop(m: Memory, t: nat, hooks: seq<Hook>, original: Memory)
    requires Stacked(m, t, hooks, original) && hooks != []
    ensures OnTop(m, t, hooks[|hooks| - 1])
  {
    hide OnTop, Uncovered;
  }

  lemma {:induction false} OriginalRestored(original: Memory, code: Memory, m: Memory, t: nat, cb: nat)
    requires SameWindow(original, code, t) && cb <= WINDOW && t + cb <= |code|
    ensures t + cb <= |original| && original[t..t + cb] == code[t..t + cb]
  {
  }

  lemma {:induction false} SameJump(original: Memory, code: Memory, t: nat, to: Word)
    requires SameWindow(original, code, t) && Holds(code, t, JumpBytes(t, to))
    ensures Holds(original, t, JumpBytes(t, to))
  {
    hide JumpBytes;
  }

  /**
   If the hook above a removed one is removed next, the target jumps to the detour of the hook that was removed
   first; and that one's pointer, which its detour calls, holds the target itself.
   */
  lemma {:induction false} RemovedComesBack(m: Memory, m': Memory, m'': Memory, mapped: set<nat>, live: set<nat>, live': set<nat>, t: nat,
                                            hooks: seq<Hook>, original: Memory, k: nat, o: Operation, o': Operation)
    requires |m| == TWO32 && 0 < t && Stacked(m, t, hooks, original) && Apart(t, hooks) && k + 1 < |hooks|
    requires Owned(mapped, live, t, Without(hooks, k)) && MappedRange(mapped, hooks[k].pointer, 4)
    requires Removes(o, t, hooks[k]) && CommitsOne(m, m', mapped, live, o)
    requires Removes(o', t, hooks[k + 1]) && CommitsOne(m', m'', mapped, live', o')
    ensures Holds(m'', t, JumpBytes(t, hooks[k].detour))
    ensures hooks[k].pointer + 4 <= |m''| && U32At(m'', hooks[k].pointer) == t
  {
    hide Built, U32At, RegionOf, MappedRange, Committed, Stacked, JumpBytes, CommitsOne, OnTop, Holds;
    var h, g, others := hooks[k], hooks[k + 1], Without(hooks, k);
    assert others[k] == g;
    ApartAt(t, hooks);
    AnyRemoved(m, m', mapped, live, t, hooks, original, k, o);
    var code := HookBelow(m, t, hooks, original, k + 1);
    SlotStays(m, m', mapped, live, o, g.tramp);
    BuiltKept(code, t, m, m', g.tramp, g.plan, g.detour);
    RemovalRestores(code, m', m'', mapped, live', t, g, o');
    Restored(code, m'', t, Saved(m', g.tramp), JumpBytes(t, h.detour));
    CellKept(m', m'', mapped, live', o', h.pointer);
    U32Kept(m', m'', h.pointer);
  }

  lemma {:induction false} SlotStays(m: Memory, m': Memory, mapped: set<nat>, live: set<nat>, o: Operation, p: nat)
    requires CommitsOne(m, m', mapped, live, o) && p in live
    ensures |m'| == |m| && forall a :: p <= a < p + TRAMPOLINE_SIZE && a < |m| ==> m'[a] == m[a]
  {
    hide Committed, RegionOf, U32At;
    assert SameSlot(m, m', p);
  }

  /** So a call of the target enters the removed detour, and one through its pointer enters it again. */
  lemma {:induction false} RemovedCallsItself<D>(cpu: Processor<D>, m: Memory, t: Word, pointer: nat, detour: Word, d: D)
    requires Holds(m, t, JumpBytes(t, detour)) && pointer + 4 <= |m| && U32At(m, pointer) == t && |m| <= TWO32
    ensures Steps(cpu, m, U32At(m, pointer), d, 1) == Some((detour, d))
  {
    hide Execute, Steps, JumpBytes, U32At, DecodeAt;
    JumpGoes(cpu, m, t, detour, d);
    OneStep(cpu, m, t, d);
    WordWraps(detour);
  }
}
