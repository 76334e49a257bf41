/** DetourTransactionBegin, DetourAttach, DetourDetach, DetourTransactionCommit and DetourTransactionAbort. */
module Transactions {
  import opened Words
  import opened IntelDecoder
  import opened Relocation
  import opened Prologue
  import opened MovedCode
  import opened Simulation
  import opened Builder
  import opened Pages
  import opened RegionSearch
  import opened Trampolines
  import opened Targets
  import opened Edits
  import opened Threads

  const NO_ERROR := 0
  const ERROR_INVALID_HANDLE := 6
  const ERROR_NOT_ENOUGH_MEMORY := 8
  const ERROR_INVALID_BLOCK := 9
  const ERROR_INVALID_PARAMETER := 87
  const ERROR_INVALID_OPERATION := 4317

  /** The errors are Windows' own, and all different. */
  lemma {:induction false} ErrorsAre()
    ensures NO_ERROR == 0 && ERROR_INVALID_HANDLE == 6 && ERROR_NOT_ENOUGH_MEMORY == 8 && ERROR_INVALID_BLOCK == 9
    ensures ERROR_INVALID_PARAMETER == 87 && ERROR_INVALID_OPERATION == 4317
  {
  }

  // What the system answers during one call: to the region search, to the import test, to the allocation
  // of an operation, to VirtualProtect (an error code, or 0), and what a fresh CDetourDis holds.
  datatype Environment = Environment(map_: AddressMap, imported: (nat, nat) -> bool, operationAllocated: bool, protectError: nat,
                                     unset: Byte)

  // Free memory is neither trampoline space nor the program's, and trampoline space is no module.
  ghost predicate Sound(env: Environment, regions: seq<nat>, mapped: set<nat>)
  {
    && Granular(Bits32, env.map_)
    && (forall b :: Usable(env.map_, b) ==> b !in regions && b !in mapped)
    && (forall c, a :: RegionOf(c) in regions ==> !env.imported(c, a))
  }

  // The state when the transaction began.
  datatype Snapshot = Snapshot(bytes: Memory, protections: Protections, live: set<nat>)

  // The trampolines of the attachments, or of the removals, on the list.
  ghost function Chosen(ops: seq<Operation>, remove: bool): set<nat> { set o | o in ops && o.fIsRemove == remove :: o.pTrampoline }

  ghost function Attached(ops: seq<Operation>): set<nat> { Chosen(ops, false) }

  ghost function Removed(ops: seq<Operation>): set<nat> { Chosen(ops, true) }

  // The protections to put back, newest first.
  ghost function Changes(m: Memory, ops: seq<Operation>): (r: seq<Change>)
    requires AllEditable(m, ops)
    ensures |r| == |ops| && forall k :: 0 <= k < |r| ==> InRange(r[k])
  {
    seq(|ops|, k requires 0 <= k < |ops| => ChangeOf(m, ops[k]))
  }

  ghost function ChangeOf(m: Memory, o: Operation): (r: Change)
    requires Editable(m, o)
    ensures InRange(r)
  {
    Change(o.pbTarget, Saved(m, o.pTrampoline), o.dwPerm)
  }

  ghost predicate AllOnePage(m: Memory, ops: seq<Operation>)
    requires AllEditable(m, ops)
  {
    forall k :: 0 <= k < |ops| ==> OnePage(ops[k].pbTarget, Saved(m, ops[k].pTrampoline))
  }

  // What a pending transaction has done so far can still be undone.
  ghost predicate Pending(m: Memory, s: Protections, mapped: set<nat>, live: set<nat>, ops: seq<Operation>, start: Snapshot)
  {
    && |m| == TWO32
    && (forall k :: 0 <= k < |ops| ==> OpOk(m, mapped, live, ops[k]))
    && ReleasesOnce(ops, false)
    && SameMapped(start.bytes, m, mapped)
    && live == start.live + Attached(ops) && start.live !! Attached(ops)
    && AllEditable(m, ops)
    && MadeWritable(s, Changes(m, ops), start.protections) && Reporting(Changes(m, ops), start.protections)
  }

  /** What a commit will write at the targets is writable by then, and executable: PAGE_EXECUTE_READWRITE is 40h. */
  lemma {:induction false} TargetsAreWritable(m: Memory, s: Protections, mapped: set<nat>, live: set<nat>, ops: seq<Operation>, start: Snapshot,
                                              k: nat, x: nat)
    requires Pending(m, s, mapped, live, ops, start) && k < |ops|
    requires ops[k].pTrampoline + TRAMPOLINE_SIZE <= |m| && ops[k].pbTarget <= x < ops[k].pbTarget + Saved(m, ops[k].pTrampoline)
    ensures x < TWO32 && Reported(s, x) == 0x40
  {
    hide Remembers, RegionOf, U32At, SameMapped, Reporting, ReleasesOnce, OpOk;
    var changes := Changes(m, ops);
    assert Editable(m, ops[k]) && changes[k] == ChangeOf(m, ops[k]);
    assert Touches(changes[k], x / PAGE_SIZE);
  }

  /** Undoing the queue restores the protections if and only if the oldest change to each page knew what it was. */
  lemma {:induction false} PendingRestores(m: Memory, s: Protections, mapped: set<nat>, live: set<nat>, ops: seq<Operation>, start: Snapshot)
    requires Pending(m, s, mapped, live, ops, start)
    ensures Undone(s, Changes(m, ops)) == start.protections <==> Restorable(Changes(m, ops), start.protections)
    ensures Restorable(Changes(m, ops), start.protections) <==> Recoverable(Changes(m, ops), start.protections)
    ensures AllOnePage(m, ops) ==> Restorable(Changes(m, ops), start.protections)
  {
    hide Recoverable;
    hide Remembers, RegionOf, U32At, SameMapped, Undone, Restorable, Reporting, MadeWritable, ReleasesOnce;
    var changes := Changes(m, ops);
    UndoneIffRestorable(s, changes, start.protections);
    RestorableIffRecoverable(changes, start.protections);
    if AllOnePage(m, ops) {
      forall k | 0 <= k < |changes|
        ensures InRange(changes[k]) && OnePage(changes[k].a, changes[k].n)
      {
        assert OnePage(ops[k].pbTarget, Saved(m, ops[k].pTrampoline)) && changes[k] == ChangeOf(m, ops[k]);
      }
      OnePageRestores(changes, start.protections);
    }
  }

  ghost predicate AllRemember(m: Memory, mapped: set<nat>, live: set<nat>)
  {
    forall p :: p in live ==> Remembers(m, mapped, p)
  }

  ghost predicate SameSlots(m: Memory, m': Memory, live: set<nat>)
  {
    forall p :: p in live ==> SameSlot(m, m', p)
  }

  // Work on other trampolines changes nothing of that.
  lemma {:induction false} PendingKept(m: Memory, m': Memory, s: Protections, mapped: set<nat>, live: set<nat>, ops: seq<Operation>,
                                       start: Snapshot)
    requires Pending(m, s, mapped, live, ops, start) && SameMapped(m, m', mapped) && SameSlots(m, m', live)
    ensures Pending(m', s, mapped, live, ops, start)
  {
    hide Remembers, RegionOf, OnePage, U32At, MadeWritable, Reporting, ReleasesOnce;
    forall k | 0 <= k < |ops|
      ensures OpOk(m', mapped, live, ops[k])
      ensures Saved(m', ops[k].pTrampoline) == Saved(m, ops[k].pTrampoline)
    {
      assert OpOk(m, mapped, live, ops[k]);
      RememberedKept(m, m', mapped, ops[k].pTrampoline);
    }
    OpsAreEditable(m', mapped, live, ops);
    forall k | 0 <= k < |ops|
      ensures ChangeOf(m', ops[k]) == ChangeOf(m, ops[k])
    {
    }
    assert Changes(m', ops) == Changes(m, ops);
  }

  // Undisturbed memory, as the program and the trampolines in use see it.
  lemma {:induction false} UndisturbedIsSame(m: Memory, m': Memory, regions: seq<nat>, mapped: set<nat>, live: set<nat>)
    requires Undisturbed(m, m', regions, live) && forall b :: b in regions ==> b !in mapped
    ensures SameMapped(m, m', mapped) && SameSlots(m, m', live)
  {
    hide RegionOf;
  }

  // One more operation on the list.
  lemma {:induction false} PendingPushed(m: Memory, s: Protections, mapped: set<nat>, live: set<nat>, ops: seq<Operation>, start: Snapshot,
                                         o: Operation, live': set<nat>)
    requires Pending(m, s, mapped, live, ops, start) && OpOk(m, mapped, live', o)
    requires live' == (if o.fIsRemove then live else live + {o.pTrampoline})
    requires o.fIsRemove || o.pTrampoline !in live
    requires o.dwPerm == Reported(s, o.pbTarget)
    ensures
      Pending(m, Protected(s, o.pbTarget, Saved(m, o.pTrampoline), PAGE_EXECUTE_READWRITE), mapped, live', [o] + ops, start)
  {
    hide Remembers, RegionOf, U32At, SameMapped, Protected, Changes, Chosen, MadeWritable, Reporting;
    var all := [o] + ops;
    forall k | 0 <= k < |all|
      ensures OpOk(m, mapped, live', all[k])
    {
      if k > 0 {
        assert OpOk(m, mapped, live, ops[k - 1]);
      }
    }
    OpsAreEditable(m, mapped, live', all);
    AttachedMore(o, ops);
    FreshOnTop(mapped, live, m, ops, o);
    assert Editable(m, all[0]);
    ChangesMore(m, ops, o);
    OneMoreChange(s, Changes(m, ops), start.protections, o.pbTarget, Saved(m, o.pTrampoline));
  }

  lemma {:induction false} FreshOnTop(mapped: set<nat>, live: set<nat>, m: Memory, ops: seq<Operation>, o: Operation)
    requires ReleasesOnce(ops, false) && (o.fIsRemove || o.pTrampoline !in live)
    requires forall k :: 0 <= k < |ops| ==> OpOk(m, mapped, live, ops[k])
    ensures ReleasesOnce([o] + ops, false)
  {
    hide Remembers, MappedRange;
    var all := [o] + ops;
    forall j, k | 0 <= j < k < |all| && all[j].fIsRemove == false
      ensures all[j].pTrampoline != all[k].pTrampoline
    {
      assert all[k] == ops[k - 1] && OpOk(m, mapped, live, ops[k - 1]);
      if j > 0 {
        assert all[j] == ops[j - 1];
      }
    }
  }

  lemma {:induction false} ChangesMore(m: Memory, ops: seq<Operation>, o: Operation)
    requires AllEditable(m, ops) && Editable(m, o) && AllEditable(m, [o] + ops)
    ensures Changes(m, [o] + ops) == [ChangeOf(m, o)] + Changes(m, ops)
  {
    hide U32At;
    var all := [o] + ops;
    assert all[0] == o && forall k :: 0 <= k < |ops| ==> all[k + 1] == ops[k];
  }

  lemma {:induction false} AttachedMore(o: Operation, ops: seq<Operation>)
    ensures Attached([o] + ops) == Attached(ops) + if o.fIsRemove then {} else {o.pTrampoline}
    ensures Removed([o] + ops) == Removed(ops) + if o.fIsRemove then {o.pTrampoline} else {}
  {
    var all := [o] + ops;
    assert forall x :: x in all <==> x == o || x in ops;
  }

  /**
   One attachment of the detour at t queued: its trampoline is finished, the target's old protection is
   noted and the target made writable.
   */
  ghost predicate Queues(m: Memory, s: Protections, ops: seq<Operation>, m': Memory, s': Protections, ops': seq<Operation>,
                         ppPointer: nat, t: nat, p: nat, plan: seq<Insn>, detour: Word)
  {
    && Built(m, t, m', p, plan, detour) && 0 < Taken(m, t, plan) && t + Taken(m, t, plan) <= TWO32
    && ops' == [Operation(false, ppPointer, t, p, Reported(s, t))] + ops
    && s' == Protected(s, t, Taken(m, t, plan), PAGE_EXECUTE_READWRITE)
  }

  // What a detach takes for the trampoline of a hook with this detour.
  predicate LooksHooked(m: Memory, p: nat, detour: Word)
    requires p + TRAMPOLINE_SIZE <= |m|
  {
    0 < m[p + CB_RESTORE] <= CODE_SIZE && U32At(m, p + PB_DETOUR) == detour
  }

  // The error of an attachment that has its slot, or 0.
  function FillError(m: Memory, t: nat, plan: seq<Insn>, env: Environment): nat
  {
    if Taken(m, t, plan) < SIZE_OF_JMP then ERROR_INVALID_BLOCK else env.protectError
  }

  // A finished trampoline remembers its target.
  lemma {:induction false} BuiltRemembers(code: Memory, target: nat, m: Memory, tramp: nat, plan: seq<Insn>, detour: Word, mapped: set<nat>)
    requires Built(code, target, m, tramp, plan, detour) && |m| == TWO32
    requires tramp + TRAMPOLINE_SIZE <= |m| && 0 < target && MappedRange(mapped, target, WINDOW)
    ensures Remembers(m, mapped, tramp) && Saved(m, tramp) == Taken(code, target, plan) && TargetOf(m, tramp) == target
    ensures SIZE_OF_JMP <= Taken(code, target, plan) <= RESTORE_SIZE && U32At(m, tramp + PB_DETOUR) == detour
    ensures Holds(m, tramp + RB_RESTORE, code[target..target + Taken(code, target, plan)])
  {
    hide CodeOf, Aligned, Taken, Planned, CodeOffset, SourceOffset, Le32, Breaks, EmittedLength, U32At, MappedRange;
    MovesFits(code, target, plan);
    var cb := Taken(code, target, plan);
    Holds32(m, tramp + PB_REMAIN, target + cb);
    Holds32(m, tramp + PB_DETOUR, detour);
    assert m[tramp + CB_RESTORE] == [cb][0];
  }

  lemma {:induction false} MappedIsSameWindow(m: Memory, m': Memory, mapped: set<nat>, a: nat)
    requires SameMapped(m, m', mapped) && MappedRange(mapped, a, WINDOW)
    ensures SameWindow(m, m', a) && SameWindow(m', m, a)
  {
    hide RegionOf;
  }

  /** The static variables of the transaction, with the allocator, the memory and the page table under them. */
  class Detours {
    const space: AddressSpace
    const pages: PageTable
    const heap: TrampolineHeap
    ghost const mapped: set<nat>            // the program's memory, in units of 64 KB
    var ignoreTooSmall: bool
    var retainRegions: bool
    var pendingThread: nat                  // 0 when no transaction is pending
    var pendingError: nat
    var pendingPointer: nat
    var operations: seq<Operation>          // newest first
    ghost var start: Snapshot

    ghost predicate Valid()
      reads this, space, pages, heap
    {
      && heap.space == space && heap.Valid()
      && (forall b :: b in heap.regions ==> b !in mapped)
      && AllRemember(space.bytes, mapped, heap.live)
      && (pendingThread == 0 ==> operations == [])
      && (pendingThread != 0 ==> Pending(space.bytes, pages.protections, mapped, heap.live, operations, start))
    }

    constructor (space: AddressSpace, pages: PageTable, ghost mapped: set<nat>)
      requires |space.bytes| == TWO32
      ensures Valid() && this.space == space && this.pages == pages && this.mapped == mapped && fresh(heap)
      ensures pendingThread == 0 && heap.live == {} && !ignoreTooSmall && !retainRegions
    {
      this.space, this.pages, this.mapped := space, pages, mapped;
      heap := new TrampolineHeap(space);
      ignoreTooSmall, retainRegions := false, false;
      pendingThread, pendingError, pendingPointer, operations := 0, 0, 0, [];
      start := Snapshot(space.bytes, pages.protections, {});
    }

    /**
     DetourTransactionBegin; writableError is the outcome of making the trampoline regions writable. If
     that fails, the transaction is pending all the same, in error.
     */
    method Begin(thread: nat, writableError: nat) returns (error: nat)
      requires Valid() && thread != 0
      modifies this`pendingThread, this`pendingError, this`pendingPointer, this`operations, this`start
      ensures Valid()
      ensures old(pendingThread) != 0 ==>
        && error == ERROR_INVALID_OPERATION && pendingThread == old(pendingThread) && pendingError == old(pendingError)
        && pendingPointer == old(pendingPointer) && operations == old(operations) && start == old(start)
      ensures old(pendingThread) == 0 ==>
        && error == writableError == pendingError && pendingThread == thread && operations == [] && pendingPointer == 0
        && start == Snapshot(space.bytes, pages.protections, heap.live)
    {
      if pendingThread != 0 {
        return ERROR_INVALID_OPERATION;
      }
      pendingThread := thread;
      operations := [];
      pendingPointer := 0;
      start := Snapshot(space.bytes, pages.protections, heap.live);
      NothingPending(space.bytes, pages.protections, mapped, heap.live);
      pendingError := writableError;
      return pendingError;
    }

    // The state in which an attach or a detach leaves a transaction that is not its caller's, or in error.
    twostate predicate Untouched()
      reads this, space, pages, heap
    {
      && operations == old(operations) && pendingError == old(pendingError) && pendingPointer == old(pendingPointer)
      && space.bytes == old(space.bytes) && pages.protections == old(pages.protections)
      && heap.live == old(heap.live) && heap.regions == old(heap.regions) && heap.free == old(heap.free)
    }

    // Nothing queued, nothing taken; the program's memory and its protections are as they were.
    twostate predicate NothingQueued()
      reads this, space, pages, heap
    {
      operations == old(operations) && heap.live == old(heap.live) && pages.protections == old(pages.protections)
    }

    // A region has a free slot within reach of the target, or one that has can be had.
    ghost predicate SlotAtHand(map_: AddressMap, t: nat)
      requires t + 6 <= |space.bytes|
      reads space, heap
    {
      !Starving(heap.regions, heap.free, map_, space.bytes, t)
    }

    // No region was allocated, or the one that the search finds, and at most one of its slots was taken.
    twostate predicate RegionFound(map_: AddressMap, t: nat)
      requires t + 6 <= |old(space.bytes)|
      reads heap
    {
      heap.regions == old(heap.regions) ||
      (|heap.regions| > 0
       && var b := heap.regions[0];
       Found(map_, old(space.bytes), t, b) && heap.regions == [b] + old(heap.regions) && b in heap.free && 906 <= |heap.free[b]|)
    }

    // The regions are still there, and no more than one slot was taken from any of them.
    twostate predicate OneTakenAtMost()
      requires old(heap.Valid()) && heap.Valid()
      reads heap, heap.space
    {
      forall b :: b in old(heap.regions) ==> b in heap.regions && |old(heap.free[b])| <= |heap.free[b]| + 1
    }

    // DetourAttachEx from the slot on: fills it and queues the operation, or gives it back.
    method AttachSlot(ppPointer: nat, pbTarget: Word, pDetour: Word, p: nat, env: Environment, ghost plan: seq<Insn>)
      returns (error: nat)
      requires heap.space == space && heap.Valid() && p in heap.live && pendingThread != 0 && pendingError == NO_ERROR
      requires forall b :: b in heap.regions ==> b !in mapped
      requires AllRemember(space.bytes, mapped, heap.live - {p})
      requires Pending(space.bytes, pages.protections, mapped, heap.live - {p}, operations, start)
      requires 0 < ppPointer && MappedRange(mapped, ppPointer, 4)
      requires REGION_SIZE <= pbTarget && MappedRange(mapped, pbTarget, WINDOW) && Moves(space.bytes, pbTarget, plan)
      modifies this`pendingError, this`pendingPointer, this`operations, space, pages, heap`free, heap`live
      ensures Valid()
      ensures SameMapped(old(space.bytes), space.bytes, mapped)
      ensures SameSlots(old(space.bytes), space.bytes, old(heap.live) - {p})
      ensures error == NO_ERROR ==>
        && heap.live == old(heap.live) && heap.free == old(heap.free) && pendingPointer == old(pendingPointer)
        && Queues(old(space.bytes), old(pages.protections), old(operations), space.bytes, pages.protections, operations, ppPointer, pbTarget,
                  p, plan, pDetour)
      ensures error != NO_ERROR ==>
        && heap.live == old(heap.live) - {p} && pendingPointer == ppPointer
        && pages.protections == old(pages.protections) && operations == old(operations)
      ensures error == FillError(old(space.bytes), pbTarget, plan, env)
      ensures pendingError ==
        if error == ERROR_INVALID_BLOCK && Taken(old(space.bytes), pbTarget, plan) < SIZE_OF_JMP && ignoreTooSmall then NO_ERROR else error
    {
      hide RegionOf, Moves, Remembers, U32At, Built, Taken, IsSlot, Managed, Pending, Protected, MappedRange;
      ghost var m := space.bytes;
      ghost var others := heap.live - {p};
      LiveAreSlots(m, heap.pRegions, heap.regions, heap.free, heap.live);
      SlotIsNotMapped(mapped, p, pbTarget, WINDOW);
      SlotInMemory(m, heap.pRegions, heap.regions, heap.free, heap.live, p);
      var built := BuildTrampoline(space, pbTarget, p, pDetour, env.unset, plan);
      ManagedAfterUse(m, space.bytes, heap.pRegions, heap.regions, heap.free, heap.live, p);
      UseUndisturbs(m, space.bytes, heap.regions, others, mapped, p);
      PendingKept(m, space.bytes, pages.protections, mapped, others, operations, start);
      AllKept(m, space.bytes, mapped, others);
      if !built {
        error := ERROR_INVALID_BLOCK;
        if !ignoreTooSmall {
          pendingError := error;
        }
        GiveBack(p);
        pendingPointer := ppPointer;
        return;
      }
      if env.protectError != NO_ERROR {
        error := env.protectError;
        pendingError := error;
        GiveBack(p);
        pendingPointer := ppPointer;
        return;
      }
      BuiltRemembers(m, pbTarget, space.bytes, p, plan, pDetour, mapped);
      var cbTarget := Saved(space.bytes, p);
      ghost var s := pages.protections;
      var dwOld := pages.Protect(pbTarget, cbTarget, PAGE_EXECUTE_READWRITE);
      var o := Operation(false, ppPointer, pbTarget, p, dwOld);
      PendingPushed(space.bytes, s, mapped, others, operations, start, o, heap.live);
      operations := [o] + operations;
      error := NO_ERROR;
    }

    // detour_free_trampoline for a slot no operation uses.
    method GiveBack(p: nat)
      requires heap.space == space && heap.Valid() && p in heap.live && pendingThread != 0
      requires forall b :: b in heap.regions ==> b !in mapped
      requires AllRemember(space.bytes, mapped, heap.live - {p})
      requires Pending(space.bytes, pages.protections, mapped, heap.live - {p}, operations, start)
      modifies space, heap`free, heap`live
      ensures Valid() && heap.live == old(heap.live) - {p}
      ensures SameMapped(old(space.bytes), space.bytes, mapped)
      ensures SameSlots(old(space.bytes), space.bytes, old(heap.live) - {p})
    {
      hide RegionOf, Remembers, U32At, IsSlot, Managed, SlotEdited;
      ghost var m := space.bytes;
      ghost var others := heap.live - {p};
      LiveAreSlots(m, heap.pRegions, heap.regions, heap.free, heap.live);
      heap.Free(p);
      EditUndisturbs(m, space.bytes, heap.regions, others, p);
      UndisturbedIsSame(m, space.bytes, heap.regions, mapped, others);
      PendingKept(m, space.bytes, pages.protections, mapped, others, operations, start);
      AllKept(m, space.bytes, mapped, others);
    }

    // DetourAttachEx from the allocation of the operation on.
    method AttachResolved(ppPointer: nat, pbTarget: Word, pDetour: Word, env: Environment, ghost plan: seq<Insn>) returns (error: nat)
      requires Valid() && pendingThread != 0 && pendingError == NO_ERROR
      requires Sound(env, heap.regions, mapped) && 0 < ppPointer && MappedRange(mapped, ppPointer, 4)
      requires REGION_SIZE <= pbTarget && MappedRange(mapped, pbTarget, WINDOW) && Moves(space.bytes, pbTarget, plan)
      modifies this`pendingError, this`pendingPointer, this`operations, space, pages, heap
      ensures Valid()
      ensures SameMapped(old(space.bytes), space.bytes, mapped) && SameSlots(old(space.bytes), space.bytes, old(heap.live))
      ensures error == NO_ERROR ==>
        && pendingPointer == old(pendingPointer) && |operations| > 0
        && var p := operations[0].pTrampoline;
        && p !in old(heap.live) && heap.live == old(heap.live) + {p}
        && Queues(old(space.bytes), old(pages.protections), old(operations), space.bytes, pages.protections, operations, ppPointer, pbTarget,
                  p, plan, pDetour)
      ensures error == NO_ERROR ==> OneTakenAtMost() && RegionFound(env.map_, pbTarget)
      ensures error != NO_ERROR ==> NothingQueued() && pendingPointer == ppPointer
      ensures !env.operationAllocated ==> error == ERROR_NOT_ENOUGH_MEMORY
      ensures error == ERROR_NOT_ENOUGH_MEMORY
           || error == FillError(old(space.bytes), pbTarget, plan, env)
      ensures env.operationAllocated && old(SlotAtHand(env.map_, pbTarget)) ==>
        error == FillError(old(space.bytes), pbTarget, plan, env)
      ensures pendingError ==
        if env.operationAllocated && error == ERROR_INVALID_BLOCK && Taken(old(space.bytes), pbTarget, plan) < SIZE_OF_JMP && ignoreTooSmall
        then NO_ERROR else error
    {
      hide RegionOf, Moves, Remembers, U32At, Built, Taken, Pending, Starving, Found;
      ghost var m := space.bytes;
      ghost var live := heap.live;
      error := NO_ERROR;
      if !env.operationAllocated {
        error := ERROR_NOT_ENOUGH_MEMORY;
        pendingError, pendingPointer := error, ppPointer;
        return;
      }
      FoundIsUsable(env.map_, m, pbTarget);
      var slot := heap.Allocate(pbTarget, env.map_);
      UndisturbedIsSame(m, space.bytes, heap.regions, mapped, live);
      PendingKept(m, space.bytes, pages.protections, mapped, live, operations, start);
      AllKept(m, space.bytes, mapped, live);
      if slot.None? {
        error := ERROR_NOT_ENOUGH_MEMORY;
        pendingError, pendingPointer := error, ppPointer;
        return;
      }
      var p := slot.value;
      assert heap.live - {p} == live;
      ghost var m1 := space.bytes;
      MappedIsSameWindow(m, m1, mapped, pbTarget);
      MovesIsLocal(m, m1, pbTarget, plan);
      error := AttachSlot(ppPointer, pbTarget, pDetour, p, env, plan);
      if error == NO_ERROR {
        BuiltIsLocal(m1, m, pbTarget, space.bytes, p, plan, pDetour);
      }
    }

    // What an attach may be asked for: a pointer cell of the program and a prologue that can be moved.
    ghost predicate Attachable(ppPointer: nat, env: Environment, plan: seq<Insn>)
      reads this, space, heap
    {
      && Sound(env, heap.regions, mapped) && MappedRange(mapped, ppPointer, 4)
      && (WordAt(space.bytes, ppPointer) != 0 ==>
            var t := SkipJmp(space.bytes, env.imported, WordAt(space.bytes, ppPointer));
            REGION_SIZE <= t && MappedRange(mapped, t, WINDOW) && Moves(space.bytes, t, plan))
    }

    /**
     DetourAttach. A caller that does not own the transaction, or a pending error, changes nothing. Any
     failure leaves nothing queued and no slot taken. Success queues one operation, but for a detour
     that is its own target, which is not reported as an error and not queued either.
     */
    method Attach(thread: nat, ppPointer: nat, pDetour: Word, env: Environment, ghost plan: seq<Insn>) returns (error: nat)
      requires Valid() && thread != 0
      requires pDetour != 0 && pendingThread == thread && pendingError == NO_ERROR && ppPointer != 0 ==> Attachable(ppPointer, env, plan)
      modifies this`pendingError, this`pendingPointer, this`operations, space, pages, heap
      ensures Valid()
      ensures pDetour == 0 || old(pendingThread) != thread || old(pendingError) != NO_ERROR || ppPointer == 0 ==>
        && Untouched()
        && error == if pDetour == 0 then ERROR_INVALID_PARAMETER
                    else if pendingThread != thread then ERROR_INVALID_OPERATION
                    else if pendingError != NO_ERROR then pendingError
                    else ERROR_INVALID_HANDLE
      ensures SameMapped(old(space.bytes), space.bytes, mapped) && SameSlots(old(space.bytes), space.bytes, old(heap.live))
      ensures error != NO_ERROR ==> NothingQueued()
      ensures error == NO_ERROR ==> OneTakenAtMost()
      ensures error == NO_ERROR ==>
        var t := SkipJmp(old(space.bytes), env.imported, WordAt(old(space.bytes), ppPointer));
        var d := SkipJmp(old(space.bytes), env.imported, pDetour);
        if d == t then NothingQueued()
        else
          && |operations| > 0
          && var p := operations[0].pTrampoline;
          && p !in old(heap.live) && heap.live == old(heap.live) + {p}
          && Queues(old(space.bytes), old(pages.protections), old(operations), space.bytes, pages.protections, operations, ppPointer, t, p,
                    plan, d)
      ensures pDetour != 0 && old(pendingThread) == thread && old(pendingError) == NO_ERROR && ppPointer != 0 ==>
        var t := SkipJmp(old(space.bytes), env.imported, WordAt(old(space.bytes), ppPointer));
        var d := SkipJmp(old(space.bytes), env.imported, pDetour);
        if WordAt(old(space.bytes), ppPointer) == 0 then error == ERROR_INVALID_HANDLE
        else if d == t then error == NO_ERROR && heap.regions == old(heap.regions)
        else
          && (!env.operationAllocated ==> error == ERROR_NOT_ENOUGH_MEMORY)
          && (error == ERROR_NOT_ENOUGH_MEMORY || error == FillError(old(space.bytes), t, plan, env))
          && (env.operationAllocated && old(SlotAtHand(env.map_, t)) ==> error == FillError(old(space.bytes), t, plan, env))
          && (error == NO_ERROR ==> RegionFound(env.map_, t))
      ensures pDetour != 0 && old(pendingThread) == thread && ppPointer != 0 ==>
        pendingError == error || (pendingError == NO_ERROR && error == ERROR_INVALID_BLOCK && ignoreTooSmall)
      ensures pDetour != 0 && old(pendingThread) == thread && old(pendingError) == NO_ERROR && ppPointer != 0 ==>
        var t := SkipJmp(old(space.bytes), env.imported, WordAt(old(space.bytes), ppPointer));
        var d := SkipJmp(old(space.bytes), env.imported, pDetour);
        pendingPointer == if error == NO_ERROR && d != t then old(pendingPointer) else ppPointer
    {
      hide RegionOf, Moves, Remembers, U32At, Built, Taken, Pending, SkipJmp, Queues, SlotAtHand, RegionFound;
      NothingChanges(space.bytes, mapped, heap.live);
      if pDetour == 0 {
        return ERROR_INVALID_PARAMETER;
      }
      if pendingThread != thread {
        return ERROR_INVALID_OPERATION;
      }
      if pendingError != NO_ERROR {
        return pendingError;
      }
      if ppPointer == 0 {
        return ERROR_INVALID_HANDLE;
      }
      var value := WordAt(space.bytes, ppPointer);
      if value == 0 {
        error := ERROR_INVALID_HANDLE;
        pendingError, pendingPointer := error, ppPointer;
        return;
      }
      var pbTarget := SkipJmp(space.bytes, env.imported, value);
      var pbDetour := SkipJmp(space.bytes, env.imported, pDetour);
      if pbDetour == pbTarget {
        error := NO_ERROR;
        if !ignoreTooSmall {
          pendingError := error;
        }
        pendingPointer := ppPointer;
        return;
      }
      error := AttachResolved(ppPointer, pbTarget, pbDetour, env, plan);
    }

    /**
     DetourDetach. It queues the removal of a hook, which may be queued for removal already, if the detour is the
     one that was attached, and changes nothing otherwise. What is not a hook must not look like one.
     */
    method Detach(thread: nat, ppPointer: nat, pDetour: Word, env: Environment) returns (error: nat)
      requires Valid() && thread != 0
      requires pDetour != 0 && pendingThread == thread && pendingError == NO_ERROR && ppPointer != 0 ==>
        && MappedRange(mapped, ppPointer, 4)
        && (WordAt(space.bytes, ppPointer) != 0 ==>
              var p := SkipJmp(space.bytes, env.imported, WordAt(space.bytes, ppPointer));
              p in heap.live || (p + TRAMPOLINE_SIZE <= |space.bytes| && !LooksHooked(space.bytes, p, SkipJmp(space.bytes, env.imported, pDetour))))
      modifies this`pendingError, this`pendingPointer, this`operations, pages
      ensures Valid()
      ensures old(pendingThread) != thread || old(pendingError) != NO_ERROR || pDetour == 0 || ppPointer == 0 ==>
        && Untouched()
        && error == if pendingThread != thread then ERROR_INVALID_OPERATION
                    else if pendingError != NO_ERROR then pendingError
                    else if pDetour == 0 then ERROR_INVALID_PARAMETER
                    else ERROR_INVALID_HANDLE
      ensures error != NO_ERROR ==> NothingQueued()
      ensures error == NO_ERROR ==>
        var p := SkipJmp(space.bytes, env.imported, WordAt(space.bytes, ppPointer));
        && p in heap.live && Remembers(space.bytes, mapped, p)
        && U32At(space.bytes, p + PB_DETOUR) == SkipJmp(space.bytes, env.imported, pDetour)
        && operations == [Operation(true, ppPointer, TargetOf(space.bytes, p), p, Reported(old(pages.protections), TargetOf(space.bytes, p)))]
                         + old(operations)
        && pages.protections ==
           Protected(old(pages.protections), TargetOf(space.bytes, p), Saved(space.bytes, p), PAGE_EXECUTE_READWRITE)
      ensures pDetour != 0 && old(pendingThread) == thread && old(pendingError) == NO_ERROR && ppPointer != 0 ==>
        var value := WordAt(space.bytes, ppPointer);
        error == if value == 0 then ERROR_INVALID_HANDLE
                 else if !env.operationAllocated then ERROR_NOT_ENOUGH_MEMORY
                 else if SkipJmp(space.bytes, env.imported, value) !in heap.live
                      || WordAt(space.bytes, SkipJmp(space.bytes, env.imported, value) + PB_DETOUR)
                         != SkipJmp(space.bytes, env.imported, pDetour) then ERROR_INVALID_BLOCK
                 else env.protectError
      ensures old(pendingThread) == thread && pDetour != 0 && ppPointer != 0 ==>
        pendingError == error || (pendingError == NO_ERROR && error == ERROR_INVALID_BLOCK && ignoreTooSmall)
      ensures pDetour != 0 && old(pendingThread) == thread && old(pendingError) == NO_ERROR && ppPointer != 0 ==>
        pendingPointer == if error == NO_ERROR then old(pendingPointer) else ppPointer
    {
      hide RegionOf, U32At, Pending, SkipJmp, Managed, IsSlot;
      if pendingThread != thread {
        return ERROR_INVALID_OPERATION;
      }
      if pendingError != NO_ERROR {
        return pendingError;
      }
      if pDetour == 0 {
        return ERROR_INVALID_PARAMETER;
      }
      if ppPointer == 0 {
        return ERROR_INVALID_HANDLE;
      }
      var value := WordAt(space.bytes, ppPointer);
      if value == 0 {
        error := ERROR_INVALID_HANDLE;
        pendingError, pendingPointer := error, ppPointer;
        return;
      }
      if !env.operationAllocated {
        error := ERROR_NOT_ENOUGH_MEMORY;
        pendingError, pendingPointer := error, ppPointer;
        return;
      }
      var pTrampoline := SkipJmp(space.bytes, env.imported, value);
      var pbDetour := SkipJmp(space.bytes, env.imported, pDetour);
      assert pTrampoline in heap.live ==> Remembers(space.bytes, mapped, pTrampoline);
      var cbTarget: nat := space.bytes[pTrampoline + CB_RESTORE];
      var pbTarget := U32At(space.bytes, pTrampoline + PB_REMAIN) - cbTarget;
      if cbTarget == 0 || cbTarget > CODE_SIZE || U32At(space.bytes, pTrampoline + PB_DETOUR) != pbDetour {
        error := ERROR_INVALID_BLOCK;
        if !ignoreTooSmall {
          pendingError := error;
        }
        pendingPointer := ppPointer;
        return;
      }
      if env.protectError != NO_ERROR {
        error := env.protectError;
        pendingError, pendingPointer := error, ppPointer;
        return;
      }
      ghost var s := pages.protections;
      var dwOld := pages.Protect(pbTarget, cbTarget, PAGE_EXECUTE_READWRITE);
      var o := Operation(true, ppPointer, pbTarget, pTrampoline, dwOld);
      PendingPushed(space.bytes, s, mapped, heap.live, operations, start, o, heap.live);
      operations := [o] + operations;
      error := NO_ERROR;
    }

    // One operation carried out.
    method CarryOut(o: Operation, ghost m: Memory)
      requires |space.bytes| == |m| == TWO32 && Editable(m, o) && SameSlot(m, space.bytes, o.pTrampoline)
      requires o.pTrampoline < TWO32 && o.pbTarget == TargetOf(m, o.pTrampoline)
      requires o.pbTarget + WINDOW <= o.pTrampoline || o.pTrampoline + TRAMPOLINE_SIZE <= o.pbTarget
      modifies space
      ensures space.bytes ==
        Written(Written(old(space.bytes), o.pbTarget, TargetBytes(m, o)), o.ppbPointer, PointerBytes(o))
    {
      hide Written, JumpBytes, Breaks;
      var p := o.pTrampoline;
      U32Kept(m, space.bytes, p + PB_REMAIN);
      U32Kept(m, space.bytes, p + PB_DETOUR);
      if o.fIsRemove {
        var cb: nat := space.bytes[p + CB_RESTORE];
        assert space.bytes[p + RB_RESTORE..p + RB_RESTORE + cb] == m[p + RB_RESTORE..p + RB_RESTORE + cb];
        space.Store(o.pbTarget, space.bytes[p + RB_RESTORE..p + RB_RESTORE + cb]);
        space.Store(o.ppbPointer, Le32(o.pbTarget));
      } else {
        ghost var m0 := space.bytes;
        var pbRemain := U32At(space.bytes, p + PB_REMAIN);
        var jump := JumpBytes(o.pbTarget, U32At(space.bytes, p + PB_DETOUR));
        space.Store(o.pbTarget, jump);
        FillBreaks(space, o.pbTarget + SIZE_OF_JMP, pbRemain);
        WrittenTwice(m0, o.pbTarget, jump, Breaks(pbRemain - (o.pbTarget + SIZE_OF_JMP)));
        space.Store(o.ppbPointer, Le32(p));
      }
    }

    // The first loop of a commit: inserts or removes each of the detours.
    method CarryOutAll()
      requires Valid() && pendingThread != 0
      modifies space
      ensures AllEditable(old(space.bytes), operations) && space.bytes == Committed(old(space.bytes), operations)
      ensures heap.Valid() && AllRemember(space.bytes, mapped, heap.live)
      ensures SameSlots(old(space.bytes), space.bytes, heap.live)
    {
      hide RegionOf, U32At, IsSlot, Managed, Remembers, TargetBytes, PointerBytes, Committed;
      ghost var m := space.bytes;
      LiveAreSlots(m, heap.pRegions, heap.regions, heap.free, heap.live);
      OpsAreEditable(m, mapped, heap.live, operations);
      assert operations[..0] == [];
      NothingCommitted(m);
      var k := 0;
      while k < |operations|
        invariant k <= |operations| && space.bytes == Committed(m, operations[..k])
        decreases |operations| - k
      {
        var o := operations[k];
        assert OpOk(m, mapped, heap.live, o);
        CommitWritesMapped(m, mapped, heap.live, operations[..k]);
        UnmappedSlotKept(m, space.bytes, mapped, o.pTrampoline);
        TargetApart(m, mapped, o.pTrampoline);
        CommittedNext(m, operations, k);
        CarryOut(o, m);
        k := k + 1;
      }
      assert operations[..k] == operations;
      CommitWritesMapped(m, mapped, heap.live, operations);
      ManagedElsewhere(m, space.bytes, heap.pRegions, heap.regions, heap.free, heap.live);
      forall p | p in heap.live
        ensures SameSlot(m, space.bytes, p)
      {
        UnmappedSlotKept(m, space.bytes, mapped, p);
      }
      AllKept(m, space.bytes, mapped, heap.live);
    }

    // The last loop of a commit and of an abort: puts the protections back, newest first, and gives back the
    // trampolines of the removals or of the attachments.
    method ReleaseEach(removals: bool) returns (freed: bool)
      requires heap.space == space && |space.bytes| == TWO32 && AllFit(operations)
      modifies space, pages
      ensures space.bytes == Freed(old(space.bytes), ToFree(operations, removals))
      ensures pages.protections == PutBack(old(space.bytes), old(pages.protections), operations, removals)
      ensures freed == (ToFree(operations, removals) != [])
    {
      hide RegionOf, IsSlot, FitsSlot, Protected, ReturnedTo, Freed, PutBack;
      ghost var m, s := space.bytes, pages.protections;
      assert operations[..0] == [] && operations[0..] == operations;
      NothingFreed(m);
      freed := false;
      var k := 0;
      while k < |operations|
        invariant k <= |operations| && |space.bytes| == TWO32
        invariant freed == (ToFree(operations[..k], removals) != [])
        invariant space.bytes == Freed(m, ToFree(operations[..k], removals))
        invariant PutBack(space.bytes, pages.protections, operations[k..], removals) == PutBack(m, s, operations, removals)
        decreases |operations| - k
      {
        var o := operations[k];
        assert FitsSlot(o.pTrampoline);
        SlotFits(o.pTrampoline);
        FreedNext(m, operations, k, removals);
        PutBackNext(space.bytes, pages.protections, operations, k, removals);
        var cbRestore: nat := space.bytes[o.pTrampoline + CB_RESTORE];
        if 0 < cbRestore && o.pbTarget + cbRestore <= TWO32 {
          var dwOld := pages.Protect(o.pbTarget, cbRestore, o.dwPerm);
        }
        if o.fIsRemove == removals {
          heap.Return(o.pTrampoline);
          freed := true;
        }
        k := k + 1;
      }
      assert operations[..k] == operations && operations[k..] == [];
      NothingPutBack(space.bytes, pages.protections, removals);
    }

    // What that comes to: with every trampoline given back once, the changes are undone and the free chains kept.
    method Release(removals: bool) returns (freed: bool)
      requires heap.space == space && heap.Valid() && |space.bytes| == TWO32
      requires forall b :: b in heap.regions ==> b !in mapped
      requires forall k :: 0 <= k < |operations| ==> OpOk(space.bytes, mapped, heap.live, operations[k])
      modifies space, pages, heap`free, heap`live
      ensures AllEditable(old(space.bytes), operations) && AllFit(operations)
      ensures space.bytes == Freed(old(space.bytes), ToFree(operations, removals))
      ensures pages.protections == PutBack(old(space.bytes), old(pages.protections), operations, removals)
      ensures ReleasesOnce(operations, removals) ==>
        && heap.Valid() && heap.live == old(heap.live) - Chosen(operations, removals) && freed == (Chosen(operations, removals) != {})
        && (!freed ==> heap.free == old(heap.free))
        && SameMapped(old(space.bytes), space.bytes, mapped) && SameSlots(old(space.bytes), space.bytes, heap.live)
        && pages.protections == Undone(old(pages.protections), Changes(old(space.bytes), operations))
    {
      hide RegionOf, U32At, IsSlot, Managed, Remembers, FitsSlot, Undone, SameMapped, SameSlots, Freed, PutBack, ToFree;
      ghost var m, s, live := space.bytes, pages.protections, heap.live;
      OpsAreEditable(m, mapped, live, operations);
      OpsFit(m, heap.pRegions, heap.regions, heap.free, live, mapped, operations);
      freed := ReleaseEach(removals);
      if ReleasesOnce(operations, removals) {
        ghost var ps := ToFree(operations, removals);
        ToFreeIsChosen(operations, removals);
        ToFreeOnce(operations, removals);
        ChosenInUse(m, mapped, live, operations, removals);
        PutBackIsUndone(m, s, operations, mapped, live, removals);
        ghost var f := FreedIsManaged(m, heap.pRegions, heap.regions, heap.free, live, mapped, ps);
        heap.free := f;
        heap.live := live - Elements(ps);
      }
    }

    // What an abort arrives at, whoever asks for it.
    twostate predicate Aborted()
      requires old(AllEditable(space.bytes, operations))
      reads this, space, pages, heap
    {
      && pendingThread == 0 && operations == [] && pendingError == old(pendingError) && pendingPointer == old(pendingPointer)
      && SameMapped(old(start).bytes, space.bytes, mapped) && heap.live == old(start).live
      && SameSlots(old(space.bytes), space.bytes, heap.live)
      && pages.protections == Undone(old(pages.protections), old(Changes(space.bytes, operations)))
      && (pages.protections == old(start).protections <==> old(Restorable(Changes(space.bytes, operations), start.protections)))
    }

    /**
     DetourTransactionAbort: the program's memory and the trampolines in use are as when the transaction began,
     and so are its page protections exactly if the oldest change to each page knew what it was.
     */
    method Abort(thread: nat) returns (error: nat)
      requires Valid() && thread != 0
      modifies this`pendingThread, this`operations, space, pages, heap`free, heap`live
      ensures Valid()
      ensures old(pendingThread) != thread ==>
        error == ERROR_INVALID_OPERATION && Untouched() && pendingThread == old(pendingThread) && start == old(start)
      ensures old(pendingThread) == thread ==> error == NO_ERROR && old(AllEditable(space.bytes, operations)) && Aborted()
    {
      hide RegionOf, U32At, IsSlot, Managed, Remembers, Undone, OpOk, Restorable, Reporting, MadeWritable, Freed, PutBack, ToFree, FitsSlot, SameSlots;
      if pendingThread != thread {
        return ERROR_INVALID_OPERATION;
      }
      ghost var m := space.bytes;
      PendingRestores(m, pages.protections, mapped, heap.live, operations, start);
      var freed := Release(false);
      assert heap.live == start.live;
      AllKept(m, space.bytes, mapped, heap.live);
      operations := [];
      pendingThread := 0;
      error := NO_ERROR;
    }

    // What a commit arrives at.
    twostate predicate CommittedAll()
      requires old(AllEditable(space.bytes, operations))
      reads this, space, pages, heap
    {
      && pendingThread == 0 && operations == [] && pendingError == NO_ERROR
      && SameMapped(Committed(old(space.bytes), old(operations)), space.bytes, mapped)
      && heap.live == old(start).live + Attached(old(operations)) - Removed(old(operations))
      && SameSlots(old(space.bytes), space.bytes, heap.live)
      && pages.protections == Undone(old(pages.protections), old(Changes(space.bytes, operations)))
      && (pages.protections == old(start).protections <==> old(Restorable(Changes(space.bytes, operations), start.protections)))
      && (Removed(old(operations)) == {} ==> heap.free == old(heap.free))
      && heap.regions ==
         (if Removed(old(operations)) != {} && !retainRegions then InUse(old(heap.regions), heap.live) else old(heap.regions))
    }

    /**
     DetourTransactionCommitEx: carries out every queued operation, or if any failed to queue none, as an
     abort does. failed is the pointer reported through pppFailedPointer, and contexts are where the suspended
     threads are stopped. No hook may be queued for removal twice: what happens then is the lemma FreedChain.
     */
    method Commit(thread: nat, contexts: seq<Word>) returns (error: nat, failed: nat, contexts': seq<Word>)
      requires Valid() && thread != 0
      requires pendingThread == thread && pendingError == NO_ERROR ==> ReleasesOnce(operations, true)
      modifies this`pendingThread, this`operations, space, pages, heap
      ensures Valid() && failed == old(pendingPointer)
      ensures old(pendingThread) != thread ==>
        error == ERROR_INVALID_OPERATION && Untouched() && pendingThread == old(pendingThread) && start == old(start)
      ensures old(pendingThread) == thread ==> error == old(pendingError) && old(AllEditable(space.bytes, operations))
      ensures old(pendingThread) == thread && error != NO_ERROR ==> Aborted()
      ensures old(pendingThread) == thread && error == NO_ERROR ==> CommittedAll()
      ensures |contexts'| == |contexts|
      ensures !(old(pendingThread) == thread && error == NO_ERROR) ==> contexts' == contexts
      ensures old(pendingThread) == thread && error == NO_ERROR ==>
        forall i :: 0 <= i < |contexts| ==> contexts'[i] == SentByAll(old(space.bytes), old(operations), contexts[i])
    {
      hide RegionOf, U32At, IsSlot, Managed, Remembers, Undone, OpOk, Committed, InUse, Leaves, Restorable, Reporting, MadeWritable,
        Freed, PutBack, ToFree, FitsSlot, SentByAll;
      failed, contexts' := pendingPointer, contexts;
      if pendingThread != thread {
        return ERROR_INVALID_OPERATION, failed, contexts';
      }
      if pendingError != NO_ERROR {
        error := Abort(thread);
        return pendingError, failed, contexts';
      }
      ghost var m, live := space.bytes, heap.live;
      PendingRestores(m, pages.protections, mapped, live, operations, start);
      CarryOutAll();
      ghost var m1 := space.bytes;
      SameOps(m, m1, mapped, live, operations);
      contexts' := RepairThreads(space, operations, contexts);
      SentAlike(m, m1, mapped, live, operations, contexts);
      var freed := Release(true);
      ghost var m2 := space.bytes;
      SlotsTwice(m, m1, m2, heap.live);
      AllKept(m, m2, mapped, heap.live);
      if freed && !retainRegions {
        AllLeave(m2, mapped, heap.regions, heap.live, heap.pRegions, heap.free);
        heap.FreeUnusedRegions();
        UndisturbedIsSame(m2, space.bytes, old(heap.regions), mapped, heap.live);
        SlotsTwice(m, m2, space.bytes, heap.live);
        AllKept(m, space.bytes, mapped, heap.live);
      }
      operations := [];
      pendingThread := 0;
      error := pendingError;
    }
  }

  ghost predicate AllFit(ops: seq<Operation>) { forall k :: 0 <= k < |ops| ==> FitsSlot(ops[k].pTrampoline) }

  lemma {:induction false} SlotFits(p: nat)
    requires FitsSlot(p)
    ensures p + TRAMPOLINE_SIZE <= TWO32
  {
  }

  // The trampolines to give back, in list order.
  ghost function ToFree(ops: seq<Operation>, removals: bool): (ps: seq<nat>)
    ensures forall p :: p in ps ==> exists k :: 0 <= k < |ops| && ops[k].pTrampoline == p
    decreases |ops|
  {
    if ops == [] then []
    else
      var n := |ops| - 1;
      ToFree(ops[..n], removals) + if ops[n].fIsRemove == removals then [ops[n].pTrampoline] else []
  }

  ghost function AfterRelease(m: Memory, o: Operation, removals: bool): (r: Memory)
    requires |m| == TWO32 && FitsSlot(o.pTrampoline)
    ensures |r| == |m|
  {
    if o.fIsRemove == removals then ReturnedTo(m, RegionOf(o.pTrampoline), o.pTrampoline) else m
  }

  // What the loop leaves of the protections. A trampoline given back has no size any more, and VirtualProtect
  // refuses to act on no bytes.
  ghost function PutBack(m: Memory, s: Protections, ops: seq<Operation>, removals: bool): Protections
    requires |m| == TWO32 && AllFit(ops)
    decreases |ops|
  {
    if ops == [] then s
    else
      var o := ops[0];
      assert FitsSlot(o.pTrampoline);
      PutBack(AfterRelease(m, o, removals), PutBackOne(m, s, o), ops[1..], removals)
  }

  ghost function PutBackOne(m: Memory, s: Protections, o: Operation): Protections
    requires |m| == TWO32 && FitsSlot(o.pTrampoline)
  {
    var cb := Saved(m, o.pTrampoline);
    if 0 < cb && o.pbTarget + cb <= TWO32 then Protected(s, o.pbTarget, cb, o.dwPerm) else s
  }

  lemma {:induction false} NothingFreed(m: Memory)
    requires |m| == TWO32
    ensures Freed(m, []) == m
  {
  }

  lemma {:induction false} NothingPutBack(m: Memory, s: Protections, removals: bool)
    requires |m| == TWO32
    ensures PutBack(m, s, [], removals) == s
  {
  }

  lemma {:induction false} FreedMore(m: Memory, ps: seq<nat>, p: nat)
    requires |m| == TWO32 && FitsSlot(p) && forall q :: q in ps ==> FitsSlot(q)
    ensures Freed(m, ps + [p]) == ReturnedTo(Freed(m, ps), RegionOf(p), p)
  {
    hide FitsSlot, ReturnedTo, RegionOf;
    var all := ps + [p];
    assert all[..|all| - 1] == ps && all[|all| - 1] == p;
  }

  lemma {:induction false} FreedNext(m: Memory, ops: seq<Operation>, k: nat, removals: bool)
    requires |m| == TWO32 && AllFit(ops) && k < |ops|
    ensures Freed(m, ToFree(ops[..k + 1], removals)) == AfterRelease(Freed(m, ToFree(ops[..k], removals)), ops[k], removals)
    ensures ToFree(ops[..k + 1], removals) == ToFree(ops[..k], removals) + if ops[k].fIsRemove == removals then [ops[k].pTrampoline] else []
  {
    hide FitsSlot, ReturnedTo, RegionOf;
    assert ops[..k + 1][..k] == ops[..k] && FitsSlot(ops[k].pTrampoline);
    var ps, all := ToFree(ops[..k], removals), ToFree(ops[..k + 1], removals);
    if ops[k].fIsRemove == removals {
      assert all == ps + [ops[k].pTrampoline];
      FreedMore(m, ps, ops[k].pTrampoline);
    } else {
      assert all == ps;
    }
  }

  lemma {:induction false} PutBackNext(m: Memory, s: Protections, ops: seq<Operation>, k: nat, removals: bool)
    requires |m| == TWO32 && AllFit(ops) && k < |ops|
    ensures FitsSlot(ops[k].pTrampoline)
    ensures PutBack(m, s, ops[k..], removals) ==
      PutBack(AfterRelease(m, ops[k], removals), PutBackOne(m, s, ops[k]), ops[k + 1..], removals)
  {
    hide FitsSlot, AfterRelease, PutBackOne;
    assert ops[k..][0] == ops[k] && ops[k..][1..] == ops[k + 1..];
  }

  lemma {:induction false} OpsFit(m: Memory, pRegions: Word, regions: seq<nat>, free: map<nat, seq<nat>>, live: set<nat>, mapped: set<nat>,
                                  ops: seq<Operation>)
    requires Managed(m, pRegions, regions, free, live) && |m| == TWO32
    requires forall k :: 0 <= k < |ops| ==> OpOk(m, mapped, live, ops[k])
    ensures AllFit(ops)
  {
    hide U32At, IsSlot, RegionOf, Linked, Remembers, MappedRange;
    forall k | 0 <= k < |ops|
      ensures FitsSlot(ops[k].pTrampoline)
    {
      assert OpOk(m, mapped, live, ops[k]);
      MaskFindsRegion(RegionOf(ops[k].pTrampoline), ops[k].pTrampoline);
    }
  }

  lemma {:induction false} ToFreeIsChosen(ops: seq<Operation>, removals: bool)
    ensures Elements(ToFree(ops, removals)) == Chosen(ops, removals)
    ensures ToFree(ops, removals) == [] <==> Chosen(ops, removals) == {}
    decreases |ops|
  {
    if ops != [] {
      var n := |ops| - 1;
      ToFreeIsChosen(ops[..n], removals);
      assert ops == ops[..n] + [ops[n]];
      var ps := ToFree(ops, removals);
      assert Chosen(ops, removals) == Chosen(ops[..n], removals) + if ops[n].fIsRemove == removals then {ops[n].pTrampoline} else {};
    }
  }

  lemma {:induction false} ToFreeOnce(ops: seq<Operation>, removals: bool)
    requires ReleasesOnce(ops, removals)
    ensures forall j, k :: 0 <= j < k < |ToFree(ops, removals)| ==> ToFree(ops, removals)[j] != ToFree(ops, removals)[k]
    decreases |ops|
  {
    if ops != [] {
      var n := |ops| - 1;
      ToFreeOnce(ops[..n], removals);
      ToFreeIsChosen(ops[..n], removals);
      var ps := ToFree(ops[..n], removals);
      forall j | 0 <= j < |ps|
        ensures ps[j] != ops[n].pTrampoline
      {
        assert ps[j] in Elements(ps);
      }
    }
  }

  lemma {:induction false} ChosenInUse(m: Memory, mapped: set<nat>, live: set<nat>, ops: seq<Operation>, removals: bool)
    requires forall k :: 0 <= k < |ops| ==> OpOk(m, mapped, live, ops[k])
    ensures Chosen(ops, removals) <= live
  {
    hide Remembers, MappedRange;
  }

  // With every trampoline given back once, each size is still there when it is needed.
  lemma {:induction false} PutBackIsUndone(m: Memory, s: Protections, ops: seq<Operation>, mapped: set<nat>, live: set<nat>, removals: bool)
    requires |m| == TWO32 && AllFit(ops) && ReleasesOnce(ops, removals) && AllEditable(m, ops)
    requires forall k :: 0 <= k < |ops| ==> OpOk(m, mapped, live, ops[k])
    ensures PutBack(m, s, ops, removals) == Undone(s, Changes(m, ops))
    decreases |ops|
  {
    hide FitsSlot, RegionOf, U32At, Protected, AfterRelease, Remembers, MappedRange;
    if ops != [] {
      var o, rest := ops[0], ops[1..];
      assert FitsSlot(o.pTrampoline) && OpOk(m, mapped, live, o) && Editable(m, o);
      var m1 := AfterRelease(m, o, removals);
      forall k | 0 <= k < |rest|
        ensures FitsSlot(rest[k].pTrampoline) && OpOk(m1, mapped, live, rest[k])
        ensures Saved(m1, rest[k].pTrampoline) == Saved(m, rest[k].pTrampoline)
      {
        assert rest[k] == ops[k + 1] && OpOk(m, mapped, live, rest[k]) && FitsSlot(ops[k + 1].pTrampoline);
        ReleaseElsewhere(m, o, removals, rest[k].pTrampoline);
        RememberedKept(m, m1, mapped, rest[k].pTrampoline);
      }
      OpsAreEditable(m1, mapped, live, rest);
      forall k | 0 <= k < |rest|
        ensures ChangeOf(m1, rest[k]) == ChangeOf(m, ops[k + 1])
      {
      }
      assert Changes(m, ops)[0] == ChangeOf(m, o) && Changes(m, ops)[1..] == Changes(m1, rest);
      SpareBytes(m, mapped, live, o);
      PutBackIsUndone(m1, PutBackOne(m, s, o), rest, mapped, live, removals);
    }
  }

  lemma {:induction false} SpareBytes(m: Memory, mapped: set<nat>, live: set<nat>, o: Operation)
    requires |m| == TWO32 && OpOk(m, mapped, live, o)
    ensures 0 < Saved(m, o.pTrampoline) && o.pbTarget + Saved(m, o.pTrampoline) <= TWO32
  {
    hide U32At, RegionOf;
  }

  lemma {:induction false} ReleaseElsewhere(m: Memory, o: Operation, removals: bool, p: nat)
    requires |m| == TWO32 && FitsSlot(o.pTrampoline) && FitsSlot(p) && (o.fIsRemove == removals ==> p != o.pTrampoline)
    ensures SameSlot(m, AfterRelease(m, o, removals), p)
  {
    hide IsSlot, ReturnedTo;
    if o.fIsRemove == removals {
      ReturnedEdits(m, RegionOf(o.pTrampoline), o.pTrampoline);
      DifferentSlots(p, o.pTrampoline);
      SlotBehindHeader(p, RegionOf(o.pTrampoline));
    }
  }

  lemma {:induction false} SlotBehindHeader(p: nat, b: nat)
    requires FitsSlot(p) && b % REGION_SIZE == 0
    ensures p + TRAMPOLINE_SIZE <= b + P_FREE || b + P_FREE + 4 <= p
  {
    hide IsSlot;
    MaskFindsRegion(RegionOf(p), p);
    if RegionOf(p) != b {
      RegionsApart(RegionOf(p), b);
    }
  }

  // Different slots in use given back.
  lemma {:induction false} FreedIsManaged(m: Memory, pRegions: Word, regions: seq<nat>, free: map<nat, seq<nat>>, live: set<nat>,
                                          mapped: set<nat>, ps: seq<nat>)
    returns (f: map<nat, seq<nat>>)
    requires Managed(m, pRegions, regions, free, live) && |m| == TWO32 && forall b :: b in regions ==> b !in mapped
    requires (forall p :: p in ps ==> FitsSlot(p) && p in live) && forall j, k :: 0 <= j < k < |ps| ==> ps[j] != ps[k]
    ensures Managed(Freed(m, ps), pRegions, regions, f, live - Elements(ps)) && (ps == [] ==> f == free)
    ensures SameMapped(m, Freed(m, ps), mapped) && SameSlots(m, Freed(m, ps), live - Elements(ps))
    decreases |ps|
  {
    hide U32At, IsSlot, RegionOf, Managed, ReturnedTo, FitsSlot;
    if ps == [] {
      f := free;
      assert live - Elements(ps) == live;
    } else {
      var n := |ps| - 1;
      var p, before := ps[n], ps[..n];
      assert FitsSlot(p) && p in live && forall j :: 0 <= j < n ==> before[j] == ps[j];
      f := FreedIsManaged(m, pRegions, regions, free, live, mapped, before);
      var m1, left := Freed(m, before), live - Elements(before);
      OneMoreElement(ps);
      assert p in left && live - Elements(ps) == left - {p};
      f := ReturnIsManaged(m1, pRegions, regions, f, left, mapped, p);
      SameTwice(m, m1, Freed(m, ps), mapped, left - {p});
    }
  }

  lemma {:induction false} SameTwice(m: Memory, m1: Memory, m2: Memory, mapped: set<nat>, live: set<nat>)
    requires SameMapped(m, m1, mapped) && SameMapped(m1, m2, mapped)
    requires SameSlots(m, m1, live) && SameSlots(m1, m2, live)
    ensures SameMapped(m, m2, mapped) && SameSlots(m, m2, live)
  {
    hide RegionOf;
  }

  lemma {:induction false} ReturnIsManaged(m: Memory, pRegions: Word, regions: seq<nat>, free: map<nat, seq<nat>>, live: set<nat>,
                                           mapped: set<nat>, p: nat)
    returns (f: map<nat, seq<nat>>)
    requires Managed(m, pRegions, regions, free, live) && |m| == TWO32 && (forall b :: b in regions ==> b !in mapped) && p in live && FitsSlot(p)
    ensures
      var m' := ReturnedTo(m, RegionOf(p), p);
      Managed(m', pRegions, regions, f, live - {p}) && SameMapped(m, m', mapped) && SameSlots(m, m', live - {p})
  {
    hide U32At, IsSlot, RegionOf, ReturnedTo, Linked, RegionOk, SlotEdited;
    var b := RegionOf(p);
    var m', left := ReturnedTo(m, b, p), live - {p};
    LiveAreSlots(m, pRegions, regions, free, live);
    RegionIsPlaced(m, b, free[b], live);
    ReturnedEdits(m, b, p);
    ReturnKeepsRegion(m, b, free[b], live, p);
    ManagedStep(m, m', pRegions, regions, free, live, b, [p] + free[b], left);
    f := free[b := [p] + free[b]];
    EditUndisturbs(m, m', regions, left, p);
    UndisturbedIsSame(m, m', regions, mapped, left);
  }

  // Where threads are sent is read from the trampolines alone.
  lemma {:induction false} SentAlike(m: Memory, m': Memory, mapped: set<nat>, live: set<nat>, ops: seq<Operation>, contexts: seq<Word>)
    requires |m| == |m'| == TWO32 && SameSlots(m, m', live) && forall k :: 0 <= k < |ops| ==> OpOk(m, mapped, live, ops[k])
    requires forall k :: 0 <= k < |ops| ==> ops[k].pTrampoline + TRAMPOLINE_SIZE <= TWO32
    ensures forall i :: 0 <= i < |contexts| ==> SentByAll(m', ops, contexts[i]) == SentByAll(m, ops, contexts[i])
  {
    hide SentByAll, OpOk;
    forall i | 0 <= i < |contexts|
      ensures SentByAll(m', ops, contexts[i]) == SentByAll(m, ops, contexts[i])
    {
      OneSentAlike(m, m', mapped, live, ops, contexts[i]);
    }
  }

  lemma {:induction false} OneSentAlike(m: Memory, m': Memory, mapped: set<nat>, live: set<nat>, ops: seq<Operation>, eip: Word)
    requires |m| == |m'| == TWO32 && SameSlots(m, m', live) && forall k :: 0 <= k < |ops| ==> OpOk(m, mapped, live, ops[k])
    requires forall k :: 0 <= k < |ops| ==> ops[k].pTrampoline + TRAMPOLINE_SIZE <= TWO32
    ensures SentByAll(m', ops, eip) == SentByAll(m, ops, eip)
    decreases |ops|
  {
    hide FirstTarget, FirstTrampoline, Remembers, MappedRange;
    if ops != [] {
      assert OpOk(m, mapped, live, ops[0]) && SameSlot(m, m', ops[0].pTrampoline);
      assert AlignArray(m', ops[0].pTrampoline) == AlignArray(m, ops[0].pTrampoline);
      OneSentAlike(m, m', mapped, live, ops[1..], SentBy(m, ops[0], eip));
    }
  }

  lemma {:induction false} NothingUndone(s: Protections)
    ensures Undone(s, []) == s
  {
  }

  lemma {:induction false} SlotsTwice(m: Memory, m': Memory, m'': Memory, live: set<nat>)
    requires SameSlots(m, m', live) && SameSlots(m', m'', live)
    ensures SameSlots(m, m'', live)
  {
  }

  // The operations are still sound after the targets and the pointers were written.
  lemma {:induction false} SameOps(m: Memory, m': Memory, mapped: set<nat>, live: set<nat>, ops: seq<Operation>)
    requires |m| == TWO32 && SameSlots(m, m', live) && |m'| == |m|
    requires forall k :: 0 <= k < |ops| ==> OpOk(m, mapped, live, ops[k])
    ensures forall k :: 0 <= k < |ops| ==> OpOk(m', mapped, live, ops[k])
    ensures AllEditable(m, ops) && AllEditable(m', ops) && Changes(m', ops) == Changes(m, ops)
  {
    hide Remembers, U32At, RegionOf;
    OpsAreEditable(m, mapped, live, ops);
    forall k | 0 <= k < |ops|
      ensures OpOk(m', mapped, live, ops[k]) && Saved(m', ops[k].pTrampoline) == Saved(m, ops[k].pTrampoline)
    {
      assert OpOk(m, mapped, live, ops[k]) && Editable(m, ops[k]);
      RememberedKept(m, m', mapped, ops[k].pTrampoline);
    }
    OpsAreEditable(m', mapped, live, ops);
    forall k | 0 <= k < |ops|
      ensures ChangeOf(m', ops[k]) == ChangeOf(m, ops[k])
    {
    }
  }

  // A finished trampoline's pbRemain is in the program's memory, so its region is not taken for empty.
  lemma {:induction false} AllLeave(m: Memory, mapped: set<nat>, regions: seq<nat>, live: set<nat>, pRegions: Word, free: map<nat, seq<nat>>)
    requires Managed(m, pRegions, regions, free, live) && AllRemember(m, mapped, live)
    requires forall b :: b in regions ==> b !in mapped
    ensures forall p :: p in live ==> Leaves(m, RegionOf(p), p)
  {
    hide U32At, IsSlot, RegionOf, RegionOk, Linked;
    forall p | p in live
      ensures Leaves(m, RegionOf(p), p)
    {
      assert Remembers(m, mapped, p);
      var remain := TargetOf(m, p) + Saved(m, p);
      assert RegionOf(remain) in mapped;
      RegionHolds(RegionOf(p), remain);
    }
  }

  lemma {:induction false} RegionHolds(b: nat, a: nat)
    ensures b % REGION_SIZE == 0 && b <= a < b + REGION_SIZE ==> RegionOf(a) == b
    ensures forall p :: RegionOf(p) == b ==> b % REGION_SIZE == 0
  {
  }

  lemma {:induction false} TargetApart(m: Memory, mapped: set<nat>, p: nat)
    requires Remembers(m, mapped, p) && IsSlot(RegionOf(p), p) && RegionOf(p) !in mapped
    ensures
      var t := TargetOf(m, p);
      t + WINDOW <= p || p + TRAMPOLINE_SIZE <= t
  {
    hide IsSlot, RegionOf, U32At;
    SlotIsNotMapped(mapped, p, TargetOf(m, p), WINDOW);
  }

  lemma {:induction false} NothingChanges(m: Memory, mapped: set<nat>, live: set<nat>)
    ensures SameMapped(m, m, mapped) && SameSlots(m, m, live)
  {
  }

  lemma {:induction false} AllKept(m: Memory, m': Memory, mapped: set<nat>, live: set<nat>)
    requires AllRemember(m, mapped, live) && SameSlots(m, m', live)
    ensures AllRemember(m', mapped, live)
  {
    hide Remembers;
    forall p | p in live
      ensures Remembers(m', mapped, p)
    {
      RememberedKept(m, m', mapped, p);
    }
  }

  lemma {:induction false} SlotInMemory(m: Memory, pRegions: Word, regions: seq<nat>, free: map<nat, seq<nat>>, live: set<nat>, p: nat)
    requires Managed(m, pRegions, regions, free, live) && p in live
    ensures p + TRAMPOLINE_SIZE <= |m| && 0 < p
  {
    hide U32At, IsSlot, RegionOf, Linked;
    MaskFindsRegion(RegionOf(p), p);
  }

  // What is written in one slot in use.
  lemma {:induction false} UseUndisturbs(m: Memory, m': Memory, regions: seq<nat>, others: set<nat>, mapped: set<nat>, p: nat)
    requires Outside(m, m', p, TRAMPOLINE_SIZE) && IsSlot(RegionOf(p), p) && RegionOf(p) in regions && p !in others
    requires (forall q :: q in others ==> IsSlot(RegionOf(q), q)) && forall b :: b in regions ==> b !in mapped
    ensures SameMapped(m, m', mapped) && SameSlots(m, m', others)
  {
    hide IsSlot, RegionOf;
    EditUndisturbs(m, m', regions, others, p);
    UndisturbedIsSame(m, m', regions, mapped, others);
  }

  lemma {:induction false} NothingPending(m: Memory, s: Protections, mapped: set<nat>, live: set<nat>)
    requires |m| == TWO32
    ensures Pending(m, s, mapped, live, [], Snapshot(m, s, live))
  {
  }

  lemma {:induction false} FoundIsUsable(map_: AddressMap, m: Memory, t: nat)
    requires t + 6 <= |m|
    ensures forall b :: Found(map_, m, t, b) ==> Usable(map_, b)
  {
    hide Usable, JumpBounds;
  }

  // A region with a free slot, all of whose slots are within reach, has a slot at hand.
  lemma {:induction false} CoveringServes(d: Detours, map_: AddressMap, t: nat, b: nat)
    requires d.heap.space == d.space && d.heap.Valid() && t + 6 <= |d.space.bytes|
    requires b in d.heap.regions && |d.heap.free[b]| > 0 && Covers(JumpBounds(Bits32, d.space.bytes, t), b)
    ensures d.SlotAtHand(map_, t)
  {
    hide RegionOf, RegionOk, Linked, JumpBounds, NoRegionFor, WithinReach;
    FirstFreeIsInside(d.space.bytes, b, d.heap.free[b], d.heap.live);
    WindowIs(Bits32, d.space.bytes, t, d.heap.free[b][0]);
  }

  lemma {:induction false} SameBounds(m: Memory, m': Memory, t: nat)
    requires SameWindow(m, m', t) && t + WINDOW <= |m| && |m| == |m'|
    ensures JumpBounds(Bits32, m', t) == JumpBounds(Bits32, m, t) && NearTarget(Bits32, m', t) == NearTarget(Bits32, m, t)
  {
    hide U32At, BoundsFor;
    U32Kept(m, m', t + 1);
  }

  lemma {:induction false} WindowIsInside(mapped: set<nat>, t: nat)
    requires MappedRange(mapped, t, WINDOW)
    ensures t + WINDOW <= TWO32
  {
  }

  lemma {:induction false} AllListed(d: Detours)
    requires d.heap.Valid()
    ensures forall b :: b in d.heap.regions ==> b in d.heap.free
  {
  }

  // Nor does it matter to anything else whether the target was read before or after.
  lemma {:induction false} SameSearch(m: Memory, m': Memory, map_: AddressMap, t: nat)
    requires SameWindow(m, m', t) && t + WINDOW <= |m| && |m| == |m'|
    ensures forall b :: Found(map_, m', t, b) <==> Found(map_, m, t, b)
    ensures NoRegionFor(map_, m', t) <==> NoRegionFor(map_, m, t)
    ensures forall regions, free :: Starving(regions, free, map_, m', t) <==> Starving(regions, free, map_, m, t)
  {
    hide Usable, SkippedUp, SkippedDown, StopsAbove, StopsBelow, JumpBounds, RoundDown, Near, NearTarget, FirstFound;
    SameBounds(m, m', t);
    assert forall p :: WithinReach(Bits32, m', t, p) == WithinReach(Bits32, m, t, p);
    assert forall a: nat :: RegionInReach(m', t, a) == RegionInReach(m, t, a);
  }

  /**
   A hook detached twice in one transaction: both calls succeed. The commit gives the trampoline back twice, so
   that its region's free chain has no end any more, and the target's page is left writable: the newer removal
   puts back what it found, and for the older one the size is gone.
   */
  method DetachTwice(d: Detours, thread: nat, ppPointer: nat, pDetour: Word, env: Environment) returns (ghost p: nat, ghost t: nat)
    requires d.Valid() && thread != 0 && d.pendingThread == thread && d.pendingError == NO_ERROR && d.operations == []
    requires pDetour != 0 && ppPointer != 0 && MappedRange(d.mapped, ppPointer, 4) && WordAt(d.space.bytes, ppPointer) != 0
    requires env.operationAllocated && env.protectError == NO_ERROR
    requires
      var p := SkipJmp(d.space.bytes, env.imported, WordAt(d.space.bytes, ppPointer));
      p in d.heap.live && WordAt(d.space.bytes, p + PB_DETOUR) == SkipJmp(d.space.bytes, env.imported, pDetour)
    modifies d`pendingError, d`pendingPointer, d`operations, d.space, d.pages, d.heap`free, d.heap`live
    ensures p == old(SkipJmp(d.space.bytes, env.imported, WordAt(d.space.bytes, ppPointer)))
    ensures p + TRAMPOLINE_SIZE <= |old(d.space.bytes)| && t == TargetOf(old(d.space.bytes), p) < TWO32
    ensures !ChainEnds(d.space.bytes, RegionOf(p))
    ensures Reported(d.pages.protections, t) == PAGE_EXECUTE_READWRITE
  {
    hide RegionOf, U32At, IsSlot, Managed, SkipJmp, FitsSlot, Freed, PutBack, ToFree, Committed, Pending, Protected, ChainEnds, OpOk,
      SameMapped, SameSlots, Undone, Changes, AllRemember, ReleasesOnce;
    p, t := DetachBoth(d, thread, ppPointer, pDetour, env);
    ghost var m, newer, older := d.space.bytes, d.operations[0], d.operations[1];
    QueuedAreOk(d);
    d.CarryOutAll();
    ghost var m1, s := d.space.bytes, d.pages.protections;
    SameOps(m, m1, d.mapped, d.heap.live, d.operations);
    TwiceReleased(d, newer, older);
    var freed := d.Release(true);
  }

  // Both calls queue the removal; the second finds the page writable.
  method DetachBoth(d: Detours, thread: nat, ppPointer: nat, pDetour: Word, env: Environment) returns (ghost p: nat, ghost t: nat)
    requires d.Valid() && thread != 0 && d.pendingThread == thread && d.pendingError == NO_ERROR && d.operations == []
    requires pDetour != 0 && ppPointer != 0 && MappedRange(d.mapped, ppPointer, 4) && WordAt(d.space.bytes, ppPointer) != 0
    requires env.operationAllocated && env.protectError == NO_ERROR
    requires
      var p := SkipJmp(d.space.bytes, env.imported, WordAt(d.space.bytes, ppPointer));
      p in d.heap.live && WordAt(d.space.bytes, p + PB_DETOUR) == SkipJmp(d.space.bytes, env.imported, pDetour)
    modifies d`pendingError, d`pendingPointer, d`operations, d.pages
    ensures d.Valid() && d.pendingThread == thread && |d.operations| == 2
    ensures p == SkipJmp(d.space.bytes, env.imported, WordAt(d.space.bytes, ppPointer)) && p in d.heap.live
    ensures p + TRAMPOLINE_SIZE <= |d.space.bytes| && t == TargetOf(d.space.bytes, p) < TWO32
    ensures forall k :: 0 <= k < 2 ==> d.operations[k].fIsRemove && d.operations[k].pTrampoline == p && d.operations[k].pbTarget == t
    ensures d.operations[0].dwPerm == PAGE_EXECUTE_READWRITE
  {
    hide RegionOf, U32At, IsSlot, Managed, SkipJmp, Pending, Protected;
    ghost var s, m := d.pages.protections, d.space.bytes;
    var first := d.Detach(thread, ppPointer, pDetour, env);
    assert first == NO_ERROR;
    p := SkipJmp(m, env.imported, WordAt(m, ppPointer));
    t := TargetOf(m, p);
    var second := d.Detach(thread, ppPointer, pDetour, env);
    assert second == NO_ERROR;
    RememberedInRange(m, d.mapped, p);
    WritableAt(s, t, Saved(m, p));
  }

  lemma {:induction false} RememberedInRange(m: Memory, mapped: set<nat>, p: nat)
    requires Remembers(m, mapped, p)
    ensures 0 < Saved(m, p) && TargetOf(m, p) + Saved(m, p) <= TWO32
  {
    hide U32At, RegionOf;
  }

  lemma {:induction false} OperationInUse(m: Memory, mapped: set<nat>, live: set<nat>, o: Operation)
    requires OpOk(m, mapped, live, o)
    ensures o.pTrampoline in live
  {
  }

  lemma {:induction false} TwiceReleased(d: Detours, newer: Operation, older: Operation)
    requires d.heap.space == d.space && d.heap.Valid() && |d.space.bytes| == TWO32 && d.operations == [newer, older]
    requires forall k :: 0 <= k < |d.operations| ==> OpOk(d.space.bytes, d.mapped, d.heap.live, d.operations[k])
    requires newer.fIsRemove && older.fIsRemove && newer.pTrampoline == older.pTrampoline && newer.dwPerm == PAGE_EXECUTE_READWRITE
    ensures AllFit(d.operations) && newer.pbTarget < TWO32
    ensures !ChainEnds(Freed(d.space.bytes, ToFree(d.operations, true)), RegionOf(newer.pTrampoline))
    ensures Reported(PutBack(d.space.bytes, d.pages.protections, d.operations, true), newer.pbTarget) == PAGE_EXECUTE_READWRITE
  {
    hide RegionOf, U32At, IsSlot, Managed, FitsSlot, Freed, PutBack, ToFree, Protected, ChainEnds, OpOk, RegionOk, Elements;
    var m, live, p := d.space.bytes, d.heap.live, newer.pTrampoline;
    OpsFit(m, d.heap.pRegions, d.heap.regions, d.heap.free, live, d.mapped, d.operations);
    assert d.operations[0] == newer && OpOk(m, d.mapped, live, newer) && FitsSlot(d.operations[0].pTrampoline);
    OperationInUse(m, d.mapped, live, newer);
    SlotFits(p);
    InRegions(m, d.heap.pRegions, d.heap.regions, d.heap.free, live, p);
    var f := FreedChain(m, RegionOf(p), d.heap.free[RegionOf(p)], live, [p, p]);
    assert [p, p][0] == [p, p][1];
    BothToFree(newer, older, p);
    SpareBytes(m, d.mapped, live, newer);
    TwicePutBack(m, d.pages.protections, newer, older);
    WritableAt(d.pages.protections, newer.pbTarget, Saved(m, p));
  }

  lemma {:induction false} QueuedAreOk(d: Detours)
    requires d.Valid() && d.pendingThread != 0
    ensures |d.space.bytes| == TWO32 && forall k :: 0 <= k < |d.operations| ==> OpOk(d.space.bytes, d.mapped, d.heap.live, d.operations[k])
  {
    hide OpOk;
  }

  lemma {:induction false} InRegions(m: Memory, pRegions: Word, regions: seq<nat>, free: map<nat, seq<nat>>, live: set<nat>, p: nat)
    requires Managed(m, pRegions, regions, free, live) && p in live
    ensures RegionOf(p) in regions && RegionOf(p) in free && RegionOk(m, RegionOf(p), free[RegionOf(p)], live)
  {
    hide RegionOk, RegionOf, IsSlot;
  }

  lemma {:induction false} WritableAt(s: Protections, t: nat, n: nat)
    requires 0 < n && t + n <= TWO32
    ensures Reported(Protected(s, t, n, PAGE_EXECUTE_READWRITE), t) == PAGE_EXECUTE_READWRITE
  {
  }

  lemma {:induction false} BothToFree(newer: Operation, older: Operation, p: nat)
    requires newer.fIsRemove && older.fIsRemove && newer.pTrampoline == older.pTrampoline == p
    ensures ToFree([newer, older], true) == [p, p]
  {
    var ops, one := [newer, older], [newer];
    assert ops[..|ops| - 1] == one && one[..|one| - 1] == [];
    assert ToFree(one, true) == [p];
  }

  lemma {:induction false} TwicePutBack(m: Memory, s: Protections, newer: Operation, older: Operation)
    requires |m| == TWO32 && AllFit([newer, older]) && newer.fIsRemove && newer.pTrampoline == older.pTrampoline
    requires FitsSlot(newer.pTrampoline) && 0 < Saved(m, newer.pTrampoline) && newer.pbTarget + Saved(m, newer.pTrampoline) <= TWO32
    ensures PutBack(m, s, [newer, older], true) == Protected(s, newer.pbTarget, Saved(m, newer.pTrampoline), newer.dwPerm)
  {
    hide RegionOf, IsSlot, ReturnedTo, Protected;
    var ops, one := [newer, older], [older];
    assert ops[1..] == one && one[1..] == [] && AllFit(one);
    var p := newer.pTrampoline;
    var m1, s1 := AfterRelease(m, newer, true), PutBackOne(m, s, newer);
    NoSizeLeft(m, p);
    assert PutBackOne(m1, s1, older) == s1;
    NothingPutBack(AfterRelease(m1, older, true), s1, true);
  }

  // A trampoline that was given back is zero but for its link.
  lemma {:induction false} NoSizeLeft(m: Memory, p: nat)
    requires |m| == TWO32 && FitsSlot(p)
    ensures Saved(ReturnedTo(m, RegionOf(p), p), p) == 0
  {
    hide IsSlot, RegionOf, U32At;
    var b := RegionOf(p);
    RegionPlaced(p);
    var m1 := Written(m, p, Fill(0, TRAMPOLINE_SIZE));
    var m2 := Written(m1, p + PB_REMAIN, Le32(U32At(m1, b + P_FREE)));
    ReturnedToIs(m, b, p);
    assert m1[p + CB_RESTORE] == Fill(0, TRAMPOLINE_SIZE)[CB_RESTORE];
  }

  lemma {:induction false} RegionPlaced(p: nat)
    requires FitsSlot(p)
    ensures RegionOf(p) + TRAMPOLINE_SIZE <= p && RegionOf(p) % REGION_SIZE == 0
  {
    MaskFindsRegion(RegionOf(p), p);
  }
}
