/** InstallHooks: all hooks in one transaction, whatever other threads try meanwhile. */
module Installer {
  import opened Words
  import opened IntelDecoder
  import opened Prologue
  import opened MovedCode
  import opened Simulation
  import opened Builder
  import opened Pages
  import opened RegionSearch
  import opened Trampolines
  import opened Targets
  import opened Edits
  import opened Transactions

  // One step while the installer runs: an attach of its own, or a call by another thread.
  datatype Call =
    | Install(pointer: nat, detour: Word, operationAllocated: bool, protectError: nat, unset: Byte)
    | OtherBegins(thread: nat, writableError: nat)
    | OtherAttaches(thread: nat, pointer: nat, detour: Word)
    | OtherDetaches(thread: nat, pointer: nat, detour: Word)
    | OtherCommits(thread: nat)
    | OtherAborts(thread: nat)

  // What an Install finds behind its pointers, how the target's prologue is moved, and how many bytes it takes.
  datatype Request = Request(target: Word, code: Word, plan: seq<Insn>, size: nat)

  type OS = seq<nat> -> Environment

  // The answers of a system that knows which regions it has handed out.
  ghost predicate SoundSystem(os: OS, imported: (nat, nat) -> bool, mapped: set<nat>)
  {
    forall r :: Sound(os(r), r, mapped) && os(r).imported == imported
  }

  // The installer's request can be served in any state of the trampolines.
  ghost predicate Requested(m: Memory, mapped: set<nat>, imported: (nat, nat) -> bool, c: Call, q: Request)
    requires c.Install?
  {
    && 0 < c.pointer && c.detour != 0 && MappedRange(mapped, c.pointer, 4)
    && REGION_SIZE <= q.target && MappedRange(mapped, q.target, WINDOW) && Moves(m, q.target, q.plan)
    && q.size == Taken(m, q.target, q.plan)
    && forall m': Memory :: SameMapped(m, m', mapped) ==> Resolves(m', imported, c, q)
  }

  ghost predicate Resolves(m: Memory, imported: (nat, nat) -> bool, c: Call, q: Request)
    requires c.Install?
  {
    && WordAt(m, c.pointer) != 0
    && SkipJmp(m, imported, WordAt(m, c.pointer)) == q.target
    && SkipJmp(m, imported, c.detour) == q.code
  }

  ghost predicate Scripted(m: Memory, mapped: set<nat>, imported: (nat, nat) -> bool, owner: nat, calls: seq<Call>, requests: seq<Request>)
  {
    && |requests| == |calls|
    && forall k :: 0 <= k < |calls| ==>
         if calls[k].Install? then Requested(m, mapped, imported, calls[k], requests[k])
         else calls[k].thread != owner && calls[k].thread != 0
  }

  // The call asks for a hook, rather than for a function as its own detour.
  ghost predicate Asks(c: Call, q: Request) { c.Install? && q.code != q.target }

  // The first n calls that ask, newest first.
  ghost function Asking(calls: seq<Call>, requests: seq<Request>, n: nat): (r: seq<nat>)
    requires |requests| == |calls| && n <= |calls|
    ensures forall j :: 0 <= j < |r| ==> r[j] < n
  {
    if n == 0 then []
    else (if Asks(calls[n - 1], requests[n - 1]) then [n - 1] else []) + Asking(calls, requests, n - 1)
  }

  lemma {:induction false} AskingMore(calls: seq<Call>, requests: seq<Request>, n: nat)
    requires |requests| == |calls| && n < |calls|
    ensures Asking(calls, requests, n + 1) ==
      if Asks(calls[n], requests[n]) then [n] + Asking(calls, requests, n) else Asking(calls, requests, n)
  {
  }

  // The ranges that the first n calls make writable, newest first.
  ghost function Ranges(calls: seq<Call>, requests: seq<Request>, n: nat): seq<Change>
    requires |requests| == |calls| && n <= |calls|
  {
    var asking := Asking(calls, requests, n);
    seq(|asking|, j requires 0 <= j < |asking| => Change(requests[asking[j]].target, requests[asking[j]].size, 0))
  }

  lemma {:induction false} QueueRanges(m: Memory, ops: seq<Operation>, calls: seq<Call>, requests: seq<Request>, n: nat, start: Protections)
    requires |requests| == |calls| && n <= |calls| && Queue(m, ops, calls, requests, Asking(calls, requests, n), |calls|) && AllEditable(m, ops)
    ensures Recoverable(Changes(m, ops), start) <==> Recoverable(Ranges(calls, requests, n), start)
  {
    hide U32At, Recoverable, Asking;
    var asking, c, d := Asking(calls, requests, n), Changes(m, ops), Ranges(calls, requests, n);
    forall j | 0 <= j < |c|
      ensures c[j].a == d[j].a && c[j].n == d[j].n
    {
      assert Serves(m, ops[j], calls[asking[j]], requests[asking[j]]) && Editable(m, ops[j]) && c[j] == ChangeOf(m, ops[j]);
    }
    RangesMatter(c, d, start);
  }

  // The queued operation o serves the request.
  ghost predicate Serves(m: Memory, o: Operation, c: Call, q: Request)
  {
    && c.Install? && !o.fIsRemove && o.ppbPointer == c.pointer && o.pbTarget == q.target
    && o.pTrampoline + TRAMPOLINE_SIZE <= |m| && U32At(m, o.pTrampoline + PB_DETOUR) == q.code && Saved(m, o.pTrampoline) == q.size
  }

  // served lists, newest first, the calls that the pending operations come from.
  ghost predicate Queue(m: Memory, ops: seq<Operation>, calls: seq<Call>, requests: seq<Request>, served: seq<nat>, n: nat)
    requires |requests| == |calls|
  {
    && |served| == |ops|
    && (forall j :: 0 <= j < |ops| ==> served[j] < n <= |calls| && Serves(m, ops[j], calls[served[j]], requests[served[j]]))
    && (forall i, j :: 0 <= i < j < |served| ==> served[i] != served[j])
  }

  ghost predicate AllServed(calls: seq<Call>, requests: seq<Request>, served: seq<nat>, n: nat)
    requires |requests| == |calls| && n <= |calls|
  {
    forall k :: 0 <= k < n && Asks(calls[k], requests[k]) ==> k in served
  }

  lemma {:induction false} QueueKept(m: Memory, m': Memory, live: set<nat>, ops: seq<Operation>, calls: seq<Call>, requests: seq<Request>,
                                     served: seq<nat>, n: nat)
    requires |requests| == |calls| && Queue(m, ops, calls, requests, served, n) && SameSlots(m, m', live)
    requires n < |calls| && forall j :: 0 <= j < |ops| ==> ops[j].pTrampoline in live
    ensures Queue(m', ops, calls, requests, served, n + 1) && forall j :: 0 <= j < |served| ==> served[j] < n
  {
    hide U32At;
    forall j | 0 <= j < |ops|
      ensures Serves(m', ops[j], calls[served[j]], requests[served[j]])
    {
      assert Serves(m, ops[j], calls[served[j]], requests[served[j]]) && SameSlot(m, m', ops[j].pTrampoline);
      U32Kept(m, m', ops[j].pTrampoline + PB_DETOUR);
    }
  }

  // No thread but the owner of the transaction can do anything to it.
  method OtherThread(d: Detours, c: Call, env: Environment)
    requires d.Valid() && d.pendingThread != 0 && !c.Install? && c.thread != 0 && c.thread != d.pendingThread
    modifies d, d.space, d.pages, d.heap
    ensures d.Valid() && d.pendingThread == old(d.pendingThread) && d.start == old(d.start)
    ensures d.operations == old(d.operations) && d.pendingError == old(d.pendingError) && d.pendingPointer == old(d.pendingPointer)
    ensures d.space.bytes == old(d.space.bytes) && d.pages.protections == old(d.pages.protections)
    ensures d.heap.live == old(d.heap.live) && d.heap.regions == old(d.heap.regions) && d.heap.free == old(d.heap.free)
    ensures d.ignoreTooSmall == old(d.ignoreTooSmall)
  {
    var error, failed, none;
    match c
    case OtherBegins(thread, writableError) => error := d.Begin(thread, writableError);
    case OtherAttaches(thread, pointer, detour) => error := d.Attach(thread, pointer, detour, env, []);
    case OtherDetaches(thread, pointer, detour) => error := d.Detach(thread, pointer, detour, env);
    case OtherCommits(thread) => error, failed, none := d.Commit(thread, []);
    case OtherAborts(thread) => error := d.Abort(thread);
  }

  // The transaction of the installer after n calls, none of which failed unless result says so.
  ghost predicate Installing(d: Detours, m: Memory, s: Protections, live: set<nat>, owner: nat, calls: seq<Call>, requests: seq<Request>,
                             served: seq<nat>, n: nat, result: nat)
    requires |requests| == |calls|
    reads d, d.space, d.pages, d.heap
  {
    && d.Valid() && d.pendingThread == owner && owner != 0 && d.start == Snapshot(m, s, live) && n <= |calls|
    && Queue(d.space.bytes, d.operations, calls, requests, served, n)
    && (result == NO_ERROR ==> d.pendingError == NO_ERROR && AllServed(calls, requests, served, n))
  }

  lemma {:induction false} AttachableNow(d: Detours, m: Memory, s: Protections, live: set<nat>, owner: nat, imported: (nat, nat) -> bool,
                                         calls: seq<Call>, requests: seq<Request>, served: seq<nat>, n: nat, env: Environment)
    requires |requests| == |calls| && Installing(d, m, s, live, owner, calls, requests, served, n, NO_ERROR)
    requires Scripted(m, d.mapped, imported, owner, calls, requests) && n < |calls| && calls[n].Install?
    requires Sound(env, d.heap.regions, d.mapped) && env.imported == imported
    ensures d.Attachable(calls[n].pointer, env, requests[n].plan)
    ensures Resolves(d.space.bytes, imported, calls[n], requests[n])
    ensures Taken(d.space.bytes, requests[n].target, requests[n].plan) == Taken(m, requests[n].target, requests[n].plan) == requests[n].size
  {
    hide RegionOf, U32At, Moves, SkipJmp, Queue, AllServed, MappedRange;
    var c, q := calls[n], requests[n];
    assert Requested(m, d.mapped, imported, c, q);
    assert SameMapped(m, d.space.bytes, d.mapped);
    assert Resolves(d.space.bytes, imported, c, q);
    MappedIsSameWindow(m, d.space.bytes, d.mapped, q.target);
    MovesIsLocal(m, d.space.bytes, q.target, q.plan);
  }

  // Region b has n free slots, all of them within reach of every target.
  ghost predicate RoomIn(regions: seq<nat>, free: map<nat, seq<nat>>, m: Memory, calls: seq<Call>, requests: seq<Request>, n: int, b: nat)
    requires |requests| == |calls|
  {
    && b in regions && b in free && n <= |free[b]|
    && forall k :: 0 <= k < |calls| && calls[k].Install? ==>
         requests[k].target + WINDOW <= |m| && Covers(JumpBounds(Bits32, m, requests[k].target), b)
  }

  // Nothing stands in the way of the call: memory and access are granted, and the function is long enough.
  ghost predicate Easy(m: Memory, c: Call, q: Request)
  {
    c.Install? ==> c.operationAllocated && c.protectError == NO_ERROR && SIZE_OF_JMP <= Taken(m, q.target, q.plan)
  }

  // The regions at some time, and their free slots.
  datatype Pool = Pool(regions: seq<nat>, free: map<nat, seq<nat>>)

  // The attach of the call failed with this error: no memory, no slot, too short a function, or no access to it. There was
  // no slot if none of the regions there were had one for the target, and the system none to give that would.
  ghost predicate Refused(m: Memory, os: OS, pool: Pool, c: Call, q: Request, error: nat)
  {
    && Asks(c, q) && error != NO_ERROR
    && if !c.operationAllocated then error == ERROR_NOT_ENOUGH_MEMORY
       else
         || error == (if q.size < SIZE_OF_JMP then ERROR_INVALID_BLOCK else c.protectError)
         || (error == ERROR_NOT_ENOUGH_MEMORY && q.target + 6 <= |m|
             && Starving(pool.regions, pool.free, os(pool.regions).map_, m, q.target))
  }

  // Of the first n calls the first k succeeded, and call k, if it is one of them, failed with this error, which is
  // reported for its pointer.
  ghost predicate FailedFirst(m: Memory, os: OS, pool: Pool, calls: seq<Call>, requests: seq<Request>, n: nat, k: nat, error: nat,
                              pointer: nat)
    requires |requests| == |calls|
  {
    && k <= n <= |calls| && (error == NO_ERROR <==> k == n)
    && (forall j :: 0 <= j < k && Asks(calls[j], requests[j]) ==> Easy(m, calls[j], requests[j]))
    && (k < n ==> Refused(m, os, pool, calls[k], requests[k], error) && pointer == calls[k].pointer)
  }

  lemma {:induction false} FailedNext(m: Memory, os: OS, pool: Pool, calls: seq<Call>, requests: seq<Request>, n: nat, k: nat, error: nat,
                                      pointer: nat, pool': Pool, error': nat, pointer': nat)
    requires |requests| == |calls| && FailedFirst(m, os, pool, calls, requests, n, k, error, pointer) && n < |calls|
    requires if error != NO_ERROR || !calls[n].Install? then error' == error && pointer' == pointer && (error != NO_ERROR ==> pool' == pool)
             else if error' == NO_ERROR then Asks(calls[n], requests[n]) ==> Easy(m, calls[n], requests[n])
             else Refused(m, os, pool', calls[n], requests[n], error') && pointer' == calls[n].pointer
    ensures FailedFirst(m, os, pool', calls, requests, n + 1, if error' == NO_ERROR then n + 1 else k, error', pointer')
  {
    hide Easy, Refused;
  }

  lemma {:induction false} NoneFailed(m: Memory, os: OS, pool: Pool, calls: seq<Call>, requests: seq<Request>, pointer: nat)
    requires |requests| == |calls|
    ensures FailedFirst(m, os, pool, calls, requests, 0, 0, NO_ERROR, pointer) && Asking(calls, requests, 0) == []
  {
  }

  // A new region can be had for every target, and whichever of them the search finds, it is within reach of all.
  ghost predicate NewRegionWill(map_: AddressMap, m: Memory, calls: seq<Call>, requests: seq<Request>)
    requires |requests| == |calls|
  {
    && |calls| <= 907
    && (forall k :: 0 <= k < |calls| && calls[k].Install? ==>
          requests[k].target + WINDOW <= |m| && exists a :: RegionAtHand(map_, m, requests[k].target, a))
    && (forall j, k, b :: 0 <= j < |calls| && 0 <= k < |calls| && calls[j].Install? && calls[k].Install?
                          && Found(map_, m, requests[j].target, b) ==>
          Covers(JumpBounds(Bits32, m, requests[k].target), b))
  }

  // Every hook can be installed: in a region that has room for all, or in a new one.
  ghost predicate Installable(pool: Pool, os: OS, m: Memory, calls: seq<Call>, requests: seq<Request>)
    requires |requests| == |calls|
  {
    && (NewRegionWill(os(pool.regions).map_, m, calls, requests)
        || exists b :: RoomIn(pool.regions, pool.free, m, calls, requests, |calls|, b))
    && forall k :: 0 <= k < |calls| ==> Easy(m, calls[k], requests[k])
  }

  // Room for n more, in region b if a new one will not do.
  ghost predicate Ready(regions0: seq<nat>, pool: Pool, os: OS, m: Memory, calls: seq<Call>, requests: seq<Request>, n: int, b: nat)
    requires |requests| == |calls|
  {
    || RoomIn(pool.regions, pool.free, m, calls, requests, n, b)
    || (pool.regions == regions0 && n <= |calls| && NewRegionWill(os(regions0).map_, m, calls, requests))
  }

  ghost function RoomyRegion(pool: Pool, os: OS, m: Memory, calls: seq<Call>, requests: seq<Request>): (b: nat)
    requires |requests| == |calls| && Installable(pool, os, m, calls, requests)
    ensures Ready(pool.regions, pool, os, m, calls, requests, |calls|, b)
  {
    if NewRegionWill(os(pool.regions).map_, m, calls, requests) then 0
    else
      var b: nat :| RoomIn(pool.regions, pool.free, m, calls, requests, |calls|, b);
      b
  }

  lemma {:induction false} RoomServes(d: Detours, os: OS, regions0: seq<nat>, m: Memory, s: Protections, live: set<nat>, owner: nat,
                                      calls: seq<Call>, requests: seq<Request>, served: seq<nat>, n: nat, b: nat)
    requires |requests| == |calls| && Installing(d, m, s, live, owner, calls, requests, served, n, NO_ERROR)
    requires n < |calls| && calls[n].Install? && MappedRange(d.mapped, requests[n].target, WINDOW)
    requires Ready(regions0, Pool(d.heap.regions, d.heap.free), os, m, calls, requests, |calls| - n, b)
    ensures requests[n].target + 6 <= |d.space.bytes| && d.SlotAtHand(os(d.heap.regions).map_, requests[n].target)
  {
    hide RegionOf, U32At, Queue, AllServed, MappedRange, JumpBounds, Undone, Linked, RegionOk, NoRegionFor, RegionAtHand, Found, WithinReach;
    var t := requests[n].target;
    var map_ := os(d.heap.regions).map_;
    MappedIsSameWindow(m, d.space.bytes, d.mapped, t);
    SameBounds(m, d.space.bytes, t);
    if RoomIn(d.heap.regions, d.heap.free, m, calls, requests, |calls| - n, b) {
      CoveringServes(d, map_, t, b);
    } else {
      var a :| RegionAtHand(map_, m, t, a);
      RegionAtHandIsFound(map_, m, t, a);
      SameSearch(m, d.space.bytes, map_, t);
    }
  }

  // There is room for one less after an attach, in the region it may have allocated if it has.
  lemma {:induction false} StillReady(regions0: seq<nat>, pool: Pool, pool': Pool, os: OS, m: Memory, calls: seq<Call>, requests: seq<Request>,
                                      n: nat, b: nat)
    returns (b': nat)
    requires |requests| == |calls| && n < |calls| && Ready(regions0, pool, os, m, calls, requests, |calls| - n, b)
    requires forall c :: c in pool.regions ==>
      c in pool'.regions && c in pool.free && c in pool'.free && |pool.free[c]| <= |pool'.free[c]| + 1
    requires pool'.regions == pool.regions || (calls[n].Install? && requests[n].target + 6 <= |m|
      && |pool'.regions| > 0 && Found(os(pool.regions).map_, m, requests[n].target, pool'.regions[0])
      && pool'.regions[0] in pool'.free && 906 <= |pool'.free[pool'.regions[0]]|)
    ensures Ready(regions0, pool', os, m, calls, requests, |calls| - n - 1, b')
  {
    hide JumpBounds, Found, RegionAtHand, Covers;
    if RoomIn(pool.regions, pool.free, m, calls, requests, |calls| - n, b) {
      b' := b;
      LessRoom(pool.regions, pool.free, pool'.regions, pool'.free, m, calls, requests, |calls| - n, b);
    } else {
      b' := if pool'.regions == pool.regions then b else pool'.regions[0];
    }
  }

  lemma {:induction false} LessRoom(regions: seq<nat>, free: map<nat, seq<nat>>, regions': seq<nat>, free': map<nat, seq<nat>>,
                                    m: Memory, calls: seq<Call>, requests: seq<Request>, n: int, b: nat)
    requires |requests| == |calls| && RoomIn(regions, free, m, calls, requests, n, b)
    requires forall c :: c in regions ==> c in regions' && c in free && c in free' && |free[c]| <= |free'[c]| + 1
    ensures RoomIn(regions', free', m, calls, requests, n - 1, b)
  {
    hide JumpBounds;
  }

  // One attach of the installer.
  method InstallOne(d: Detours, owner: nat, call: Call, env: Environment, ghost os: OS, ghost m: Memory, ghost s: Protections, ghost live: set<nat>,
                    ghost imported: (nat, nat) -> bool, ghost calls: seq<Call>, ghost requests: seq<Request>, ghost served: seq<nat>,
                    ghost n: nat)
    returns (result: nat, ghost served': seq<nat>)
    requires |requests| == |calls| && Installing(d, m, s, live, owner, calls, requests, served, n, NO_ERROR)
    requires Scripted(m, d.mapped, imported, owner, calls, requests) && n < |calls| && call == calls[n] && call.Install?
    requires Sound(env, d.heap.regions, d.mapped) && env.imported == imported && !d.ignoreTooSmall
    requires env.operationAllocated == call.operationAllocated && env.protectError == call.protectError
    requires env.map_ == os(d.heap.regions).map_
    modifies d`pendingError, d`pendingPointer, d`operations, d.space, d.pages, d.heap
    ensures Installing(d, m, s, live, owner, calls, requests, served', n + 1, result)
    ensures OnlyAsked(calls, requests, served) ==> OnlyAsked(calls, requests, served')
    ensures result == NO_ERROR && Asks(call, requests[n]) ==> Easy(m, call, requests[n])
    ensures result != NO_ERROR ==>
      Refused(m, os, Pool(old(d.heap.regions), old(d.heap.free)), call, requests[n], result) && d.pendingPointer == call.pointer
    ensures served' == if result == NO_ERROR && Asks(call, requests[n]) then [n] + served else served
    ensures result == NO_ERROR ==> d.OneTakenAtMost()
    ensures result == NO_ERROR && d.heap.regions != old(d.heap.regions) ==>
      && |d.heap.regions| > 0 && requests[n].target + 6 <= |m|
      && var b := d.heap.regions[0];
      Found(env.map_, m, requests[n].target, b) && b in d.heap.free && 906 <= |d.heap.free[b]|
    ensures env.operationAllocated && env.protectError == NO_ERROR && SIZE_OF_JMP <= Taken(m, requests[n].target, requests[n].plan)
            && requests[n].target + 6 <= |old(d.space.bytes)| && old(d.SlotAtHand(env.map_, requests[n].target)) ==>
      result == NO_ERROR
  {
    hide Found, Starving;
    hide RegionOf, U32At, Moves, SkipJmp, Queue, AllServed, MappedRange, Built, Taken, Pending, Remembers, Managed, Sound;
    AttachableNow(d, m, s, live, owner, imported, calls, requests, served, n, env);
    ghost var m1, ops, held, q := d.space.bytes, d.operations, d.heap.live, requests[n];
    QueueInUse(m1, d.pages.protections, d.mapped, held, ops, d.start);
    SearchIsSame(d, m, s, live, owner, imported, calls, requests, served, n, env.map_);
    result := d.Attach(owner, call.pointer, call.detour, env, requests[n].plan);
    QueueKept(m1, d.space.bytes, held, ops, calls, requests, served, n);
    if result != NO_ERROR {
      served' := served;
    } else if q.code == q.target {
      served' := served;
      NotAsked(calls, requests, served, n);
    } else {
      served' := [n] + served;
      NewestServes(d, m1, d.operations[0], q);
      ServedMore(d.space.bytes, d.operations[0], ops, calls, requests, served, n);
    }
  }

  lemma {:induction false} SearchIsSame(d: Detours, m: Memory, s: Protections, live: set<nat>, owner: nat, imported: (nat, nat) -> bool,
                                        calls: seq<Call>, requests: seq<Request>, served: seq<nat>, n: nat, map_: AddressMap)
    requires |requests| == |calls| && Installing(d, m, s, live, owner, calls, requests, served, n, NO_ERROR)
    requires Scripted(m, d.mapped, imported, owner, calls, requests) && n < |calls| && calls[n].Install?
    ensures requests[n].target + WINDOW <= |m|
    ensures var t := requests[n].target;
      forall b :: Found(map_, d.space.bytes, t, b) <==> Found(map_, m, t, b)
    ensures var t := requests[n].target;
      forall regions, free :: Starving(regions, free, map_, d.space.bytes, t) <==> Starving(regions, free, map_, m, t)
  {
    hide RegionOf, Found, Starving, MappedRange, Queue, Undone, Moves, Resolves, Remembers, OpOk;
    var t := requests[n].target;
    Scheduled(m, d.mapped, imported, owner, calls, requests, n);
    assert SameMapped(m, d.space.bytes, d.mapped);
    MappedIsSameWindow(m, d.space.bytes, d.mapped, t);
    WindowIsInside(d.mapped, t);
    SameSearch(m, d.space.bytes, map_, t);
  }

  lemma {:induction false} NotAsked(calls: seq<Call>, requests: seq<Request>, served: seq<nat>, n: nat)
    requires |requests| == |calls| && n < |calls| && AllServed(calls, requests, served, n) && !Asks(calls[n], requests[n])
    ensures AllServed(calls, requests, served, n + 1)
  {
  }

  lemma {:induction false} QueueInUse(m: Memory, s: Protections, mapped: set<nat>, live: set<nat>, ops: seq<Operation>, start: Snapshot)
    requires Pending(m, s, mapped, live, ops, start)
    ensures forall j :: 0 <= j < |ops| ==> ops[j].pTrampoline in live
  {
    hide Remembers, RegionOf, U32At, Undone;
    forall j | 0 <= j < |ops|
      ensures ops[j].pTrampoline in live
    {
      assert OpOk(m, mapped, live, ops[j]);
    }
  }

  lemma {:induction false} NewestServes(d: Detours, m: Memory, o: Operation, q: Request)
    requires d.Valid() && d.pendingThread != 0 && |d.operations| > 0 && d.operations[0] == o
    requires Built(m, q.target, d.space.bytes, o.pTrampoline, q.plan, q.code)
    ensures o.pTrampoline + TRAMPOLINE_SIZE <= |d.space.bytes| && U32At(d.space.bytes, o.pTrampoline + PB_DETOUR) == q.code
    ensures Saved(d.space.bytes, o.pTrampoline) == Taken(m, q.target, q.plan)
  {
    hide RegionOf, U32At, Undone, Managed, CodeOf, Aligned, Moves, Taken, CodeOffset, Le32, MappedRange, Breaks, MadeWritable, Reporting;
    assert OpOk(d.space.bytes, d.mapped, d.heap.live, d.operations[0]);
    Holds32(d.space.bytes, o.pTrampoline + PB_DETOUR, q.code);
    assert d.space.bytes[o.pTrampoline + CB_RESTORE] == [Taken(m, q.target, q.plan)][0];
  }

  // The operation just queued serves call n.
  lemma {:induction false} ServedMore(m: Memory, o: Operation, ops: seq<Operation>, calls: seq<Call>, requests: seq<Request>,
                                      served: seq<nat>, n: nat)
    requires |requests| == |calls| && n < |calls|
    requires Queue(m, ops, calls, requests, served, n + 1) && AllServed(calls, requests, served, n)
    requires forall j :: 0 <= j < |served| ==> served[j] < n
    requires Serves(m, o, calls[n], requests[n])
    ensures Queue(m, [o] + ops, calls, requests, [n] + served, n + 1)
    ensures AllServed(calls, requests, [n] + served, n + 1)
  {
    hide Serves;
  }

  // The hooks asked for take bytes of their own, at their targets and at their pointers.
  ghost predicate SeparateRequests(calls: seq<Call>, requests: seq<Request>)
    requires |requests| == |calls|
  {
    && (forall j, k :: 0 <= j < |calls| && 0 <= k < |calls| && Asks(calls[j], requests[j]) && Asks(calls[k], requests[k]) ==>
          Disjoint(requests[j].target, requests[j].size, calls[k].pointer, 4))
    && (forall j, k :: 0 <= j < |calls| && 0 <= k < |calls| && j != k && Asks(calls[j], requests[j]) && Asks(calls[k], requests[k]) ==>
          && Disjoint(requests[j].target, requests[j].size, requests[k].target, requests[k].size)
          && Disjoint(calls[j].pointer, 4, calls[k].pointer, 4))
  }

  // No target crosses a page boundary.
  ghost predicate OnePageRequests(calls: seq<Call>, requests: seq<Request>)
    requires |requests| == |calls|
  {
    forall k :: 0 <= k < |calls| && calls[k].Install? ==> OnePage(requests[k].target, requests[k].size)
  }

  // The hook is in place: the target jumps to the detour, and the pointer is to a trampoline in use.
  ghost predicate InPlace(m: Memory, live: set<nat>, c: Call, q: Request)
    requires c.Install?
  {
    && Holds(m, q.target, JumpBytes(q.target, q.code))
    && c.pointer + 4 <= |m| && U32At(m, c.pointer) in live
  }

  // The queue holds only operations that ask.
  ghost predicate OnlyAsked(calls: seq<Call>, requests: seq<Request>, served: seq<nat>)
    requires |requests| == |calls|
  {
    forall j :: 0 <= j < |served| ==> served[j] < |calls| && Asks(calls[served[j]], requests[served[j]])
  }

  lemma {:induction false} QueueIsSeparate(m: Memory, ops: seq<Operation>, calls: seq<Call>, requests: seq<Request>, served: seq<nat>)
    requires |requests| == |calls| && Queue(m, ops, calls, requests, served, |calls|)
    requires SeparateRequests(calls, requests) && OnlyAsked(calls, requests, served) && AllEditable(m, ops)
    ensures Separate(m, ops)
  {
    hide U32At;
    forall i, j | 0 <= i < |ops| && 0 <= j < |ops|
      ensures CellApart(m, ops[i], ops[j])
      ensures i < j ==> TargetsApart(m, ops[i], ops[j]) && Disjoint(ops[i].ppbPointer, 4, ops[j].ppbPointer, 4)
    {
      assert Editable(m, ops[i]) && Editable(m, ops[j]);
      assert Serves(m, ops[i], calls[served[i]], requests[served[i]]) && Serves(m, ops[j], calls[served[j]], requests[served[j]]);
    }
  }

  lemma {:induction false} QueueOnePage(m: Memory, ops: seq<Operation>, calls: seq<Call>, requests: seq<Request>, served: seq<nat>)
    requires |requests| == |calls| && Queue(m, ops, calls, requests, served, |calls|) && OnePageRequests(calls, requests)
    requires AllEditable(m, ops)
    ensures AllOnePage(m, ops)
  {
    hide U32At;
    forall k | 0 <= k < |ops|
      ensures OnePage(ops[k].pbTarget, Saved(m, ops[k].pTrampoline))
    {
      assert Serves(m, ops[k], calls[served[k]], requests[served[k]]) && Editable(m, ops[k]);
    }
  }

  lemma {:induction false} NothingRemoved(m: Memory, ops: seq<Operation>, calls: seq<Call>, requests: seq<Request>, served: seq<nat>)
    requires |requests| == |calls| && Queue(m, ops, calls, requests, served, |calls|)
    ensures Removed(ops) == {} && ReleasesOnce(ops, true) && forall j :: 0 <= j < |ops| ==> ops[j].pTrampoline in Attached(ops)
  {
    hide U32At;
    forall o | o in ops
      ensures !o.fIsRemove
    {
      var j :| 0 <= j < |ops| && ops[j] == o;
      assert Serves(m, ops[j], calls[served[j]], requests[served[j]]);
    }
    assert forall j :: 0 <= j < |ops| ==> ops[j] in ops;
  }

  lemma {:induction false} EffectInPlace(m: Memory, m': Memory, mapped: set<nat>, live: set<nat>, ops: seq<Operation>, calls: seq<Call>,
                                         requests: seq<Request>, served: seq<nat>, k: nat)
    requires |requests| == |calls| && Queue(m, ops, calls, requests, served, |calls|) && AllEditable(m, ops) && Separate(m, ops)
    requires AllServed(calls, requests, served, |calls|) && k < |calls| && Asks(calls[k], requests[k])
    requires SameMapped(Committed(m, ops), m', mapped) && forall j :: 0 <= j < |ops| ==> ops[j].pTrampoline in live
    requires MappedRange(mapped, calls[k].pointer, 4) && MappedRange(mapped, requests[k].target, WINDOW)
    ensures InPlace(m', live, calls[k], requests[k])
  {
    hide U32At, RegionOf, JumpBytes, Breaks, Le32, Committed, SameWindow;
    var j :| 0 <= j < |served| && served[j] == k;
    var o := ops[j];
    assert Serves(m, o, calls[k], requests[k]);
    SeparateAllTakeEffect(m, ops, j);
    AttachBytes(m, o);
    var c := Committed(m, ops);
    HoldsBoth(c, o.pbTarget, JumpBytes(o.pbTarget, U32At(m, o.pTrampoline + PB_DETOUR)), Breaks(Saved(m, o.pTrampoline) - SIZE_OF_JMP));
    Holds32(c, o.ppbPointer, o.pTrampoline);
    U32Kept(c, m', o.ppbPointer);
  }

  /**
   InstallHooks. Called in a pending transaction it does nothing. Otherwise, whatever other threads call
   meanwhile, either every hook asked for is in place, or none is and the program's memory and the trampolines in
   use are as before; failed is the index of the first call that failed. The page protections are as before exactly
   if they are recoverable after the calls before that. Only if making the trampoline regions writable fails is the
   transaction left pending, with nothing done.
   */
  method InstallHooks(d: Detours, owner: nat, writableError: nat, calls: seq<Call>, os: OS,
                      ghost imported: (nat, nat) -> bool, ghost requests: seq<Request>)
    returns (result: nat, ghost failed: nat, ghost pool: Pool)
    requires d.Valid() && owner != 0 && !d.ignoreTooSmall && SoundSystem(os, imported, d.mapped) && |requests| == |calls|
    requires Scripted(d.space.bytes, d.mapped, imported, owner, calls, requests)
    modifies d, d.space, d.pages, d.heap
    ensures d.Valid()
    ensures old(d.pendingThread) != 0 ==> result == ERROR_INVALID_OPERATION && d.pendingThread == old(d.pendingThread)
    ensures old(d.pendingThread) == 0 ==>
      d.pendingThread == (if writableError != NO_ERROR then owner else 0) && (writableError != NO_ERROR ==> result == writableError)
    ensures old(d.pendingThread) == 0 && writableError == NO_ERROR && old(Installable(Pool(d.heap.regions, d.heap.free), os, d.space.bytes, calls, requests)) ==>
      result == NO_ERROR
    ensures result != NO_ERROR ==>
      && SameMapped(old(d.space.bytes), d.space.bytes, d.mapped) && d.heap.live == old(d.heap.live)
      && (OnePageRequests(calls, requests) ==> d.pages.protections == old(d.pages.protections))
    ensures result == NO_ERROR ==>
      && (SeparateRequests(calls, requests) ==>
            forall k :: 0 <= k < |calls| && Asks(calls[k], requests[k]) ==> InPlace(d.space.bytes, d.heap.live, calls[k], requests[k]))
      && (OnePageRequests(calls, requests) ==> d.pages.protections == old(d.pages.protections))
    ensures old(d.pendingThread) != 0 || writableError != NO_ERROR ==> d.pages.protections == old(d.pages.protections)
    ensures old(d.pendingThread) == 0 && writableError == NO_ERROR ==>
      && FailedFirst(old(d.space.bytes), os, pool, calls, requests, |calls|, failed, result, d.pendingPointer)
      && (d.pages.protections == old(d.pages.protections) <==> Recoverable(Ranges(calls, requests, failed), old(d.pages.protections)))
  {
    hide RegionOf, U32At, Moves, SkipJmp, Queue, AllServed, MappedRange, Pending, Remembers, Managed, Sound, Scripted, Committed,
      SeparateRequests, OnePageRequests, AllOnePage, Undone, OpOk, RoomIn, Taken, Detours.SlotAtHand,
      Restorable, ReleasesOnce, Separate, Recoverable, Ranges, Asking, OnlyAsked, InPlace, Changes, Refused, FailedFirst,
      Ready, Found, NewRegionWill, Starving, Detours.SlotAtHand;
    ghost var m, s, live := d.space.bytes, d.pages.protections, d.heap.live;
    NothingChanges(m, d.mapped, live);
    result := d.Begin(owner, writableError);
    failed := 0;
    pool := Pool(d.heap.regions, d.heap.free);
    NoneFailed(m, os, pool, calls, requests, d.pendingPointer);
    if result != NO_ERROR {
      return;
    }
    ghost var regions0 := d.heap.regions;
    ghost var installable := Installable(pool, os, m, calls, requests);
    ghost var b: nat := if installable then RoomyRegion(pool, os, m, calls, requests) else 0;
    ghost var served: seq<nat> := [];
    var n := 0;
    EmptyQueue(m, calls, requests);
    while n < |calls|
      invariant Installing(d, m, s, live, owner, calls, requests, served, n, result)
      invariant OnlyAsked(calls, requests, served) && !d.ignoreTooSmall
      invariant failed <= n && (result == NO_ERROR ==> failed == n) && served == Asking(calls, requests, failed)
      invariant FailedFirst(m, os, pool, calls, requests, n, failed, result, d.pendingPointer)
      invariant installable ==>
        result == NO_ERROR && Ready(regions0, Pool(d.heap.regions, d.heap.free), os, m, calls, requests, |calls| - n, b)
    {
      ghost var was, now := pool, Pool(d.heap.regions, d.heap.free);
      AllListed(d);
      var r := d.heap.ListRegions();
      var env := os(r);
      assert Sound(env, r, d.mapped) && env.imported == imported;
      var c := calls[n];
      AskingMore(calls, requests, n);
      ghost var error, pending := result, d.pendingPointer;
      if !c.Install? {
        Scheduled(m, d.mapped, imported, owner, calls, requests, n);
        OtherThread(d, c, env);
        QueueSkips(d.space.bytes, d.operations, calls, requests, served, n);
      } else if result == NO_ERROR {
        env := env.(operationAllocated := c.operationAllocated, protectError := c.protectError, unset := c.unset);
        SoundWhatever(os(r), env, r, d.mapped);
        Scheduled(m, d.mapped, imported, owner, calls, requests, n);
        if installable {
          RoomServes(d, os, regions0, m, s, live, owner, calls, requests, served, n, b);
          assert Easy(m, c, requests[n]);
        }
        pool := now;
        result, served := InstallOne(d, owner, c, env, os, m, s, live, imported, calls, requests, served, n);
      } else {
        QueueSkips(d.space.bytes, d.operations, calls, requests, served, n);
      }
      if installable {
        AllListed(d);
        b := StillReady(regions0, now, Pool(d.heap.regions, d.heap.free), os, m, calls, requests, n, b);
      }
      FailedNext(m, os, was, calls, requests, n, failed, error, pending, pool, result, d.pendingPointer);
      n := n + 1;
      if result == NO_ERROR {
        failed := n;
      }
    }
    result := CommitOrAbort(d, owner, result, m, s, live, imported, calls, requests, served, failed);
  }

  // The end of the installation: a commit, or after a failure an abort.
  method CommitOrAbort(d: Detours, owner: nat, error: nat, ghost m: Memory, ghost s: Protections, ghost live: set<nat>,
                       ghost imported: (nat, nat) -> bool, ghost calls: seq<Call>, ghost requests: seq<Request>, ghost served: seq<nat>,
                       ghost failed: nat)
    returns (result: nat)
    requires |requests| == |calls| && Installing(d, m, s, live, owner, calls, requests, served, |calls|, error)
    requires Scripted(m, d.mapped, imported, owner, calls, requests) && OnlyAsked(calls, requests, served)
    requires failed <= |calls| && served == Asking(calls, requests, failed)
    modifies d, d.space, d.pages, d.heap
    ensures d.Valid() && result == error && d.pendingThread == 0 && d.pendingPointer == old(d.pendingPointer)
    ensures result != NO_ERROR ==>
      && SameMapped(m, d.space.bytes, d.mapped) && d.heap.live == live
      && (OnePageRequests(calls, requests) ==> d.pages.protections == s)
    ensures result == NO_ERROR ==>
      && (SeparateRequests(calls, requests) ==>
            forall k :: 0 <= k < |calls| && Asks(calls[k], requests[k]) ==> InPlace(d.space.bytes, d.heap.live, calls[k], requests[k]))
      && (OnePageRequests(calls, requests) ==> d.pages.protections == s)
    ensures d.pages.protections == s <==> Recoverable(Ranges(calls, requests, failed), s)
  {
    hide RegionOf, U32At, Moves, SkipJmp, Queue, AllServed, MappedRange, Pending, Remembers, Managed, Sound, Scripted, Committed,
      SeparateRequests, OnePageRequests, AllOnePage, Undone, OpOk, Taken, Restorable, ReleasesOnce, Separate, Recoverable, Ranges, Asking,
      OnlyAsked, InPlace, Changes;
    result := error;
    ghost var m1, ops := d.space.bytes, d.operations;
    PendingIsEditable(m1, d.pages.protections, d.mapped, d.heap.live, ops, d.start);
    PendingRestores(m1, d.pages.protections, d.mapped, d.heap.live, ops, d.start);
    QueueRanges(m1, ops, calls, requests, failed, s);
    if OnePageRequests(calls, requests) {
      QueueOnePage(m1, ops, calls, requests, served);
    }
    if result != NO_ERROR {
      var aborted := d.Abort(owner);
      return;
    }
    NothingRemoved(m1, ops, calls, requests, served);
    var pointer, none;
    result, pointer, none := d.Commit(owner, []);
    if SeparateRequests(calls, requests) {
      QueueIsSeparate(m1, ops, calls, requests, served);
      forall k | 0 <= k < |calls| && Asks(calls[k], requests[k])
        ensures InPlace(d.space.bytes, d.heap.live, calls[k], requests[k])
      {
        Scheduled(m, d.mapped, imported, owner, calls, requests, k);
        EffectInPlace(m1, d.space.bytes, d.mapped, d.heap.live, ops, calls, requests, served, k);
      }
    }
  }

  lemma {:induction false} Scheduled(m: Memory, mapped: set<nat>, imported: (nat, nat) -> bool, owner: nat, calls: seq<Call>,
                                     requests: seq<Request>, k: nat)
    requires Scripted(m, mapped, imported, owner, calls, requests) && k < |calls| == |requests|
    ensures if calls[k].Install? then MappedRange(mapped, calls[k].pointer, 4) && MappedRange(mapped, requests[k].target, WINDOW)
            else calls[k].thread != owner && calls[k].thread != 0
  {
    hide Moves, Resolves, RegionOf;
  }

  lemma {:induction false} SoundWhatever(env: Environment, env': Environment, regions: seq<nat>, mapped: set<nat>)
    requires Sound(env, regions, mapped) && env'.map_ == env.map_ && env'.imported == env.imported
    ensures Sound(env', regions, mapped)
  {
  }

  lemma {:induction false} QueueSkips(m: Memory, ops: seq<Operation>, calls: seq<Call>, requests: seq<Request>, served: seq<nat>, n: nat)
    requires |requests| == |calls| && Queue(m, ops, calls, requests, served, n) && n < |calls|
    ensures Queue(m, ops, calls, requests, served, n + 1)
    ensures AllServed(calls, requests, served, n) && !Asks(calls[n], requests[n]) ==> AllServed(calls, requests, served, n + 1)
  {
    hide Serves;
  }

  lemma {:induction false} PendingIsEditable(m: Memory, s: Protections, mapped: set<nat>, live: set<nat>, ops: seq<Operation>,
                                             start: Snapshot)
    requires Pending(m, s, mapped, live, ops, start)
    ensures AllEditable(m, ops) && live == start.live + Attached(ops)
  {
  }

  lemma {:induction false} EmptyQueue(m: Memory, calls: seq<Call>, requests: seq<Request>)
    requires |requests| == |calls|
    ensures Queue(m, [], calls, requests, [], 0) && AllServed(calls, requests, [], 0) && OnlyAsked(calls, requests, [])
  {
  }
}