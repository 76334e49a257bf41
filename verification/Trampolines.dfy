/** The trampoline allocator: 64 KB regions whose free slots are chained through their own memory. */
module Trampolines {
  import opened Words
  import opened MovedCode
  import opened RegionSearch

  const SIGNATURE: Word := 0x52727464   // 'Rrtd'
  const TRAMPOLINES_PER_REGION := REGION_SIZE / TRAMPOLINE_SIZE - 1

  // Fields of a region's header, and the field of a trampoline that chains it when it is free.
  const P_NEXT := 4
  const P_FREE := 8

  function SlotAt(region: nat, i: nat): nat { region + TRAMPOLINE_SIZE * (i + 1) }

  /** The header's fields are three words. */
  lemma {:induction false} HeaderIs()
    ensures
      var fields := [Field(4, 4), Field(4, 4), Field(4, 4)];
      P_NEXT == OffsetOf(fields, 1) && P_FREE == OffsetOf(fields, 2)
  {
    var fields := [Field(4, 4), Field(4, 4), Field(4, 4)];
    assert OffsetOf(fields, 0) == 0 && OffsetOf(fields, 1) == 4;
  }

  /** A region's header and slots do not overlap, and no slot more would fit. */
  lemma {:induction false} RegionIsFull(b: nat, i: nat)
    ensures SlotAt(b, i + 1) == SlotAt(b, i) + 72 && b + 12 <= SlotAt(b, 0)
    ensures i < TRAMPOLINES_PER_REGION <==> SlotAt(b, i) + 72 <= b + 0x1_0000
    ensures TRAMPOLINES_PER_REGION == 909
  {
  }

  // The region that the search for the target finds in this state of memory.
  ghost predicate Found(map_: AddressMap, m: Memory, pbTarget: nat, b: nat)
    requires pbTarget + 6 <= |m|
  {
    var w := JumpBounds(Bits32, m, pbTarget);
    FirstFound(map_, RoundDown(pbTarget), w.lo, w.hi, b)
  }

  // A region at a is within reach, from the byte before it up to its first slot.
  predicate RegionInReach(m: Memory, pbTarget: nat, a: nat)
    requires pbTarget + 6 <= |m|
  {
    WithinReach(Bits32, m, pbTarget, a - 1) && WithinReach(Bits32, m, pbTarget, SlotAt(a, 2))
  }

  // No usable region is within reach, but for those that the search skips, and those behind an address at which it stops.
  ghost predicate NothingToBeHad(map_: AddressMap, m: Memory, pbTarget: nat)
    requires pbTarget + 6 <= |m|
  {
    forall a :: Usable(map_, a) && !SkippedUp(a) && !SkippedDown(a) && RegionInReach(m, pbTarget, a) ==>
      StopsAbove(map_, a, RoundDown(pbTarget)) || StopsBelow(map_, RoundDown(pbTarget), a)
  }

  // A new region does not help either: none is to be had, or the one that is found is not within reach.
  ghost predicate NoRegionFor(map_: AddressMap, m: Memory, pbTarget: nat)
    requires pbTarget + 6 <= |m|
  {
    || NothingToBeHad(map_, m, pbTarget)
    || exists b :: Found(map_, m, pbTarget, b) && !WithinReach(Bits32, m, pbTarget, SlotAt(b, 2))
  }

  // No region has a slot for the target, and none can be had that would.
  ghost predicate Starving(regions: seq<nat>, free: map<nat, seq<nat>>, map_: AddressMap, m: Memory, pbTarget: nat)
    requires pbTarget + 6 <= |m|
  {
    && (forall b :: b in regions && b in free && free[b] != [] ==> !WithinReach(Bits32, m, pbTarget, free[b][0]))
    && NoRegionFor(map_, m, pbTarget)
  }

  // A usable region within reach that the search comes to, and none out of reach that it would come to before.
  ghost predicate RegionAtHand(map_: AddressMap, m: Memory, pbTarget: nat, a: nat)
    requires pbTarget + 6 <= |m|
  {
    var t := RoundDown(pbTarget);
    && Usable(map_, a) && !SkippedUp(a) && !SkippedDown(a) && RegionInReach(m, pbTarget, a)
    && !StopsAbove(map_, a, t) && !StopsBelow(map_, t, a)
    && forall b :: (a < b < t || t <= b < a) && Usable(map_, b) ==> WithinReach(Bits32, m, pbTarget, SlotAt(b, 2))
  }

  /** Such a region is enough for one that is found to be within reach. */
  lemma {:induction false} RegionAtHandIsFound(map_: AddressMap, m: Memory, pbTarget: nat, a: nat)
    requires pbTarget + 6 <= |m| <= TWO32 && RegionAtHand(map_, m, pbTarget, a)
    ensures !NoRegionFor(map_, m, pbTarget)
  {
    hide Usable, SkippedUp, SkippedDown, StopsAbove, StopsBelow, JumpBounds, WithinReach;
    var t, w := RoundDown(pbTarget), JumpBounds(Bits32, m, pbTarget);
    WindowIs(Bits32, m, pbTarget, a - 1);
    WindowIs(Bits32, m, pbTarget, SlotAt(a, 2));
    forall b: nat | Found(map_, m, pbTarget, b)
      ensures WithinReach(Bits32, m, pbTarget, SlotAt(b, 2))
    {
      WindowIs(Bits32, m, pbTarget, SlotAt(b, 2));
      if b < t <= a {
        UsableIsAligned(map_, b);
        FitsBelow(t, b);
      }
    }
  }

  lemma {:induction false} ReachIsWindow(m: Memory, pbTarget: nat)
    requires pbTarget + 6 <= |m| <= TWO32
    ensures
      var w := JumpBounds(Bits32, m, pbTarget);
      forall p :: w.lo <= p <= w.hi <==> WithinReach(Bits32, m, pbTarget, p)
  {
    hide WithinReach, JumpBounds;
    forall p
      ensures JumpBounds(Bits32, m, pbTarget).lo <= p <= JumpBounds(Bits32, m, pbTarget).hi <==> WithinReach(Bits32, m, pbTarget, p)
    {
      WindowIs(Bits32, m, pbTarget, p);
    }
  }

  lemma {:induction false} FitsBelow(t: nat, b: nat)
    requires t % REGION_SIZE == 0 && b % REGION_SIZE == 0 && b < t
    ensures SlotAt(b, 2) < t
  {
  }

  // The slots that are ever handed out: the first two of a region are not.
  predicate IsSlot(region: nat, p: nat)
  {
    && SlotAt(region, 2) <= p <= SlotAt(region, TRAMPOLINES_PER_REGION - 1)
    && (p - region) % TRAMPOLINE_SIZE == 0
  }

  // pTrampoline & ~0xffff
  function RegionOf(p: nat): nat { p - p % REGION_SIZE }

  // The null-terminated chain from head on visits the nodes s, whose links are at the given offset.
  ghost predicate Linked(m: Memory, head: Word, s: seq<nat>, offset: nat)
  {
    && head == (if |s| == 0 then 0 else s[0])
    && forall k :: 0 <= k < |s| ==> LinkAt(m, s, k, offset)
  }

  ghost predicate LinkAt(m: Memory, s: seq<nat>, k: nat, offset: nat)
    requires k < |s|
  {
    && 0 < s[k] && s[k] + offset + 4 <= |m|
    && U32At(m, s[k] + offset) == (if k + 1 < |s| then s[k + 1] else 0)
  }

  /** A chain is determined by its head, so it visits no node twice. */
  lemma {:induction false} ChainIsUnique(m: Memory, head: Word, s: seq<nat>, t: seq<nat>, offset: nat)
    requires Linked(m, head, s, offset) && Linked(m, head, t, offset)
    ensures s == t
    decreases |s|
  {
    hide U32At;
    assert |s| > 0 ==> LinkAt(m, s, 0, offset);
    assert |t| > 0 ==> LinkAt(m, t, 0, offset);
    if |s| > 0 {
      LinkedRest(m, head, s, offset);
      LinkedRest(m, head, t, offset);
      ChainIsUnique(m, U32At(m, s[0] + offset), s[1..], t[1..], offset);
      assert s == [s[0]] + s[1..] && t == [t[0]] + t[1..];
    }
  }

  lemma {:induction false} LinkedSuffix(m: Memory, head: Word, s: seq<nat>, offset: nat, k: nat)
    requires Linked(m, head, s, offset) && k < |s|
    ensures s[k] < TWO32 && Linked(m, s[k], s[k..], offset)
  {
    hide U32At;
    assert k > 0 ==> LinkAt(m, s, k - 1, offset);
    forall j | 0 <= j < |s[k..]|
      ensures LinkAt(m, s[k..], j, offset)
    {
      assert LinkAt(m, s, k + j, offset);
    }
  }

  lemma {:induction false} LinkedRest(m: Memory, head: Word, s: seq<nat>, offset: nat)
    requires Linked(m, head, s, offset) && |s| > 0
    ensures s[0] + offset + 4 <= |m| && Linked(m, U32At(m, s[0] + offset), s[1..], offset)
  {
    hide U32At;
    assert LinkAt(m, s, 0, offset);
    if |s| > 1 {
      LinkedSuffix(m, head, s, offset, 1);
    }
  }

  lemma {:induction false} ChainHasNoRepeats(m: Memory, head: Word, s: seq<nat>, offset: nat)
    requires Linked(m, head, s, offset)
    ensures forall j, k :: 0 <= j < k < |s| ==> s[j] != s[k]
  {
    forall j, k | 0 <= j < k < |s|
      ensures s[j] != s[k]
    {
      LinkedSuffix(m, head, s, offset, j);
      LinkedSuffix(m, head, s, offset, k);
      if s[j] == s[k] {
        ChainIsUnique(m, s[j], s[j..], s[k..], offset);
      }
    }
  }

  // The region at b is well formed: its free chain lists exactly the slots that are not live.
  ghost predicate RegionOk(m: Memory, b: nat, free: seq<nat>, live: set<nat>)
  {
    && 0 < b && b % REGION_SIZE == 0 && b + REGION_SIZE <= |m|
    && U32At(m, b) == SIGNATURE
    && Linked(m, U32At(m, b + P_FREE), free, PB_REMAIN)
    && (forall p :: p in free <==> IsSlot(b, p) && p !in live)
    && U32At(m, SlotAt(b, 0) + PB_REMAIN) == 0 && U32At(m, SlotAt(b, 1) + PB_REMAIN) == 0
  }

  // The static variables s_pRegions and the regions chained from it.
  ghost predicate Managed(m: Memory, pRegions: Word, regions: seq<nat>, free: map<nat, seq<nat>>, live: set<nat>)
  {
    && |m| <= TWO32
    && Linked(m, pRegions, regions, P_NEXT)
    && (forall b :: b in regions ==> b in free && RegionOk(m, b, free[b], live))
    && (forall p :: p in live ==> RegionOf(p) in regions && IsSlot(RegionOf(p), p))
  }

  /** The mask finds the region a slot lies in. */
  lemma {:induction false} MaskFindsRegion(b: nat, p: nat)
    requires b % REGION_SIZE == 0 && IsSlot(b, p)
    ensures RegionOf(p) == b && b + TRAMPOLINE_SIZE <= p && p + TRAMPOLINE_SIZE <= b + REGION_SIZE
  {
  }

  lemma {:induction false} RegionsApart(b: nat, c: nat)
    requires b % REGION_SIZE == 0 && c % REGION_SIZE == 0 && b != c
    ensures b + REGION_SIZE <= c || c + REGION_SIZE <= b
  {
  }

  lemma {:induction false} SlotsApart(b: nat, p: nat, q: nat)
    requires IsSlot(b, p) && IsSlot(b, q) && p != q
    ensures p + TRAMPOLINE_SIZE <= q || q + TRAMPOLINE_SIZE <= p
  {
  }

  lemma {:induction false} U32Kept(m: Memory, m': Memory, a: nat)
    requires |m| == |m'| && a + 4 <= |m| && forall k :: a <= k < a + 4 ==> m'[k] == m[k]
    ensures U32At(m', a) == U32At(m, a)
  {
  }

  lemma {:induction false} U32Written(m: Memory, a: nat, w: Word)
    requires a + 4 <= |m|
    ensures U32At(Written(m, a, Le32(w)), a) == w
  {
    WrittenHolds(m, a, Le32(w));
    Holds32(Written(m, a, Le32(w)), a, w);
  }

  // A chain whose links are untouched is still a chain.
  lemma {:induction false} ChainKept(m: Memory, m': Memory, head: Word, s: seq<nat>, offset: nat)
    requires Linked(m, head, s, offset) && |m| == |m'|
    requires forall k, a :: 0 <= k < |s| && s[k] + offset <= a < s[k] + offset + 4 && a < |m| ==> m'[a] == m[a]
    ensures Linked(m', head, s, offset)
  {
    hide U32At;
    forall k | 0 <= k < |s|
      ensures LinkAt(m', s, k, offset)
    {
      assert LinkAt(m, s, k, offset);
      U32Kept(m, m', s[k] + offset);
    }
  }

  // A node put in front of a chain.
  lemma {:induction false} ChainPushed(m: Memory, head: Word, s: seq<nat>, offset: nat, p: Word)
    requires Linked(m, head, s, offset) && 0 < p && p + offset + 4 <= |m| && U32At(m, p + offset) == head
    ensures Linked(m, p, [p] + s, offset)
  {
    hide U32At;
    var t: seq<nat> := [p] + s;
    forall k | 0 <= k < |t|
      ensures LinkAt(m, t, k, offset)
    {
      if k > 0 {
        assert LinkAt(m, s, k - 1, offset);
      }
    }
  }

  // A region that is untouched, none of whose slots changed hands.
  lemma {:induction false} RegionKept(m: Memory, m': Memory, b: nat, free: seq<nat>, live: set<nat>, live': set<nat>)
    requires RegionOk(m, b, free, live) && |m| == |m'|
    requires forall a :: b <= a < b + REGION_SIZE && !(b + P_NEXT <= a < b + P_FREE) ==> m'[a] == m[a]
    requires forall p :: IsSlot(b, p) ==> (p in live' <==> p in live)
    ensures RegionOk(m', b, free, live')
  {
    hide U32At;
    U32Kept(m, m', b);
    U32Kept(m, m', b + P_FREE);
    U32Kept(m, m', SlotAt(b, 0) + PB_REMAIN);
    U32Kept(m, m', SlotAt(b, 1) + PB_REMAIN);
    forall k, a | 0 <= k < |free| && free[k] + PB_REMAIN <= a < free[k] + PB_REMAIN + 4 && a < |m|
      ensures m'[a] == m[a]
    {
      assert free[k] in free;
    }
    ChainKept(m, m', U32At(m, b + P_FREE), free, PB_REMAIN);
  }

  // Work on one region leaves the others as they are.
  lemma {:induction false} ManagedStep(m: Memory, m': Memory, pRegions: Word, regions: seq<nat>, free: map<nat, seq<nat>>,
                                       live: set<nat>, b: nat, f: seq<nat>, live': set<nat>)
    requires Managed(m, pRegions, regions, free, live) && b in regions
    requires Outside(m, m', b + P_FREE, REGION_SIZE - P_FREE) && RegionOk(m', b, f, live')
    requires forall p :: RegionOf(p) != b ==> (p in live' <==> p in live)
    requires forall p :: p in live' && RegionOf(p) == b ==> IsSlot(b, p)
    ensures Managed(m', pRegions, regions, free[b := f], live')
  {
    hide U32At, RegionOf, IsSlot;
    forall c | c in regions && c != b
      ensures RegionOk(m', c, free[c], live')
    {
      RegionsApart(b, c);
      forall p | IsSlot(c, p)
        ensures p in live' <==> p in live
      {
        MaskFindsRegion(c, p);
      }
      RegionKept(m, m', c, free[c], live, live');
    }
    forall k, a | 0 <= k < |regions| && regions[k] + P_NEXT <= a < regions[k] + P_NEXT + 4 && a < |m|
      ensures m'[a] == m[a]
    {
      assert regions[k] in regions;
      if regions[k] != b {
        RegionsApart(b, regions[k]);
      }
    }
    ChainKept(m, m', pRegions, regions, P_NEXT);
  }

  // What is written in a slot in use does not concern the allocator.
  lemma {:induction false} ManagedAfterUse(m: Memory, m': Memory, pRegions: Word, regions: seq<nat>, free: map<nat, seq<nat>>,
                                           live: set<nat>, p: nat)
    requires Managed(m, pRegions, regions, free, live) && p in live && Outside(m, m', p, TRAMPOLINE_SIZE)
    ensures Managed(m', pRegions, regions, free, live)
  {
    hide U32At, RegionOf, IsSlot, LinkAt;
    var b := RegionOf(p);
    MaskFindsRegion(b, p);
    HeaderKept(m, m', b, p);
    U32Kept(m, m', b + P_FREE);
    LinksApart(m, m', b, p, free[b]);
    ChainKept(m, m', U32At(m, b + P_FREE), free[b], PB_REMAIN);
    ManagedStep(m, m', pRegions, regions, free, live, b, free[b], live);
    assert free[b := free[b]] == free;
  }

  // Nor is what is written outside the regions.
  lemma {:induction false} ManagedElsewhere(m: Memory, m': Memory, pRegions: Word, regions: seq<nat>, free: map<nat, seq<nat>>,
                                            live: set<nat>)
    requires Managed(m, pRegions, regions, free, live) && |m| == |m'|
    requires forall a :: 0 <= a < |m| && RegionOf(a) in regions ==> m'[a] == m[a]
    ensures Managed(m', pRegions, regions, free, live)
  {
    hide U32At, IsSlot, LinkAt;
    forall b | b in regions
      ensures RegionOk(m', b, free[b], live)
    {
      RegionKept(m, m', b, free[b], live, live);
    }
    forall k, a | 0 <= k < |regions| && regions[k] + P_NEXT <= a < regions[k] + P_NEXT + 4 && a < |m|
      ensures m'[a] == m[a]
    {
      assert regions[k] in regions && RegionOk(m, regions[k], free[regions[k]], live);
    }
    ChainKept(m, m', pRegions, regions, P_NEXT);
  }

  lemma {:induction false} ByteOfSlot(p: nat, a: nat)
    requires IsSlot(RegionOf(p), p) && p <= a < p + TRAMPOLINE_SIZE
    ensures RegionOf(a) == RegionOf(p)
  {
    MaskFindsRegion(RegionOf(p), p);
  }

  // Only memory of the given regions was written, and no slot in kept.
  ghost predicate Undisturbed(m: Memory, m': Memory, regions: seq<nat>, kept: set<nat>)
  {
    && |m| == |m'|
    && (forall a :: 0 <= a < |m| && RegionOf(a) !in regions ==> m'[a] == m[a])
    && (forall q, a :: q in kept && q <= a < q + TRAMPOLINE_SIZE && a < |m| ==> m'[a] == m[a])
  }

  // The slot p and the head of its region's free chain were written.
  ghost predicate SlotEdited(m: Memory, m': Memory, p: nat)
  {
    var b := RegionOf(p);
    && |m| == |m'|
    && forall a :: 0 <= a < |m| && !(p <= a < p + TRAMPOLINE_SIZE) && !(b + P_FREE <= a < b + P_FREE + 4) ==> m'[a] == m[a]
  }

  lemma {:induction false} EditUndisturbs(m: Memory, m': Memory, regions: seq<nat>, kept: set<nat>, p: nat)
    requires SlotEdited(m, m', p) && IsSlot(RegionOf(p), p) && RegionOf(p) in regions && p !in kept
    requires forall q :: q in kept ==> IsSlot(RegionOf(q), q)
    ensures Undisturbed(m, m', regions, kept)
  {
    hide IsSlot;
    var b := RegionOf(p);
    forall a | 0 <= a < |m| && RegionOf(a) !in regions
      ensures m'[a] == m[a]
    {
      if p <= a < p + TRAMPOLINE_SIZE || b + P_FREE <= a < b + P_FREE + 4 {
        MaskFindsRegion(b, p);
      }
    }
    forall q, a | q in kept && q <= a < q + TRAMPOLINE_SIZE && a < |m|
      ensures m'[a] == m[a]
    {
      MaskFindsRegion(RegionOf(q), q);
      MaskFindsRegion(b, p);
      if RegionOf(q) == b {
        SlotsApart(b, p, q);
      } else {
        RegionsApart(RegionOf(q), b);
      }
    }
  }

  function Fill(x: Byte, n: nat): (s: seq<Byte>)
    ensures |s| == n && forall k :: 0 <= k < n ==> s[k] == x
  {
    seq(n, _ => x)
  }

  // The bytes of a slot that is taken off, and of one that is put on, a chain.
  function TakenFrom(m: Memory, b: nat, p: nat): (r: Memory)
    requires b + P_FREE + 4 <= |m| && p + TRAMPOLINE_SIZE <= |m|
    ensures |r| == |m|
  {
    Written(Written(m, b + P_FREE, Le32(U32At(m, p + PB_REMAIN))), p, Fill(0xCC, TRAMPOLINE_SIZE))
  }

  function ReturnedTo(m: Memory, b: nat, p: nat): (r: Memory)
    requires b + P_FREE + 4 <= |m| && p + TRAMPOLINE_SIZE <= |m| && p < TWO32
    ensures |r| == |m|
  {
    var m1 := Written(m, p, Fill(0, TRAMPOLINE_SIZE));
    var m2 := Written(m1, p + PB_REMAIN, Le32(U32At(m1, b + P_FREE)));
    Written(m2, b + P_FREE, Le32(p))
  }

  lemma {:induction false} TakenEdits(m: Memory, b: nat, p: nat)
    requires b + REGION_SIZE <= |m| && IsSlot(b, p) && b % REGION_SIZE == 0
    ensures SlotEdited(m, TakenFrom(m, b, p), p)
    ensures Outside(m, TakenFrom(m, b, p), b + P_FREE, REGION_SIZE - P_FREE)
    ensures U32At(TakenFrom(m, b, p), b + P_FREE) == U32At(m, p + PB_REMAIN)
    ensures Holds(TakenFrom(m, b, p), p, Fill(0xCC, TRAMPOLINE_SIZE))
  {
    hide U32At, IsSlot;
    MaskFindsRegion(b, p);
    var m1 := Written(m, b + P_FREE, Le32(U32At(m, p + PB_REMAIN)));
    U32Written(m, b + P_FREE, U32At(m, p + PB_REMAIN));
    U32Kept(m1, TakenFrom(m, b, p), b + P_FREE);
    WrittenHolds(m1, p, Fill(0xCC, TRAMPOLINE_SIZE));
  }

  lemma {:induction false} ReturnedEdits(m: Memory, b: nat, p: nat)
    requires b + REGION_SIZE <= |m| <= TWO32 && IsSlot(b, p) && b % REGION_SIZE == 0
    ensures SlotEdited(m, ReturnedTo(m, b, p), p)
    ensures Outside(m, ReturnedTo(m, b, p), b + P_FREE, REGION_SIZE - P_FREE)
    ensures U32At(ReturnedTo(m, b, p), b + P_FREE) == p
    ensures U32At(ReturnedTo(m, b, p), p + PB_REMAIN) == U32At(m, b + P_FREE)
  {
    hide U32At, IsSlot;
    MaskFindsRegion(b, p);
    var m1 := Written(m, p, Fill(0, TRAMPOLINE_SIZE));
    U32Kept(m, m1, b + P_FREE);
    var m2 := Written(m1, p + PB_REMAIN, Le32(U32At(m1, b + P_FREE)));
    U32Written(m1, p + PB_REMAIN, U32At(m1, b + P_FREE));
    U32Written(m2, b + P_FREE, p);
    U32Kept(m2, ReturnedTo(m, b, p), p + PB_REMAIN);
  }

  /** Taking the first free slot of a region, and giving a live one back. */
  lemma {:induction false} TakeKeepsRegion(m: Memory, b: nat, free: seq<nat>, live: set<nat>)
    requires RegionOk(m, b, free, live) && |free| > 0
    ensures U32At(m, b + P_FREE) == free[0] && IsSlot(b, free[0]) && free[0] !in live
    ensures RegionOk(TakenFrom(m, b, free[0]), b, free[1..], live + {free[0]})
  {
    hide U32At, IsSlot, TakenFrom;
    var p := free[0];
    assert p in free;
    MaskFindsRegion(b, p);
    var m' := TakenFrom(m, b, p);
    TakenEdits(m, b, p);
    HeaderKept(m, m', b, p);
    LinkedRest(m, U32At(m, b + P_FREE), free, PB_REMAIN);
    ChainHasNoRepeats(m, U32At(m, b + P_FREE), free, PB_REMAIN);
    var rest := free[1..];
    assert forall q :: q in free <==> q == p || q in rest;
    assert forall k :: 0 <= k < |rest| ==> rest[k] == free[k + 1];
    LinksApart(m, m', b, p, rest);
    ChainKept(m, m', U32At(m, p + PB_REMAIN), rest, PB_REMAIN);
  }

  lemma {:induction false} ReturnKeepsRegion(m: Memory, b: nat, free: seq<nat>, live: set<nat>, p: nat)
    requires RegionOk(m, b, free, live) && |m| <= TWO32 && IsSlot(b, p) && p in live
    ensures RegionOk(ReturnedTo(m, b, p), b, [p] + free, live - {p})
  {
    hide U32At, IsSlot, ReturnedTo;
    MaskFindsRegion(b, p);
    var m' := ReturnedTo(m, b, p);
    ReturnedEdits(m, b, p);
    HeaderKept(m, m', b, p);
    LinksApart(m, m', b, p, free);
    ChainKept(m, m', U32At(m, b + P_FREE), free, PB_REMAIN);
    ChainPushed(m', U32At(m, b + P_FREE), free, PB_REMAIN, p);
  }

  lemma {:induction false} HeaderKept(m: Memory, m': Memory, b: nat, p: nat)
    requires SlotEdited(m, m', p) && IsSlot(b, p) && b % REGION_SIZE == 0 && b + REGION_SIZE <= |m|
    ensures U32At(m', b) == U32At(m, b)
    ensures U32At(m', SlotAt(b, 0) + PB_REMAIN) == U32At(m, SlotAt(b, 0) + PB_REMAIN)
    ensures U32At(m', SlotAt(b, 1) + PB_REMAIN) == U32At(m, SlotAt(b, 1) + PB_REMAIN)
  {
    hide U32At;
    MaskFindsRegion(b, p);
    U32Kept(m, m', b);
    U32Kept(m, m', SlotAt(b, 0) + PB_REMAIN);
    U32Kept(m, m', SlotAt(b, 1) + PB_REMAIN);
  }

  lemma {:induction false} LinksApart(m: Memory, m': Memory, b: nat, p: nat, s: seq<nat>)
    requires SlotEdited(m, m', p) && IsSlot(b, p) && b % REGION_SIZE == 0
    requires forall q :: q in s ==> IsSlot(b, q) && q != p
    ensures forall k, a :: 0 <= k < |s| && s[k] + PB_REMAIN <= a < s[k] + PB_REMAIN + 4 && a < |m| ==> m'[a] == m[a]
  {
    hide IsSlot;
    MaskFindsRegion(b, p);
    forall k, a | 0 <= k < |s| && s[k] + PB_REMAIN <= a < s[k] + PB_REMAIN + 4 && a < |m|
      ensures m'[a] == m[a]
    {
      assert s[k] in s;
      SlotsApart(b, p, s[k]);
      MaskFindsRegion(b, s[k]);
    }
  }

  // The slots of a region from number i on.
  function SlotsFrom(b: nat, i: nat): seq<nat>
    requires i <= TRAMPOLINES_PER_REGION
  {
    seq<nat>(TRAMPOLINES_PER_REGION - i, k requires 0 <= k < TRAMPOLINES_PER_REGION - i => SlotAt(b, i + k))
  }

  lemma {:induction false} SlotsAreSlots(b: nat, p: nat)
    ensures p in SlotsFrom(b, 2) <==> IsSlot(b, p)
  {
    var s := SlotsFrom(b, 2);
    if IsSlot(b, p) {
      var k := (p - b) / TRAMPOLINE_SIZE - 3;
      assert s[k] == p;
    }
  }

  lemma {:induction false} LaterSlot(b: nat, i: nat, k: nat)
    requires i <= TRAMPOLINES_PER_REGION && k < |SlotsFrom(b, i)|
    ensures SlotAt(b, i) <= SlotsFrom(b, i)[k]
  {
    var s := SlotsFrom(b, i);
    assert s[k] == SlotAt(b, i + k);
  }

  lemma {:induction false} MoreSlots(b: nat, i: nat)
    requires i < TRAMPOLINES_PER_REGION
    ensures SlotsFrom(b, i) == [SlotAt(b, i)] + SlotsFrom(b, i + 1)
  {
  }

  // A region under construction: the slots from i on are chained from pFree.
  ghost predicate Chaining(m: Memory, m': Memory, b: nat, next: Word, pFree: Word, i: nat)
    requires i <= TRAMPOLINES_PER_REGION && b + REGION_SIZE <= |m|
  {
    && Outside(m, m', b, REGION_SIZE)
    && U32At(m', b) == SIGNATURE && U32At(m', b + P_NEXT) == next
    && U32At(m', SlotAt(b, 0) + PB_REMAIN) == 0 && U32At(m', SlotAt(b, 1) + PB_REMAIN) == 0
    && Linked(m', pFree, SlotsFrom(b, i), PB_REMAIN)
  }

  lemma {:induction false} ChainingStarts(m: Memory, b: nat, next: Word)
    requires b + REGION_SIZE <= |m|
    ensures
      var m1 := Written(m, b, Fill(0, REGION_SIZE));
      var m2 := Written(m1, b, Le32(SIGNATURE));
      Chaining(m, Written(Written(m2, b + P_FREE, Le32(0)), b + P_NEXT, Le32(next)), b, next, 0, TRAMPOLINES_PER_REGION)
  {
    hide U32At;
    var m1 := Written(m, b, Fill(0, REGION_SIZE));
    var m2 := Written(m1, b, Le32(SIGNATURE));
    var m3 := Written(m2, b + P_FREE, Le32(0));
    var m4 := Written(m3, b + P_NEXT, Le32(next));
    U32Written(m1, b, SIGNATURE);
    U32Kept(m2, m4, b);
    U32Written(m3, b + P_NEXT, next);
    ZeroReads(m4, SlotAt(b, 0) + PB_REMAIN);
    ZeroReads(m4, SlotAt(b, 1) + PB_REMAIN);
  }

  lemma {:induction false} ZeroReads(m: Memory, a: nat)
    requires a + 4 <= |m| && forall k :: a <= k < a + 4 ==> m[k] == 0
    ensures U32At(m, a) == 0
  {
  }

  lemma {:induction false} ChainingStep(m: Memory, m': Memory, b: nat, next: Word, pFree: Word, i: nat)
    requires 2 <= i < TRAMPOLINES_PER_REGION && 0 < b && b % REGION_SIZE == 0 && b + REGION_SIZE <= |m| <= TWO32
    requires Chaining(m, m', b, next, pFree, i + 1)
    ensures Chaining(m, Written(m', SlotAt(b, i) + PB_REMAIN, Le32(pFree)), b, next, SlotAt(b, i), i)
  {
    hide U32At, Le32, SlotsFrom;
    var p := SlotAt(b, i);
    var m'' := Written(m', p + PB_REMAIN, Le32(pFree));
    U32Written(m', p + PB_REMAIN, pFree);
    U32Kept(m', m'', b);
    U32Kept(m', m'', b + P_NEXT);
    U32Kept(m', m'', SlotAt(b, 0) + PB_REMAIN);
    U32Kept(m', m'', SlotAt(b, 1) + PB_REMAIN);
    var s := SlotsFrom(b, i + 1);
    forall k, a | 0 <= k < |s| && s[k] + PB_REMAIN <= a < s[k] + PB_REMAIN + 4 && a < |m'|
      ensures m''[a] == m'[a]
    {
      LaterSlot(b, i + 1, k);
    }
    ChainKept(m', m'', pFree, s, PB_REMAIN);
    ChainPushed(m'', pFree, SlotsFrom(b, i + 1), PB_REMAIN, p);
    MoreSlots(b, i);
  }

  lemma {:induction false} ChainingEnds(m: Memory, m': Memory, b: nat, next: Word, pFree: Word, live: set<nat>)
    requires 0 < b && b % REGION_SIZE == 0 && b + REGION_SIZE <= |m| <= TWO32 && Chaining(m, m', b, next, pFree, 2)
    requires forall p :: IsSlot(b, p) ==> p !in live
    ensures
      var r := Written(m', b + P_FREE, Le32(pFree));
      && Outside(m, r, b, REGION_SIZE) && U32At(r, b + P_NEXT) == next && RegionOk(r, b, SlotsFrom(b, 2), live)
  {
    hide U32At, Le32, IsSlot, SlotsFrom;
    var r := Written(m', b + P_FREE, Le32(pFree));
    U32Written(m', b + P_FREE, pFree);
    U32Kept(m', r, b);
    U32Kept(m', r, b + P_NEXT);
    U32Kept(m', r, SlotAt(b, 0) + PB_REMAIN);
    U32Kept(m', r, SlotAt(b, 1) + PB_REMAIN);
    var s := SlotsFrom(b, 2);
    forall p
      ensures p in s <==> IsSlot(b, p)
    {
      if p >= 0 { SlotsAreSlots(b, p); }
    }
    forall k, a | 0 <= k < |s| && s[k] + PB_REMAIN <= a < s[k] + PB_REMAIN + 4 && a < |m'|
      ensures r[a] == m'[a]
    {
      assert s[k] in s;
      MaskFindsRegion(b, s[k]);
    }
    ChainKept(m', r, pFree, s, PB_REMAIN);
  }

  // A new region in front of the others.
  lemma {:induction false} ManagedMore(m: Memory, m': Memory, pRegions: Word, regions: seq<nat>, free: map<nat, seq<nat>>, live: set<nat>,
                                       b: nat, f: seq<nat>)
    requires Managed(m, pRegions, regions, free, live) && b !in regions && Outside(m, m', b, REGION_SIZE)
    requires RegionOk(m', b, f, live) && U32At(m', b + P_NEXT) == pRegions
    ensures Managed(m', b, [b] + regions, free[b := f], live)
  {
    hide U32At, RegionOf, IsSlot;
    forall c | c in regions
      ensures RegionOk(m', c, free[c], live)
    {
      RegionsApart(b, c);
      RegionKept(m, m', c, free[c], live, live);
    }
    forall k, a | 0 <= k < |regions| && regions[k] + P_NEXT <= a < regions[k] + P_NEXT + 4 && a < |m|
      ensures m'[a] == m[a]
    {
      assert regions[k] in regions;
      RegionsApart(b, regions[k]);
    }
    ChainKept(m, m', pRegions, regions, P_NEXT);
    ChainPushed(m', pRegions, regions, P_NEXT, b);
  }

  // All slots of region b lie in the window.
  predicate Covers(w: Bounds, b: nat) { w.lo <= b && b + REGION_SIZE <= w.hi }

  /** That is so if and only if all addresses from its first to its end are within reach of the target. */
  lemma {:induction false} CoversIs(m: Memory, t: nat, b: nat)
    requires t + 6 <= |m| <= TWO32
    ensures Covers(JumpBounds(Bits32, m, t), b) <==> forall p :: b <= p <= b + 0x1_0000 ==> WithinReach(Bits32, m, t, p)
  {
    hide JumpBounds, WithinReach;
    forall p | b <= p <= b + 0x1_0000
      ensures JumpBounds(Bits32, m, t).lo <= p <= JumpBounds(Bits32, m, t).hi <==> WithinReach(Bits32, m, t, p)
    {
      WindowIs(Bits32, m, t, p);
    }
    WindowIs(Bits32, m, t, b);
    WindowIs(Bits32, m, t, b + 0x1_0000);
  }

  lemma {:induction false} FirstFreeIsInside(m: Memory, b: nat, free: seq<nat>, live: set<nat>)
    requires RegionOk(m, b, free, live) && |free| > 0
    ensures b <= free[0] < b + REGION_SIZE
  {
    assert free[0] in free;
    MaskFindsRegion(b, free[0]);
  }

  /** The static variables of the allocator. */
  class TrampolineHeap {
    const space: AddressSpace
    var pRegions: Word                      // all regions
    var pRegion: Word                       // the default region
    ghost var regions: seq<nat>
    ghost var free: map<nat, seq<nat>>      // of each region, its free slots in order
    ghost var live: set<nat>                // the slots handed out and not given back

    ghost predicate Valid()
      reads this, space
    {
      && |space.bytes| == TWO32
      && Managed(space.bytes, pRegions, regions, free, live)
      && (pRegion != 0 ==> pRegion in regions)
    }

    constructor (space: AddressSpace)
      requires |space.bytes| == TWO32
      ensures Valid() && this.space == space && regions == [] && live == {}
    {
      this.space := space;
      pRegions, pRegion := 0, 0;
      regions, free, live := [], map[], {};
    }

    /** The first free slot of the default region, if it is in the window. */
    method TakeSlot(pLo: nat, pHi: nat) returns (r: Option<nat>)
      requires Valid() && pRegion != 0 && |free[pRegion]| > 0
      modifies this`free, this`live, space
      ensures Valid()
      ensures r.Some? <==> pLo <= old(free[pRegion][0]) <= pHi
      ensures r.None? ==> free == old(free) && live == old(live) && space.bytes == old(space.bytes)
      ensures r.Some? ==>
        var p := r.value;
        && p == old(free[pRegion][0]) && RegionOf(p) == pRegion && IsSlot(pRegion, p) && p !in old(live) && live == old(live) + {p}
        && free == old(free)[pRegion := old(free[pRegion][1..])]
        && Holds(space.bytes, p, Fill(0xCC, TRAMPOLINE_SIZE)) && SlotEdited(old(space.bytes), space.bytes, p)
    {
      hide U32At, IsSlot, RegionOf, TakenFrom, Le32;
      ghost var m, b := space.bytes, pRegion;
      ghost var f := free[b];
      TakeKeepsRegion(m, b, f, live);
      MaskFindsRegion(b, f[0]);
      var pTrampoline := U32At(space.bytes, pRegion + P_FREE);
      if pTrampoline < pLo || pTrampoline > pHi {
        return None;
      }
      TakenEdits(m, b, f[0]);
      space.Store(pRegion + P_FREE, Le32(U32At(space.bytes, pTrampoline + PB_REMAIN)));
      space.Store(pTrampoline, Fill(0xCC, TRAMPOLINE_SIZE));
      assert space.bytes == TakenFrom(m, b, f[0]) by { TakenFromIs(m, b, f[0]); }
      forall q | q in live + {f[0]} && RegionOf(q) == b
        ensures IsSlot(b, q)
      {
      }
      ManagedStep(m, space.bytes, pRegions, regions, free, live, b, f[1..], live + {f[0]});
      free := free[b := f[1..]];
      live := live + {f[0]};
      return Some(pTrampoline);
    }

    // The first free slot of region b, if there is one, lies in the window.
    ghost predicate Serves(b: nat, w: Bounds)
      requires b in free
      reads this`free
    {
      |free[b]| > 0 && w.lo <= free[b][0] <= w.hi
    }

    // Whether the region serves, read from its header.
    method HasSlot(b: nat, w: Bounds) returns (r: bool)
      requires Valid() && b in regions
      ensures r == Serves(b, w)
    {
      hide U32At, Linked;
      HeadOfChain(space.bytes, b, free[b], live);
      r := U32At(space.bytes, b + P_FREE) != 0 && w.lo <= U32At(space.bytes, b + P_FREE) <= w.hi;
    }

    // Sets up the region that VirtualAlloc has committed at b, and makes it the default.
    method AddRegion(b: nat)
      requires Valid() && 0 < b && b % REGION_SIZE == 0 && b + REGION_SIZE <= TWO32 && b !in regions
      modifies this, space
      ensures Valid() && pRegion == b && regions == [b] + old(regions) && live == old(live)
      ensures free == old(free)[b := SlotsFrom(b, 2)] && |free[b]| == 907
      ensures U32At(space.bytes, b) == 0x5272_7464
      ensures Outside(old(space.bytes), space.bytes, b, REGION_SIZE)
    {
      hide U32At, IsSlot, RegionOf, Le32, Chaining, SlotsFrom, Linked, LinkAt, RegionOk;
      ghost var m := space.bytes;
      ChainingStarts(m, b, pRegions);
      space.Store(b, Fill(0, REGION_SIZE));
      space.Store(b, Le32(SIGNATURE));
      space.Store(b + P_FREE, Le32(0));
      space.Store(b + P_NEXT, Le32(pRegions));
      var pFree: Word := 0;
      var i := TRAMPOLINES_PER_REGION - 1;
      while i > 1
        invariant 1 <= i < TRAMPOLINES_PER_REGION
        invariant |space.bytes| == TWO32 && Chaining(m, space.bytes, b, pRegions, pFree, i + 1)
        invariant pRegions == old(pRegions) && regions == old(regions) && free == old(free) && live == old(live)
      {
        ChainingStep(m, space.bytes, b, pRegions, pFree, i);
        space.Store(SlotAt(b, i) + PB_REMAIN, Le32(pFree));
        pFree := SlotAt(b, i);
        i := i - 1;
      }
      NoLiveSlotIn(b);
      ChainingEnds(m, space.bytes, b, pRegions, pFree, live);
      space.Store(b + P_FREE, Le32(pFree));
      ManagedMore(m, space.bytes, pRegions, regions, free, live, b, SlotsFrom(b, 2));
      pRegion, pRegions := b, b;
      regions := [b] + regions;
      free := free[b := SlotsFrom(b, 2)];
      SlotsNotEmpty(b);
      SignatureOf(space.bytes, b, free, live, pRegions, regions);
    }

    twostate lemma NoLiveSlotIn(b: nat)
      requires old(Valid()) && b !in old(regions) && b % REGION_SIZE == 0 && live == old(live)
      ensures forall p :: IsSlot(b, p) ==> p !in live
    {
      forall p | IsSlot(b, p)
        ensures p !in live
      {
        MaskFindsRegion(b, p);
      }
    }

    // Of the regions in their order, b is the first that serves.
    ghost predicate FirstServing(b: nat, w: Bounds)
      requires forall c :: c in regions ==> c in free
      reads this`regions, this`free
    {
      exists k :: 0 <= k < |regions| && regions[k] == b && Serves(b, w) && forall j :: 0 <= j < k ==> !Serves(regions[j], w)
    }

    // Region b is the one to take a slot from: the default one if it serves, else the first.
    ghost predicate Picks(b: nat, w: Bounds)
      requires Valid()
      reads this, space
    {
      if pRegion != 0 && Serves(pRegion, w) then b == pRegion else FirstServing(b, w)
    }

    // Makes the first region that serves the default one; none does if it ends null.
    method ScanRegions(w: Bounds) returns (found: bool)
      requires Valid()
      modifies this`pRegion
      ensures Valid()
      ensures found ==> pRegion != 0 && Serves(pRegion, w) && FirstServing(pRegion, w)
      ensures !found ==> pRegion == 0 && forall b :: b in regions ==> !Serves(b, w)
    {
      hide Serves, U32At, RegionOk, Linked, RegionOf, IsSlot;
      ListHead(space.bytes, pRegions, regions, free, live);
      pRegion := pRegions;
      ghost var k := 0;
      while pRegion != 0
        invariant Valid()
        invariant k <= |regions| && pRegion == (if k < |regions| then regions[k] else 0)
        invariant forall j :: 0 <= j < k ==> regions[j] in free && !Serves(regions[j], w)
        decreases |regions| - k
      {
        ListNext(space.bytes, pRegions, regions, free, live, k);
        assert regions[k] in regions;
        found := HasSlot(pRegion, w);
        if found {
          return;
        }
        pRegion := U32At(space.bytes, pRegion + P_NEXT);
        k := k + 1;
      }
      if k < |regions| {
        ListNext(space.bytes, pRegions, regions, free, live, k);
      }
      found := false;
    }

    // No region in the window can be had but behind an address, seen from the target, at which the search gives up.
    ghost predicate NoneUsable(map_: AddressMap, w: Bounds, pbTarget: nat)
    {
      forall a :: w.lo < a < w.hi && Usable(map_, a) && !SkippedUp(a) && !SkippedDown(a) ==>
        StopsAbove(map_, a, RoundDown(pbTarget)) || StopsBelow(map_, RoundDown(pbTarget), a)
    }

    // A slot of a new region.
    method AllocateInNewRegion(pbTarget: nat, map_: AddressMap, w: Bounds) returns (r: Option<nat>)
      requires Valid() && REGION_SIZE <= pbTarget < TWO32 && w.hi <= TWO32 - REGION_SIZE
      requires Granular(Bits32, map_) && forall b :: Usable(map_, b) ==> b !in regions
      modifies this, space
      ensures Valid()
      ensures r.None? ==> live == old(live)
      ensures r.Some? ==>
        var p := r.value;
        && p !in old(live) && live == old(live) + {p} && w.lo <= p <= w.hi && RegionOf(p) in regions
        && Holds(space.bytes, p, Fill(0xCC, TRAMPOLINE_SIZE))
      ensures regions == old(regions) || (exists b :: FirstFound(map_, RoundDown(pbTarget), w.lo, w.hi, b) && regions == [b] + old(regions))
      ensures forall b :: b in old(regions) ==> b in regions && free[b] == old(free[b])
      ensures regions != old(regions) ==>
        && regions != [] && |free[regions[0]]| == (if r.Some? then 906 else 907)
        && (r.Some? <==> w.lo <= SlotAt(regions[0], 2) <= w.hi)
      ensures regions == old(regions) ==> r.None? && NoneUsable(map_, w, pbTarget)
      ensures Undisturbed(old(space.bytes), space.bytes, regions, old(live))
    {
      hide U32At, IsSlot, RegionOf, Linked, RegionOk, SlotsFrom, Usable;
      ghost var m, before := space.bytes, live;
      LiveAreSlots(m, pRegions, regions, free, live);
      var pbNewlyAllocated := AllocateNew(Bits32, map_, pbTarget - pbTarget % REGION_SIZE, w.lo, w.hi);
      if pbNewlyAllocated.None? {
        return None;
      }
      var b := pbNewlyAllocated.value;
      UsableIsAligned(map_, b);
      AddRegion(b);
      NewUndisturbs(m, space.bytes, b, old(regions), before);
      SlotsNotEmpty(b);
      ghost var m1 := space.bytes;
      r := TakeSlot(w.lo, w.hi);
      if r.Some? {
        EditUndisturbs(m1, space.bytes, regions, before, r.value);
      }
    }

    /**
     detour_alloc_trampoline: a slot within reach of the target that is not in use, from the default region,
     from another or, if none serves, from a new one. Memory outside the regions stays, and so do the
     slots in use.
     */
    method Allocate(pbTarget: nat, map_: AddressMap) returns (r: Option<nat>)
      requires Valid() && REGION_SIZE <= pbTarget && pbTarget + 6 <= TWO32
      requires Granular(Bits32, map_) && forall b :: Usable(map_, b) ==> b !in regions
      modifies this, space
      ensures Valid()
      ensures r.None? ==> live == old(live)
      ensures r.Some? ==>
        var p, w := r.value, JumpBounds(Bits32, old(space.bytes), pbTarget);
        && p !in old(live) && live == old(live) + {p} && w.lo <= p <= w.hi && RegionOf(p) in regions
        && Holds(space.bytes, p, Fill(0xCC, TRAMPOLINE_SIZE))
      ensures regions == old(regions) || (exists b :: Found(map_, old(space.bytes), pbTarget, b) && regions == [b] + old(regions))
      ensures regions != old(regions) ==>
        && regions != [] && |free[regions[0]]| == (if r.Some? then 906 else 907)
        && (r.Some? <==> WithinReach(Bits32, old(space.bytes), pbTarget, SlotAt(regions[0], 2)))
      ensures r.Some? && regions == old(regions) ==>
        var b := RegionOf(r.value);
        old(Picks(b, JumpBounds(Bits32, space.bytes, pbTarget)))
      ensures r.None? || regions != old(regions) ==>
        forall b :: b in old(regions) && old(free[b]) != [] ==> !WithinReach(Bits32, old(space.bytes), pbTarget, old(free[b])[0])
      ensures regions == old(regions) && r.None? ==> NothingToBeHad(map_, old(space.bytes), pbTarget)
      ensures r.None? ==> old(Starving(regions, free, map_, space.bytes, pbTarget))
      ensures forall b :: b in old(regions) ==> b in regions && |old(free[b])| <= |free[b]| + 1
      ensures Undisturbed(old(space.bytes), space.bytes, regions, old(live))
    {
      hide U32At, IsSlot, RegionOf, Managed, Usable, JumpBounds, WithinReach, Starving, Found, NothingToBeHad, Granular, Fill;
      var w := JumpBounds(Bits32, space.bytes, pbTarget);
      ghost var m, before := space.bytes, live;
      LiveAreSlots(space.bytes, pRegions, regions, free, live);
      if pRegion == 0 && pRegions != 0 {
        ListHead(space.bytes, pRegions, regions, free, live);
        pRegion := pRegions;
        assert regions[0] == pRegion;
      }
      var found := false;
      if pRegion != 0 {
        found := HasSlot(pRegion, w);
      }
      if !found {
        found := ScanRegions(w);
      }
      if found {
        r := TakeSlot(w.lo, w.hi);
        EditUndisturbs(m, space.bytes, regions, before, r.value);
      } else {
        r := AllocateMore(pbTarget, map_);
      }
    }

    // The rest of it, if no region serves.
    method AllocateMore(pbTarget: nat, map_: AddressMap) returns (r: Option<nat>)
      requires Valid() && REGION_SIZE <= pbTarget && pbTarget + 6 <= TWO32
      requires forall b :: b in regions ==> !Serves(b, JumpBounds(Bits32, space.bytes, pbTarget))
      requires Granular(Bits32, map_) && forall b :: Usable(map_, b) ==> b !in regions
      modifies this, space
      ensures Valid()
      ensures r.None? ==> live == old(live)
      ensures r.Some? ==>
        var p, w := r.value, JumpBounds(Bits32, old(space.bytes), pbTarget);
        && p !in old(live) && live == old(live) + {p} && w.lo <= p <= w.hi && RegionOf(p) in regions
        && Holds(space.bytes, p, Fill(0xCC, TRAMPOLINE_SIZE))
      ensures regions == old(regions) || (exists b :: Found(map_, old(space.bytes), pbTarget, b) && regions == [b] + old(regions))
      ensures forall b :: b in old(regions) ==> b in regions && free[b] == old(free[b])
      ensures regions != old(regions) ==>
        && regions != [] && |free[regions[0]]| == (if r.Some? then 906 else 907)
        && (r.Some? <==> WithinReach(Bits32, old(space.bytes), pbTarget, SlotAt(regions[0], 2)))
      ensures regions == old(regions) ==> r.None? && NothingToBeHad(map_, old(space.bytes), pbTarget)
      ensures forall b :: b in old(regions) && old(free[b]) != [] ==> !WithinReach(Bits32, old(space.bytes), pbTarget, old(free[b])[0])
      ensures r.None? ==> old(Starving(regions, free, map_, space.bytes, pbTarget))
      ensures Undisturbed(old(space.bytes), space.bytes, regions, old(live))
    {
      hide U32At, IsSlot, RegionOf, Managed, Usable, JumpBounds, WithinReach, StopsAbove, StopsBelow, RoundDown, SkippedUp, SkippedDown;
      ghost var m := space.bytes;
      BoundsInside(m, pbTarget);
      ReachIsWindow(m, pbTarget);
      ghost var w := JumpBounds(Bits32, m, pbTarget);
      r := AllocateInNewRegion(pbTarget, map_, JumpBounds(Bits32, space.bytes, pbTarget));
      NothingIsUsable(map_, m, pbTarget, w);
    }

    lemma {:induction false} NothingIsUsable(map_: AddressMap, m: Memory, pbTarget: nat, w: Bounds)
      requires pbTarget + 6 <= |m| <= TWO32 && w == JumpBounds(Bits32, m, pbTarget)
      ensures NoneUsable(map_, w, pbTarget) ==> NothingToBeHad(map_, m, pbTarget)
    {
      hide Usable, JumpBounds, WithinReach, StopsAbove, StopsBelow, RoundDown, SkippedUp, SkippedDown;
      ReachIsWindow(m, pbTarget);
    }

    // The regions, collected by walking the list.
    method ListRegions() returns (r: seq<nat>)
      requires Valid()
      ensures r == regions
    {
      hide U32At, RegionOk, Linked, RegionOf, IsSlot;
      ListHead(space.bytes, pRegions, regions, free, live);
      r := [];
      var b := pRegions;
      while b != 0
        invariant |r| <= |regions| && r == regions[..|r|] && b == (if |r| < |regions| then regions[|r|] else 0)
        decreases |regions| - |r|
      {
        ListNext(space.bytes, pRegions, regions, free, live, |r|);
        r, b := r + [b], U32At(space.bytes, b + P_NEXT);
      }
      if |r| < |regions| {
        ListNext(space.bytes, pRegions, regions, free, live, |r|);
      }
    }

    /** detour_free_trampoline. */
    method Return(pTrampoline: nat)
      requires |space.bytes| == TWO32 && FitsSlot(pTrampoline)
      modifies space
      ensures space.bytes == ReturnedTo(old(space.bytes), RegionOf(pTrampoline), pTrampoline)
    {
      hide U32At, Le32, ReturnedTo;
      var pRegion := RegionOf(pTrampoline);
      ReturnedToIs(space.bytes, pRegion, pTrampoline);
      space.Store(pTrampoline, Fill(0, TRAMPOLINE_SIZE));
      space.Store(pTrampoline + PB_REMAIN, Le32(U32At(space.bytes, pRegion + P_FREE)));
      space.Store(pRegion + P_FREE, Le32(pTrampoline));
    }

    // The same for a slot in use.
    method Free(pTrampoline: nat)
      requires Valid() && pTrampoline in live
      modifies this`free, this`live, space
      ensures Valid() && live == old(live) - {pTrampoline}
      ensures free == old(free)[RegionOf(pTrampoline) := [pTrampoline] + old(free[RegionOf(pTrampoline)])]
      ensures SlotEdited(old(space.bytes), space.bytes, pTrampoline)
    {
      hide U32At, IsSlot, RegionOf, ReturnedTo, Le32;
      var pRegion := RegionOf(pTrampoline);
      ghost var m, f := space.bytes, free[pRegion];
      MaskFindsRegion(pRegion, pTrampoline);
      ReturnedEdits(m, pRegion, pTrampoline);
      ReturnKeepsRegion(m, pRegion, f, live, pTrampoline);
      Return(pTrampoline);
      ManagedStep(m, space.bytes, pRegions, regions, free, live, pRegion, [pTrampoline] + f, live - {pTrampoline});
      free := free[pRegion := [pTrampoline] + f];
      live := live - {pTrampoline};
    }

    /** detour_is_region_empty: no slot in use has its pbRemain outside the region. */
    method IsRegionEmpty(b: nat) returns (r: bool)
      requires Valid() && b in regions
      ensures r <==> forall p :: p in live && RegionOf(p) == b ==> !Leaves(space.bytes, b, p)
    {
      hide U32At, IsSlot, RegionOf, Managed, Leaves;
      ListHead(space.bytes, pRegions, regions, free, live);
      SignatureOf(space.bytes, b, free, live, pRegions, regions);
      if U32At(space.bytes, b) != SIGNATURE {
        return false;
      }
      for i := 0 to TRAMPOLINES_PER_REGION
        invariant forall j :: 0 <= j < i ==> !Leaves(space.bytes, b, SlotAt(b, j))
      {
        var p := SlotAt(b, i);
        LeavesIs(space.bytes, b, p);
        var pbRemain := U32At(space.bytes, p + PB_REMAIN);
        if pbRemain != 0 && (pbRemain < b || pbRemain >= b + REGION_SIZE) {
          LeavingIsLive(space.bytes, pRegions, regions, free, live, b, i);
          return false;
        }
      }
      forall p | p in live && RegionOf(p) == b
        ensures !Leaves(space.bytes, b, p)
      {
        LiveIsNumbered(space.bytes, pRegions, regions, free, live, b, p);
      }
      return true;
    }

    // Takes region number k off the list and releases it.
    method DropRegion(ppRegionBase: Option<nat>, pNext: Word, ghost kept: seq<nat>, ghost all: seq<nat>, ghost k: nat)
      requires Valid() && k < |all| && regions == kept + all[k..]
      requires ppRegionBase == (if kept == [] then None else Some(kept[|kept| - 1] + P_NEXT))
      requires pNext == (if k + 1 < |all| then all[k + 1] else 0)
      requires forall p :: p in live ==> RegionOf(p) != all[k]
      requires forall b :: b in kept ==> b in all
      modifies this`pRegions, this`pRegion, this`regions, space
      ensures Valid() && regions == kept + all[k + 1..] && pRegion == 0
      ensures Undisturbed(old(space.bytes), space.bytes, all, live)
    {
      hide U32At, IsSlot, RegionOf, Managed, Le32, Linked;
      ghost var m := space.bytes;
      ghost var rest := all[k + 1..];
      NothingDisturbed(m, all, live);
      assert regions == kept + [all[k]] + rest;
      if ppRegionBase.None? {
        assert kept + [all[k]] + rest == [all[k]] + rest;
        ManagedFirst(m, pRegions, all[k], rest, free, live);
        pRegions := pNext;
        assert kept + rest == rest;
      } else {
        ManagedDrop(m, pRegions, kept, all[k], rest, free, live);
        space.Store(ppRegionBase.value, Le32(pNext));
      }
      regions := kept + rest;
      pRegion := 0;
    }

    // One turn of the sweep: region number k is dropped if it is empty, else passed over.
    method SweepRegion(ppRegionBase: Option<nat>, cursor: Word, ghost kept: seq<nat>, ghost all: seq<nat>, ghost k: nat)
      returns (base: Option<nat>, next: Word, ghost kept': seq<nat>)
      requires Valid() && k < |all| && cursor == all[k] && regions == kept + all[k..]
      requires forall p :: p in live ==> Leaves(space.bytes, RegionOf(p), p)
      requires ppRegionBase == (if kept == [] then None else Some(kept[|kept| - 1] + P_NEXT))
      requires forall b :: b in kept ==> b in all
      modifies this`pRegions, this`pRegion, this`regions, space
      ensures Valid() && regions == kept' + all[k + 1..]
      ensures kept' == kept + if exists p :: p in live && RegionOf(p) == all[k] then [all[k]] else []
      ensures base == (if kept' == [] then None else Some(kept'[|kept'| - 1] + P_NEXT))
      ensures next == (if k + 1 < |all| then all[k + 1] else 0)
      ensures pRegion == if kept' == kept then 0 else old(pRegion)
      ensures Undisturbed(old(space.bytes), space.bytes, all, live)
      ensures forall p :: p in live ==> Leaves(space.bytes, RegionOf(p), p)
    {
      hide U32At, IsSlot, RegionOf, Managed, Leaves, Undisturbed;
      assert regions[|kept|] == all[k];
      assert k + 1 < |all| ==> regions[|kept| + 1] == all[k + 1];
      ListNext(space.bytes, pRegions, regions, free, live, |kept|);
      NothingDisturbed(space.bytes, all, live);
      ghost var m := space.bytes;
      var empty := IsRegionEmpty(cursor);
      next := U32At(space.bytes, cursor + P_NEXT);
      if empty {
        kept' := kept;
        base := ppRegionBase;
        DropRegion(ppRegionBase, next, kept, all, k);
        StillLeaving(m, space.bytes, all, live);
      } else {
        base := Some(cursor + P_NEXT);
        kept' := kept + [all[k]];
        assert regions == kept' + all[k + 1..];
      }
    }

    /**
     detour_free_unused_trampoline_regions, editing the list in place through the address of the link that
     leads to the current region (None for s_pRegions itself). Exactly the regions with a slot in use stay,
     in order, and the default region is one of them or null.
     */
    method FreeUnusedRegions()
      requires Valid() && forall p :: p in live ==> Leaves(space.bytes, RegionOf(p), p)
      modifies this`pRegions, this`pRegion, this`regions, space
      ensures Valid() && regions == InUse(old(regions), live)
      ensures pRegion == if regions == old(regions) then old(pRegion) else 0
      ensures Undisturbed(old(space.bytes), space.bytes, old(regions), live)
    {
      hide U32At, IsSlot, RegionOf, Managed, Leaves, Undisturbed, InUse;
      ghost var m, all, was := space.bytes, regions, pRegion;
      ghost var kept: seq<nat> := [];
      ghost var k := 0;
      var ppRegionBase: Option<nat> := None;
      var cursor := pRegions;
      ListHead(space.bytes, pRegions, regions, free, live);
      NoneInUse(all, live);
      NothingDisturbed(m, all, live);
      while cursor != 0
        invariant k <= |all| && |kept| <= k && kept == InUse(all[..k], live) && regions == kept + all[k..]
        invariant Valid() && live == old(live)
        invariant cursor == (if k < |all| then all[k] else 0)
        invariant ppRegionBase == (if kept == [] then None else Some(kept[|kept| - 1] + P_NEXT))
        invariant pRegion == if |kept| == k then was else 0
        invariant Undisturbed(m, space.bytes, all, live)
        invariant forall p :: p in live ==> Leaves(space.bytes, RegionOf(p), p)
        decreases |all| - k
      {
        InUseNext(all, k, live);
        ghost var m1 := space.bytes;
        ppRegionBase, cursor, kept := SweepRegion(ppRegionBase, cursor, kept, all, k);
        UndisturbedTwice(m, m1, space.bytes, all, live);
        k := k + 1;
      }
      if k < |all| {
        assert regions[|kept|] == all[k];
        ListNext(space.bytes, pRegions, regions, free, live, |kept|);
      }
      assert all[..k] == all && kept + all[k..] == kept;
      SameLengthSame(all, live);
    }
  }

  lemma {:induction false} NoneInUse(all: seq<nat>, live: set<nat>)
    ensures InUse(all[..0], live) == []
  {
  }

  lemma {:induction false} SameLengthSame(all: seq<nat>, live: set<nat>)
    ensures |InUse(all, live)| <= |all| && (|InUse(all, live)| == |all| ==> InUse(all, live) == all)
    decreases |all|
  {
    if all != [] {
      var n := |all| - 1;
      SameLengthSame(all[..n], live);
      assert all == all[..n] + [all[n]];
    }
  }

  // The regions with a slot in use, in order.
  ghost function InUse(regions: seq<nat>, live: set<nat>): (r: seq<nat>)
    ensures forall b :: b in r <==> b in regions && exists p :: p in live && RegionOf(p) == b
    decreases |regions|
  {
    if regions == [] then []
    else
      var b := regions[|regions| - 1];
      InUse(regions[..|regions| - 1], live) + if exists p :: p in live && RegionOf(p) == b then [b] else []
  }

  // The field pbRemain of the slot p of region b points out of the region.
  predicate Leaves(m: Memory, b: nat, p: nat)
  {
    && p + PB_REMAIN + 4 <= |m|
    && var pbRemain := U32At(m, p + PB_REMAIN);
       pbRemain != 0 && (pbRemain < b || pbRemain >= b + REGION_SIZE)
  }

  lemma {:induction false} LeavesIs(m: Memory, b: nat, p: nat)
    requires p + PB_REMAIN + 4 <= |m|
    ensures Leaves(m, b, p) <==> U32At(m, p + PB_REMAIN) != 0 && (U32At(m, p + PB_REMAIN) < b || U32At(m, p + PB_REMAIN) >= b + REGION_SIZE)
  {
  }

  lemma {:induction false} SignatureOf(m: Memory, b: nat, free: map<nat, seq<nat>>, live: set<nat>, pRegions: Word, regions: seq<nat>)
    requires Managed(m, pRegions, regions, free, live) && b in regions
    ensures b + REGION_SIZE <= |m| && U32At(m, b) == SIGNATURE && b % REGION_SIZE == 0
  {
  }

  // A slot that is not in use is chained inside its region, or never chained.
  lemma {:induction false} LeavingIsLive(m: Memory, pRegions: Word, regions: seq<nat>, free: map<nat, seq<nat>>, live: set<nat>, b: nat, i: nat)
    requires Managed(m, pRegions, regions, free, live) && b in regions && i < TRAMPOLINES_PER_REGION
    requires Leaves(m, b, SlotAt(b, i))
    ensures SlotAt(b, i) in live && RegionOf(SlotAt(b, i)) == b
  {
    hide U32At, RegionOf;
    var p := SlotAt(b, i);
    assert RegionOk(m, b, free[b], live);
    assert i >= 2;
    assert IsSlot(b, p) by { SlotIsSlot(b, i); }
    MaskFindsRegion(b, p);
    if p !in live {
      var k :| 0 <= k < |free[b]| && free[b][k] == p;
      assert LinkAt(m, free[b], k, PB_REMAIN);
      if k + 1 < |free[b]| {
        assert free[b][k + 1] in free[b];
        MaskFindsRegion(b, free[b][k + 1]);
      }
      assert false;
    }
  }

  lemma {:induction false} SlotIsSlot(b: nat, i: nat)
    requires 2 <= i < TRAMPOLINES_PER_REGION
    ensures IsSlot(b, SlotAt(b, i))
  {
  }

  lemma {:induction false} LiveIsNumbered(m: Memory, pRegions: Word, regions: seq<nat>, free: map<nat, seq<nat>>, live: set<nat>, b: nat, p: nat)
    requires Managed(m, pRegions, regions, free, live) && p in live && RegionOf(p) == b
    requires forall j :: 0 <= j < TRAMPOLINES_PER_REGION ==> !Leaves(m, b, SlotAt(b, j))
    ensures !Leaves(m, b, p)
  {
    hide U32At, RegionOf, RegionOk, Linked, Leaves;
    var j := (p - b) / TRAMPOLINE_SIZE - 1;
    assert SlotAt(b, j) == p;
  }

  lemma {:induction false} TakenFromIs(m: Memory, b: nat, p: nat)
    requires b + P_FREE + 4 <= |m| && p + TRAMPOLINE_SIZE <= |m|
    ensures TakenFrom(m, b, p) == Written(Written(m, b + P_FREE, Le32(U32At(m, p + PB_REMAIN))), p, Fill(0xCC, TRAMPOLINE_SIZE))
  {
  }

  lemma {:induction false} ReturnedToIs(m: Memory, b: nat, p: nat)
    requires b + P_FREE + 4 <= |m| && p + TRAMPOLINE_SIZE <= |m| && p < TWO32
    ensures
      var m1 := Written(m, p, Fill(0, TRAMPOLINE_SIZE));
      var m2 := Written(m1, p + PB_REMAIN, Le32(U32At(m1, b + P_FREE)));
      ReturnedTo(m, b, p) == Written(m2, b + P_FREE, Le32(p))
  {
  }

  lemma {:induction false} HeadOfChain(m: Memory, b: nat, f: seq<nat>, live: set<nat>)
    requires RegionOk(m, b, f, live)
    ensures U32At(m, b + P_FREE) == (if |f| == 0 then 0 else f[0])
    ensures |f| > 0 ==> f[0] > 0
  {
    assert |f| > 0 ==> LinkAt(m, f, 0, PB_REMAIN);
  }

  lemma {:induction false} LiveAreSlots(m: Memory, pRegions: Word, regions: seq<nat>, free: map<nat, seq<nat>>, live: set<nat>)
    requires Managed(m, pRegions, regions, free, live)
    ensures forall q :: q in live ==> RegionOf(q) in regions && IsSlot(RegionOf(q), q)
  {
  }

  // Walking the list of regions.
  lemma {:induction false} ListHead(m: Memory, pRegions: Word, regions: seq<nat>, free: map<nat, seq<nat>>, live: set<nat>)
    requires Managed(m, pRegions, regions, free, live)
    ensures pRegions == (if |regions| == 0 then 0 else regions[0])
    ensures |regions| > 0 ==> regions[0] in regions
  {
  }

  lemma {:induction false} ListNext(m: Memory, pRegions: Word, regions: seq<nat>, free: map<nat, seq<nat>>, live: set<nat>, k: nat)
    requires Managed(m, pRegions, regions, free, live) && k < |regions|
    ensures regions[k] + P_NEXT + 4 <= |m| && regions[k] > 0
    ensures U32At(m, regions[k] + P_NEXT) == (if k + 1 < |regions| then regions[k + 1] else 0)
  {
    assert LinkAt(m, regions, k, P_NEXT);
  }

  lemma {:induction false} SlotsNotEmpty(b: nat)
    ensures |SlotsFrom(b, 2)| == TRAMPOLINES_PER_REGION - 2 && SlotsFrom(b, 2)[0] == SlotAt(b, 2)
  {
  }

  lemma {:induction false} NewUndisturbs(m: Memory, m': Memory, b: nat, regions: seq<nat>, live: set<nat>)
    requires Outside(m, m', b, REGION_SIZE) && b !in regions && b % REGION_SIZE == 0
    requires forall q :: q in live ==> RegionOf(q) in regions && IsSlot(RegionOf(q), q)
    ensures Undisturbed(m, m', [b] + regions, live)
  {
    hide IsSlot;
    forall a | 0 <= a < |m| && RegionOf(a) !in [b] + regions
      ensures m'[a] == m[a]
    {
      assert b in [b] + regions;
    }
    forall q, a | q in live && q <= a < q + TRAMPOLINE_SIZE && a < |m|
      ensures m'[a] == m[a]
    {
      MaskFindsRegion(RegionOf(q), q);
      RegionsApart(b, RegionOf(q));
    }
  }

  lemma {:induction false} BoundsInside(m: Memory, pbCode: nat)
    requires pbCode + 6 <= |m|
    ensures JumpBounds(Bits32, m, pbCode).hi <= TWO32 - REGION_SIZE
  {
    hide Signed32, U32At;
  }

  lemma {:induction false} NothingDisturbed(m: Memory, regions: seq<nat>, live: set<nat>)
    ensures Undisturbed(m, m, regions, live)
  {
  }

  lemma {:induction false} UndisturbedTwice(m: Memory, m': Memory, m'': Memory, regions: seq<nat>, live: set<nat>)
    requires Undisturbed(m, m', regions, live) && Undisturbed(m', m'', regions, live)
    ensures Undisturbed(m, m'', regions, live)
  {
  }

  lemma {:induction false} StillLeaving(m: Memory, m': Memory, regions: seq<nat>, live: set<nat>)
    requires Undisturbed(m, m', regions, live) && forall p :: p in live ==> Leaves(m, RegionOf(p), p)
    ensures forall p :: p in live ==> Leaves(m', RegionOf(p), p)
  {
    hide U32At, RegionOf;
    forall p | p in live
      ensures Leaves(m', RegionOf(p), p)
    {
      assert Leaves(m, RegionOf(p), p);
      U32Kept(m, m', p + PB_REMAIN);
    }
  }

  lemma {:induction false} InUseNext(all: seq<nat>, k: nat, live: set<nat>)
    requires k < |all|
    ensures InUse(all[..k + 1], live) == InUse(all[..k], live) + if exists p :: p in live && RegionOf(p) == all[k] then [all[k]] else []
  {
    assert all[..k + 1][..k] == all[..k];
  }

  lemma {:induction false} ManagedFirst(m: Memory, pRegions: Word, x: nat, rest: seq<nat>, free: map<nat, seq<nat>>, live: set<nat>)
    requires Managed(m, pRegions, [x] + rest, free, live) && forall p :: p in live ==> RegionOf(p) != x
    ensures |rest| > 0 ==> rest[0] < TWO32
    ensures Managed(m, if |rest| > 0 then rest[0] else 0, rest, free, live)
  {
    hide U32At, RegionOf, IsSlot, RegionOk;
    var s := [x] + rest;
    ListNext(m, pRegions, s, free, live, 0);
    LinkedRest(m, pRegions, s, P_NEXT);
    assert s[1..] == rest;
    assert forall b :: b in s <==> b == x || b in rest;
  }

  lemma {:induction false} ManagedDrop(m: Memory, pRegions: Word, kept: seq<nat>, x: nat, rest: seq<nat>, free: map<nat, seq<nat>>,
                                       live: set<nat>)
    requires Managed(m, pRegions, kept + [x] + rest, free, live) && forall p :: p in live ==> RegionOf(p) != x
    requires |kept| > 0
    ensures kept[|kept| - 1] + P_NEXT + 4 <= |m| && (|rest| > 0 ==> rest[0] < TWO32)
    ensures
      var a, next: Word := kept[|kept| - 1] + P_NEXT, if |rest| > 0 then rest[0] else 0;
      var m' := Written(m, a, Le32(next));
      && Managed(m', pRegions, kept + rest, free, live)
      && Undisturbed(m, m', kept, live)
  {
    hide U32At, RegionOf, IsSlot, LinkAt;
    var s := kept + [x] + rest;
    var n := |kept|;
    var last := kept[n - 1];
    assert s[n - 1] == last && s[n] == x && (|rest| > 0 ==> s[n + 1] == rest[0]);
    ListNext(m, pRegions, s, free, live, n - 1);
    ListNext(m, pRegions, s, free, live, n);
    var a, next: Word := last + P_NEXT, if |rest| > 0 then rest[0] else 0;
    var m' := Written(m, a, Le32(next));
    assert forall b :: b in kept + rest ==> b in s;
    assert last in s;
    forall b | b in s
      ensures RegionOk(m', b, free[b], live)
    {
      assert RegionOk(m, b, free[b], live) && RegionOk(m, last, free[last], live);
      if b != last {
        RegionsApart(b, last);
      }
      RegionKept(m, m', b, free[b], live, live);
    }
    ChainCut(m, pRegions, kept, x, rest);
    LiveAreSlots(m, pRegions, s, free, live);
    LinkUndisturbs(m, m', last, kept, live);
  }

  lemma {:induction false} LinkUndisturbs(m: Memory, m': Memory, last: nat, regions: seq<nat>, live: set<nat>)
    requires Outside(m, m', last + P_NEXT, 4) && last in regions && last % REGION_SIZE == 0
    requires forall q :: q in live ==> IsSlot(RegionOf(q), q)
    ensures Undisturbed(m, m', regions, live)
  {
    hide IsSlot;
    forall q, a | q in live && q <= a < q + TRAMPOLINE_SIZE && a < |m|
      ensures m'[a] == m[a]
    {
      MaskFindsRegion(RegionOf(q), q);
      if RegionOf(q) != last {
        RegionsApart(RegionOf(q), last);
      }
    }
  }

  // Redirecting the link before x takes x out of the chain.
  lemma {:induction false} ChainCut(m: Memory, head: Word, kept: seq<nat>, x: nat, rest: seq<nat>)
    requires Linked(m, head, kept + [x] + rest, P_NEXT) && |kept| > 0
    requires |rest| > 0 ==> rest[0] < TWO32
    requires kept[|kept| - 1] + REGION_SIZE <= |m|
    requires forall b :: b in kept + [x] + rest ==> b % REGION_SIZE == 0 && b + REGION_SIZE <= |m|
    ensures
      var next: Word := if |rest| > 0 then rest[0] else 0;
      Linked(Written(m, kept[|kept| - 1] + P_NEXT, Le32(next)), head, kept + rest, P_NEXT)
  {
    hide U32At, Le32;
    var s, t, n := kept + [x] + rest, kept + rest, |kept|;
    assert kept[n - 1] in s by { assert s[n - 1] == kept[n - 1]; }
    var next: Word := if |rest| > 0 then rest[0] else 0;
    var a := kept[n - 1] + P_NEXT;
    var m' := Written(m, a, Le32(next));
    ChainHasNoRepeats(m, head, s, P_NEXT);
    forall k | 0 <= k < |t|
      ensures LinkAt(m', t, k, P_NEXT)
    {
      var j := if k < n then k else k + 1;
      assert t[k] == s[j] && s[j] in s && LinkAt(m, s, j, P_NEXT);
      if k == n - 1 {
        U32Written(m, a, next);
      } else {
        assert s[j] != s[n - 1];
        RegionsApart(s[j], s[n - 1]);
        U32Kept(m, m', s[j] + P_NEXT);
        assert k + 1 < |t| ==> t[k + 1] == s[j + 1];
      }
    }
  }

  // The free chain of region b comes to an end, having visited the slots s of the region.
  ghost predicate EndsAfter(m: Memory, b: nat, s: seq<nat>)
  {
    b + P_FREE + 4 <= |m| && Linked(m, U32At(m, b + P_FREE), s, PB_REMAIN) && forall p :: p in s ==> IsSlot(b, p)
  }

  ghost predicate ChainEnds(m: Memory, b: nat) { exists s :: EndsAfter(m, b, s) }

  /** Whatever state a region is in, a return leaves a finite chain if and only if there was one without the slot. */
  lemma {:induction false} ReturnEnds(m: Memory, b: nat, p: nat)
    requires 0 < b && b % REGION_SIZE == 0 && b + REGION_SIZE <= |m| <= TWO32 && IsSlot(b, p)
    ensures b + TRAMPOLINE_SIZE <= p && p + TRAMPOLINE_SIZE <= b + REGION_SIZE
    ensures ChainEnds(ReturnedTo(m, b, p), b) <==> exists s :: EndsAfter(m, b, s) && p !in s
  {
    hide U32At, IsSlot, ReturnedTo, Linked;
    MaskFindsRegion(b, p);
    var m' := ReturnedTo(m, b, p);
    ReturnedEdits(m, b, p);
    if ChainEnds(m', b) {
      var s :| EndsAfter(m', b, s);
      ReturnedFront(m, m', b, p, s);
      assert EndsAfter(m, b, s[1..]) && p !in s[1..];
    }
    if exists s :: EndsAfter(m, b, s) && p !in s {
      var s :| EndsAfter(m, b, s) && p !in s;
      LinksApart(m, m', b, p, s);
      ChainKept(m, m', U32At(m, b + P_FREE), s, PB_REMAIN);
      ChainPushed(m', U32At(m, b + P_FREE), s, PB_REMAIN, p);
      assert EndsAfter(m', b, [p] + s);
    }
  }

  lemma {:induction false} ReturnedFront(m: Memory, m': Memory, b: nat, p: nat, s: seq<nat>)
    requires b % REGION_SIZE == 0 && b + REGION_SIZE <= |m| <= TWO32 && IsSlot(b, p) && EndsAfter(m', b, s)
    requires SlotEdited(m, m', p) && U32At(m', b + P_FREE) == p < TWO32 && p + PB_REMAIN + 4 <= |m'|
    requires U32At(m', p + PB_REMAIN) == U32At(m, b + P_FREE)
    ensures |s| > 0 && EndsAfter(m, b, s[1..]) && p !in s[1..]
  {
    hide U32At, IsSlot, SlotEdited, LinkAt;
    SlotIsPositive(b, p);
    assert |s| > 0 && s[0] == p;
    LinkedRest(m', p, s, PB_REMAIN);
    ChainHasNoRepeats(m', p, s, PB_REMAIN);
    var rest := s[1..];
    assert forall k :: 0 <= k < |rest| ==> rest[k] == s[k + 1] && rest[k] in s;
    LinksApart(m, m', b, p, rest);
    SlotEditedBack(m, m', p);
    ChainKept(m', m, U32At(m, b + P_FREE), rest, PB_REMAIN);
  }

  lemma {:induction false} SlotIsPositive(b: nat, p: nat)
    requires IsSlot(b, p)
    ensures 0 < p
  {
  }

  lemma {:induction false} SlotEditedBack(m: Memory, m': Memory, p: nat)
    requires SlotEdited(m, m', p)
    ensures |m| == |m'|
  {
  }

  predicate FitsSlot(p: nat) { 0 < RegionOf(p) && IsSlot(RegionOf(p), p) && RegionOf(p) + REGION_SIZE <= TWO32 && p + TRAMPOLINE_SIZE <= TWO32 }

  // The slots are given back one after the other.
  ghost function Freed(m: Memory, ps: seq<nat>): (r: Memory)
    requires |m| == TWO32 && forall p :: p in ps ==> FitsSlot(p)
    ensures |r| == |m|
    decreases |ps|
  {
    if ps == [] then m
    else
      var n := |ps| - 1;
      assert FitsSlot(ps[n]);
      ReturnedTo(Freed(m, ps[..n]), RegionOf(ps[n]), ps[n])
  }

  // No slot of region b is given back twice.
  ghost predicate OnceIn(ps: seq<nat>, b: nat) { forall j, k :: 0 <= j < k < |ps| && RegionOf(ps[j]) == b ==> ps[j] != ps[k] }

  ghost function Elements(ps: seq<nat>): set<nat> { set p | p in ps }

  /**
   Slots in use are given back in any order: a region's free chain stays finite if and only if none of its
   slots is given back twice, and then it lists exactly the slots that are not in use.
   */
  lemma {:induction false} FreedChain(m: Memory, b: nat, free: seq<nat>, live: set<nat>, ps: seq<nat>) returns (f: seq<nat>)
    requires |m| == TWO32 && RegionOk(m, b, free, live) && forall p :: p in ps ==> FitsSlot(p) && p in live
    ensures ChainEnds(Freed(m, ps), b) <==> OnceIn(ps, b)
    ensures OnceIn(ps, b) ==> RegionOk(Freed(m, ps), b, f, live - Elements(ps))
    decreases |ps|
  {
    hide U32At, IsSlot, ReturnedTo, RegionOk, RegionOf, ChainEnds;
    if ps == [] {
      f := free;
      assert live - Elements(ps) == live;
      FiniteIfOk(m, b, free, live);
    } else {
      var n := |ps| - 1;
      var p, before := ps[n], ps[..n];
      assert FitsSlot(p) && p in live;
      f := FreedChain(m, b, free, live, before);
      var m1, left := Freed(m, before), live - Elements(before);
      assert live - Elements(ps) == left - {p} by { OneMoreElement(ps); }
      if RegionOf(p) != b {
        OtherRegion(ps, b);
        ReturnElsewhere(m, m1, b, free, f, live, left, p);
      } else if OnceIn(before, b) {
        OnceMore(ps, b);
        ReturnIn(m1, b, f, left, p);
        if p in left {
          f := [p] + f;
        }
      } else {
        assert !OnceIn(ps, b) by { NotOnceAnyMore(ps, b); }
        RegionIsPlaced(m, b, free, live);
        ReturnStaysEndless(m1, b, p);
      }
    }
  }

  lemma {:induction false} OneMoreElement(ps: seq<nat>)
    requires ps != []
    ensures Elements(ps) == Elements(ps[..|ps| - 1]) + {ps[|ps| - 1]}
  {
    assert ps == ps[..|ps| - 1] + [ps[|ps| - 1]];
  }

  lemma {:induction false} OtherRegion(ps: seq<nat>, b: nat)
    requires ps != [] && RegionOf(ps[|ps| - 1]) != b
    ensures OnceIn(ps, b) <==> OnceIn(ps[..|ps| - 1], b)
  {
    hide RegionOf;
    var before := ps[..|ps| - 1];
    if OnceIn(before, b) {
      forall j, k | 0 <= j < k < |ps| && RegionOf(ps[j]) == b
        ensures ps[j] != ps[k]
      {
        assert before[j] == ps[j] && (k < |before| ==> before[k] == ps[k]);
      }
    }
  }

  lemma {:induction false} OnceMore(ps: seq<nat>, b: nat)
    requires ps != [] && RegionOf(ps[|ps| - 1]) == b && OnceIn(ps[..|ps| - 1], b)
    ensures OnceIn(ps, b) <==> ps[|ps| - 1] !in Elements(ps[..|ps| - 1])
  {
    hide RegionOf;
    var n := |ps| - 1;
    var before := ps[..n];
    assert forall j :: 0 <= j < n ==> before[j] == ps[j];
    if ps[n] in before {
      var j :| 0 <= j < n && before[j] == ps[n];
      assert ps[j] == ps[n] && RegionOf(ps[j]) == b;
    } else {
      forall j, k | 0 <= j < k < |ps| && RegionOf(ps[j]) == b
        ensures ps[j] != ps[k]
      {
        assert before[j] == ps[j] && (k < n ==> before[k] == ps[k]);
      }
    }
  }

  lemma {:induction false} NotOnceAnyMore(ps: seq<nat>, b: nat)
    requires ps != [] && !OnceIn(ps[..|ps| - 1], b)
    ensures !OnceIn(ps, b)
  {
    hide RegionOf;
    var before := ps[..|ps| - 1];
    var j, k :| 0 <= j < k < |before| && RegionOf(before[j]) == b && before[j] == before[k];
    assert ps[j] == before[j] && ps[k] == before[k];
  }

  lemma {:induction false} RegionIsPlaced(m: Memory, b: nat, free: seq<nat>, live: set<nat>)
    requires RegionOk(m, b, free, live)
    ensures 0 < b && b % REGION_SIZE == 0 && b + REGION_SIZE <= |m|
  {
  }

  lemma {:induction false} FiniteIfOk(m: Memory, b: nat, free: seq<nat>, live: set<nat>)
    requires RegionOk(m, b, free, live)
    ensures ChainEnds(m, b)
  {
    hide U32At, IsSlot, Linked;
    assert EndsAfter(m, b, free);
  }

  // A slot of this region: in use, or given back already.
  lemma {:induction false} ReturnIn(m: Memory, b: nat, free: seq<nat>, live: set<nat>, p: nat)
    requires |m| == TWO32 && RegionOk(m, b, free, live) && IsSlot(b, p)
    ensures b + TRAMPOLINE_SIZE <= p && p + TRAMPOLINE_SIZE <= b + REGION_SIZE && b + REGION_SIZE <= |m|
    ensures ChainEnds(ReturnedTo(m, b, p), b) <==> p in live
    ensures p in live ==> RegionOk(ReturnedTo(m, b, p), b, [p] + free, live - {p})
  {
    hide U32At, IsSlot, ReturnedTo, Linked, ChainEnds;
    ReturnEnds(m, b, p);
    if p in live {
      ReturnKeepsRegion(m, b, free, live, p);
      FiniteIfOk(ReturnedTo(m, b, p), b, [p] + free, live - {p});
    } else {
      forall s | EndsAfter(m, b, s)
        ensures p in s
      {
        ChainIsUnique(m, U32At(m, b + P_FREE), s, free, PB_REMAIN);
      }
    }
  }

  lemma {:induction false} ReturnStaysEndless(m: Memory, b: nat, p: nat)
    requires 0 < b && b % REGION_SIZE == 0 && b + REGION_SIZE <= |m| <= TWO32 && IsSlot(b, p) && !ChainEnds(m, b)
    ensures b + TRAMPOLINE_SIZE <= p && p + TRAMPOLINE_SIZE <= b + REGION_SIZE
    ensures !ChainEnds(ReturnedTo(m, b, p), b)
  {
    hide U32At, IsSlot, ReturnedTo, EndsAfter;
    ReturnEnds(m, b, p);
  }

  // A slot of another region.
  lemma {:induction false} ReturnElsewhere(m0: Memory, m: Memory, b: nat, free0: seq<nat>, free: seq<nat>, live0: set<nat>, live: set<nat>, p: nat)
    requires |m0| == |m| == TWO32 && RegionOk(m0, b, free0, live0) && FitsSlot(p) && RegionOf(p) != b
    ensures ChainEnds(ReturnedTo(m, RegionOf(p), p), b) <==> ChainEnds(m, b)
    ensures RegionOk(m, b, free, live) ==> RegionOk(ReturnedTo(m, RegionOf(p), p), b, free, live - {p})
  {
    hide U32At, IsSlot, ReturnedTo, Linked;
    var c := RegionOf(p);
    ReturnedEdits(m, c, p);
    RegionsApart(b, c);
    var m' := ReturnedTo(m, c, p);
    EndsKept(m, m', b);
    EndsKept(m', m, b);
    if RegionOk(m, b, free, live) {
      forall q | IsSlot(b, q)
        ensures q in live <==> q in live - {p}
      {
        MaskFindsRegion(b, q);
      }
      RegionKept(m, m', b, free, live, live - {p});
    }
  }

  lemma {:induction false} EndsKept(m: Memory, m': Memory, b: nat)
    requires b % REGION_SIZE == 0 && b + REGION_SIZE <= |m| == |m'| && forall a :: b <= a < b + REGION_SIZE ==> m'[a] == m[a]
    ensures ChainEnds(m, b) ==> ChainEnds(m', b)
  {
    hide U32At, Linked;
    if ChainEnds(m, b) {
      var s :| EndsAfter(m, b, s);
      U32Kept(m, m', b + P_FREE);
      forall k, a | 0 <= k < |s| && s[k] + PB_REMAIN <= a < s[k] + PB_REMAIN + 4 && a < |m|
        ensures m'[a] == m[a]
      {
        assert s[k] in s;
        MaskFindsRegion(b, s[k]);
      }
      ChainKept(m, m', U32At(m, b + P_FREE), s, PB_REMAIN);
      assert EndsAfter(m', b, s);
    }
  }

  /**
   Giving a slot back keeps the chain finite if and only if the slot is in use: a slot given back twice, as
   when one hook is detached twice in a transaction, closes the chain to a ring.
   */
  lemma {:induction false} ReturnTwiceMakesRing(m: Memory, b: nat, free: seq<nat>, live: set<nat>, p: nat)
    requires RegionOk(m, b, free, live) && |m| <= TWO32 && IsSlot(b, p)
    ensures b + TRAMPOLINE_SIZE <= p && p + TRAMPOLINE_SIZE <= b + REGION_SIZE
    ensures (exists s :: Linked(ReturnedTo(m, b, p), p, s, PB_REMAIN)) <==> p in live
  {
    hide U32At, IsSlot, ReturnedTo, LinkAt;
    MaskFindsRegion(b, p);
    var m' := ReturnedTo(m, b, p);
    if p in live {
      ReturnKeepsRegion(m, b, free, live, p);
      HeadOfChain(m', b, [p] + free, live - {p});
    } else {
      var k :| 0 <= k < |free| && free[k] == p;
      var ring := [p] + free[..k + 1];
      ReturnedRing(m, b, free, live, p, k);
      assert ring[0] == ring[k + 1];
      forall s | Linked(m', p, s, PB_REMAIN)
        ensures false
      {
        PathIsPrefix(m', p, s, ring, PB_REMAIN);
        ChainHasNoRepeats(m', p, s, PB_REMAIN);
      }
    }
  }

  // Each node links to the next; the last may link anywhere.
  ghost predicate IsPath(m: Memory, r: seq<nat>, offset: nat)
  {
    forall k :: 0 <= k < |r| ==> 0 < r[k] && r[k] + offset + 4 <= |m| && (k + 1 < |r| ==> U32At(m, r[k] + offset) == r[k + 1])
  }

  lemma {:induction false} PathIsPrefix(m: Memory, head: Word, s: seq<nat>, r: seq<nat>, offset: nat)
    requires Linked(m, head, s, offset) && IsPath(m, r, offset) && |r| > 0 && r[0] == head
    ensures r <= s
    decreases |r|
  {
    hide U32At;
    if |s| > 0 {
      assert LinkAt(m, s, 0, offset);
      if |r| > 1 {
        LinkedRest(m, head, s, offset);
        PathIsPrefix(m, U32At(m, s[0] + offset), s[1..], r[1..], offset);
      }
      assert r == [r[0]] + r[1..] && s == [s[0]] + s[1..];
    }
  }

  // From a slot that was returned once too often the chain leads back to it.
  lemma {:induction false} ReturnedRing(m: Memory, b: nat, free: seq<nat>, live: set<nat>, p: nat, k: nat)
    requires RegionOk(m, b, free, live) && |m| <= TWO32 && IsSlot(b, p) && k < |free| && free[k] == p
    ensures b + TRAMPOLINE_SIZE <= p && p + TRAMPOLINE_SIZE <= b + REGION_SIZE
    ensures IsPath(ReturnedTo(m, b, p), [p] + free[..k + 1], PB_REMAIN)
  {
    hide U32At, IsSlot, ReturnedTo;
    MaskFindsRegion(b, p);
    var m' := ReturnedTo(m, b, p);
    ReturnedEdits(m, b, p);
    HeadOfChain(m, b, free, live);
    ChainHasNoRepeats(m, U32At(m, b + P_FREE), free, PB_REMAIN);
    var r := [p] + free[..k + 1];
    forall j | 0 <= j < |r|
      ensures 0 < r[j] && r[j] + PB_REMAIN + 4 <= |m'| && (j + 1 < |r| ==> U32At(m', r[j] + PB_REMAIN) == r[j + 1])
    {
      if j > 0 {
        var q := free[j - 1];
        assert r[j] == q && q in free && LinkAt(m, free, j - 1, PB_REMAIN);
        MaskFindsRegion(b, q);
        if j + 1 < |r| {
          assert q != p;
          SlotsApart(b, p, q);
          U32Kept(m, m', q + PB_REMAIN);
        }
      }
    }
  }
}