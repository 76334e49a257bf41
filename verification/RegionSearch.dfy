/** Where a new trampoline region is looked for. */
module RegionSearch {
  import opened Words

  const REGION_SIZE := 0x1_0000
  const TWO64: int := 0x1_0000_0000_0000_0000

  // The address range reserved for system DLLs, both bounds included.
  const SYSTEM_LOW := 0x7000_0000
  const SYSTEM_HIGH := 0x8000_0000
  const SYSTEM_STEP := 0x0800_0000

  const ALMOST_2GB := 0x7ff8_0000
  const LOWEST := 0x8_0000
  const GB := 0x4000_0000

  datatype Width = Bits32 | Bits64

  function AddressLimit(w: Width): nat { if w.Bits32? then TWO32 else TWO64 }

  // VirtualQuery's answer and VirtualAlloc's, for the duration of one search.
  datatype Block = Block(baseAddress: nat, regionSize: nat, allocationBase: nat, free: bool)
  datatype Grant = Granted | Refused | CodeBlocked
  datatype AddressMap = AddressMap(query: nat -> Option<Block>, grant: nat -> Grant)

  // The answers of a system that allocates in units of 64 KB, never the first. The pages of a block, and
  // those of an allocation, are either all free or all not.
  ghost predicate Granular(w: Width, map_: AddressMap)
  {
    forall a: nat :: a % REGION_SIZE == 0 && map_.query(a).Some? ==> BlockOk(w, map_, a, map_.query(a).value)
  }

  ghost predicate BlockOk(w: Width, map_: AddressMap, a: nat, b: Block)
  {
    var limit := b.baseAddress + b.regionSize;
    && b.baseAddress <= a < limit <= AddressLimit(w) - REGION_SIZE
    && (b.free ==> a + REGION_SIZE <= limit)
    && (!b.free ==>
          && REGION_SIZE <= b.allocationBase <= a && b.allocationBase % REGION_SIZE == 0
          && forall x :: b.allocationBase <= x < limit ==> !FreeAt(map_, x))
  }

  ghost predicate FreeAt(map_: AddressMap, a: nat) { map_.query(a).Some? && map_.query(a).value.free }

  function RoundDown(a: nat): (r: nat)
    ensures r % REGION_SIZE == 0 && r <= a < r + REGION_SIZE
  {
    a - a % REGION_SIZE
  }

  function RoundUp(a: nat): (r: nat)
    ensures r % REGION_SIZE == 0 && a <= r < a + REGION_SIZE
  {
    if a % REGION_SIZE == 0 then a else a + (REGION_SIZE - a % REGION_SIZE)
  }

  predicate Reserved(a: nat) { SYSTEM_LOW <= a <= SYSTEM_HIGH }

  // A region at a can be handed to the allocator.
  ghost predicate Usable(map_: AddressMap, a: nat)
  {
    a % REGION_SIZE == 0 && FreeAt(map_, a) && map_.grant(a).Granted? && !Reserved(a)
  }

  // A search that comes to a gives up there.
  ghost predicate StopsAt(map_: AddressMap, a: nat)
  {
    a % REGION_SIZE == 0 && !Reserved(a) && (map_.query(a).None? || (FreeAt(map_, a) && map_.grant(a).CodeBlocked?))
  }

  // A search for a that starts at from_ and goes up, or at pbHi and goes down, gives up before it comes to a.
  ghost predicate StopsBelow(map_: AddressMap, from_: nat, a: nat) { exists b :: from_ <= b < a && StopsAt(map_, b) }

  ghost predicate StopsAbove(map_: AddressMap, a: nat, pbHi: nat) { exists b :: a < b < pbHi && StopsAt(map_, b) }

  /** A usable region does not overlap the reserved range. */
  lemma {:induction false} AlignedAvoidsReserved(map_: AddressMap, a: nat, x: nat)
    requires Usable(map_, a) && a <= x < a + REGION_SIZE
    ensures !Reserved(x)
  {
  }

  lemma {:induction false} StepKeepsAlignment(a: int)
    ensures (a + SYSTEM_STEP) % REGION_SIZE == a % REGION_SIZE
    ensures (a - SYSTEM_STEP) % REGION_SIZE == a % REGION_SIZE
    ensures (a + REGION_SIZE) % REGION_SIZE == a % REGION_SIZE
    ensures (a - REGION_SIZE) % REGION_SIZE == a % REGION_SIZE
  {
    assert (a + REGION_SIZE * 0x800) % REGION_SIZE == a % REGION_SIZE;
    assert (a - REGION_SIZE * 0x800) % REGION_SIZE == a % REGION_SIZE;
  }

  // Usable regions the upward and the downward search step over behind the reserved range.
  predicate SkippedUp(a: nat) { 0x8000_0000 < a < 0x8800_0000 }

  predicate SkippedDown(a: nat) { 0x6800_0000 < a < 0x7000_0000 }

  /** What is usable: what is free in units of 64 KB and granted, outside the range from 7000_0000h to 8000_0000h. */
  lemma {:induction false} UsableIs(map_: AddressMap, a: nat)
    ensures Usable(map_, a) <==>
      && a % 0x1_0000 == 0 && !(0x7000_0000 <= a <= 0x8000_0000)
      && map_.query(a).Some? && map_.query(a).value.free && map_.grant(a).Granted?
  {
  }

  lemma {:induction false} UpReserved(map_: AddressMap, a: nat, x: nat)
    requires Reserved(a) && a <= x < a + SYSTEM_STEP && Usable(map_, x)
    ensures SkippedUp(x)
  {
  }

  lemma {:induction false} DownReserved(map_: AddressMap, a: nat, x: nat)
    requires Reserved(a) && a - SYSTEM_STEP < x <= a && Usable(map_, x)
    ensures SkippedDown(x)
  {
  }

  lemma {:induction false} NoOtherAligned(a: nat, x: nat)
    requires a % REGION_SIZE == 0 && x % REGION_SIZE == 0 && a - REGION_SIZE < x < a + REGION_SIZE
    ensures x == a
  {
  }

  lemma {:induction false} RoundUpIsLeast(a: nat, x: nat)
    ensures a <= x && x % REGION_SIZE == 0 ==> RoundUp(a) <= x
  {
  }

  lemma {:induction false} NoneUpToBlockEnd(w: Width, map_: AddressMap, a: nat, x: nat)
    requires Granular(w, map_) && a % REGION_SIZE == 0 && map_.query(a).Some? && !map_.query(a).value.free
    requires
      var b := map_.query(a).value;
      b.allocationBase <= x < RoundUp(b.baseAddress + b.regionSize)
    ensures !Usable(map_, x)
  {
    var b := map_.query(a).value;
    assert BlockOk(w, map_, a, b);
    RoundUpIsLeast(b.baseAddress + b.regionSize, x);
  }

  lemma {:induction false} NoneDownToBlock(w: Width, map_: AddressMap, a: nat, x: nat)
    requires Granular(w, map_) && a % REGION_SIZE == 0 && map_.query(a).Some? && !map_.query(a).value.free
    requires
      var b := map_.query(a).value;
      b.allocationBase >= REGION_SIZE && RoundDown(b.allocationBase - REGION_SIZE) < x <= a
    ensures !Usable(map_, x)
  {
    hide RoundUp;
    var b := map_.query(a).value;
    assert BlockOk(w, map_, a, b);
    if x < b.allocationBase {
      StepKeepsAlignment(b.allocationBase);
      NoOtherAligned(b.allocationBase - REGION_SIZE, RoundDown(b.allocationBase - REGION_SIZE));
      if x % REGION_SIZE == 0 {
        NoOtherAligned(b.allocationBase, x);
      }
    } else {
      NoneUpToBlockEnd(w, map_, a, x);
    }
  }

  /**
   detour_alloc_region_from_lo: the lowest usable region from pbLo on, below pbHi. Only what lies just
   above the reserved range may be missed; otherwise there is none, or the system gave the search up.
   */
  method RegionFromLo(w: Width, map_: AddressMap, pbLo: nat, pbHi: nat) returns (r: Option<nat>)
    requires Granular(w, map_) && pbHi <= AddressLimit(w) - REGION_SIZE
    ensures r.Some? ==> pbLo <= r.value < pbHi && Usable(map_, r.value)
    ensures forall a :: pbLo <= a < (if r.Some? then r.value else pbHi) && Usable(map_, a) && !SkippedUp(a) ==>
              r.None? && StopsBelow(map_, pbLo, a)
  {
    hide Reserved, SkippedUp, RoundUp;
    forall a | pbLo <= a < RoundUp(pbLo) ensures !Usable(map_, a) {
      if a % REGION_SIZE == 0 { NoOtherAligned(RoundUp(pbLo), a); }
    }
    var pbTry := RoundUp(pbLo);
    while pbTry < pbHi
      invariant pbTry % REGION_SIZE == 0 && pbLo <= pbTry
      invariant forall a :: pbLo <= a < pbTry && Usable(map_, a) ==> SkippedUp(a)
      decreases pbHi - pbTry
    {
      StepKeepsAlignment(pbTry);
      if Reserved(pbTry) {
        forall a | pbTry <= a < pbTry + SYSTEM_STEP && Usable(map_, a) ensures SkippedUp(a) { UpReserved(map_, pbTry, a); }
        pbTry := pbTry + SYSTEM_STEP;
        continue;
      }
      var mbi := map_.query(pbTry);
      if mbi.None? {
        assert StopsAt(map_, pbTry);
        break;
      }
      if mbi.value.free && mbi.value.regionSize >= REGION_SIZE {
        if map_.grant(pbTry).Granted? {
          return Some(pbTry);
        } else if map_.grant(pbTry).CodeBlocked? {
          assert StopsAt(map_, pbTry);
          return None;
        }
        forall a | pbTry <= a < pbTry + REGION_SIZE ensures !Usable(map_, a) {
          if a % REGION_SIZE == 0 { NoOtherAligned(pbTry, a); }
        }
        pbTry := pbTry + REGION_SIZE;
      } else {
        forall a | pbTry <= a < RoundUp(mbi.value.baseAddress + mbi.value.regionSize) ensures !Usable(map_, a) {
          NoneUpToBlockEnd(w, map_, pbTry, a);
        }
        pbTry := RoundUp(mbi.value.baseAddress + mbi.value.regionSize);
      }
    }
    return None;
  }

  /** detour_alloc_region_from_hi: the highest usable region below pbHi, above pbLo. */
  method RegionFromHi(w: Width, map_: AddressMap, pbLo: nat, pbHi: nat) returns (r: Option<nat>)
    requires Granular(w, map_) && REGION_SIZE <= pbHi
    ensures r.Some? ==> pbLo < r.value <= pbHi - REGION_SIZE && Usable(map_, r.value)
    ensures forall a :: (if r.Some? then r.value else pbLo) < a <= pbHi - REGION_SIZE && Usable(map_, a) && !SkippedDown(a) ==>
              r.None? && StopsAbove(map_, a, pbHi - REGION_SIZE + 1)
  {
    hide Reserved, SkippedDown, RoundDown;
    forall a: nat | RoundDown(pbHi - REGION_SIZE) < a <= pbHi - REGION_SIZE ensures !Usable(map_, a) {
      if a % REGION_SIZE == 0 { NoOtherAligned(RoundDown(pbHi - REGION_SIZE), a); }
    }
    var pbTry := RoundDown(pbHi - REGION_SIZE);
    while pbTry > pbLo
      invariant pbTry % REGION_SIZE == 0 && pbTry <= pbHi - REGION_SIZE
      invariant forall a: nat :: pbTry < a <= pbHi - REGION_SIZE && Usable(map_, a) ==> SkippedDown(a)
      decreases pbTry
    {
      StepKeepsAlignment(pbTry);
      if Reserved(pbTry) {
        forall a: nat | pbTry - SYSTEM_STEP < a <= pbTry && Usable(map_, a) ensures SkippedDown(a) { DownReserved(map_, pbTry, a); }
        pbTry := pbTry - SYSTEM_STEP;
        continue;
      }
      var mbi := map_.query(pbTry);
      if mbi.None? {
        assert StopsAt(map_, pbTry);
        break;
      }
      if mbi.value.free && mbi.value.regionSize >= REGION_SIZE {
        if map_.grant(pbTry).Granted? {
          return Some(pbTry);
        } else if map_.grant(pbTry).CodeBlocked? {
          assert StopsAt(map_, pbTry);
          return None;
        }
        forall a: nat | pbTry - REGION_SIZE < a <= pbTry ensures !Usable(map_, a) {
          if a % REGION_SIZE == 0 { NoOtherAligned(pbTry, a); }
        }
        pbTry := pbTry - REGION_SIZE;
      } else {
        forall a: nat | RoundDown(mbi.value.allocationBase - REGION_SIZE) < a <= pbTry ensures !Usable(map_, a) {
          NoneDownToBlock(w, map_, pbTry, a);
        }
        pbTry := RoundDown(mbi.value.allocationBase - REGION_SIZE);
      }
    }
    return None;
  }

  // The region that the 32-bit search for the target t finds: the highest usable one below, and if the search comes to
  // none there, the lowest one above.
  ghost predicate FirstFound(map_: AddressMap, t: nat, pLo: nat, pHi: nat, b: nat)
  {
    && Usable(map_, b)
    && if b < t then pLo < b && forall a :: b < a < t && Usable(map_, a) ==> SkippedDown(a)
       else
         && b < pHi && (forall a :: t <= a < b && Usable(map_, a) ==> SkippedUp(a))
         && (forall a :: pLo < a < t && Usable(map_, a) && !SkippedDown(a) ==> StopsAbove(map_, a, t))
  }

  // No usable region that is a gigabyte or more from the target t could be found.
  ghost predicate NoneFar(map_: AddressMap, t: nat, pLo: nat, pHi: nat)
  {
    && (forall a :: pLo < a <= t - 0x4000_0000 - 0x1_0000 && Usable(map_, a) && !SkippedDown(a) ==> StopsAbove(map_, a, t))
    && (forall a :: t + 0x4000_0000 <= a < pHi && t < TWO64 - 3 * 0x4000_0000 && Usable(map_, a) && !SkippedUp(a) ==> StopsBelow(map_, t, a))
  }

  /**
   detour_alloc_trampoline_allocate_new, for a target rounded down to 64 KB. It finds no region only if
   none in the window is usable, but for those the two searches skip and those behind an address at which the
   search from the target downwards, or upwards, gives up. The 64-bit search prefers regions a gigabyte away.
   */
  method AllocateNew(w: Width, map_: AddressMap, pbTarget: nat, pLo: nat, pHi: nat) returns (r: Option<nat>)
    requires Granular(w, map_) && pbTarget % REGION_SIZE == 0 && REGION_SIZE <= pbTarget < AddressLimit(w)
    requires pHi <= AddressLimit(w) - REGION_SIZE
    ensures r.Some? ==> REGION_SIZE <= r.value <= AddressLimit(w) - 2 * REGION_SIZE && Usable(map_, r.value)
    ensures w.Bits32? && r.Some? ==> FirstFound(map_, pbTarget, pLo, pHi, r.value)
    ensures w.Bits64? && r.Some? && -0x4000_0000 < r.value - pbTarget < 0x4000_0000 ==> NoneFar(map_, pbTarget, pLo, pHi)
    ensures forall a :: pLo < a < pHi && Usable(map_, a) && !SkippedUp(a) && !SkippedDown(a) ==>
              r.Some? || StopsAbove(map_, a, pbTarget) || StopsBelow(map_, pbTarget, a)
  {
    hide Usable, SkippedUp, SkippedDown, StopsAt;
    NoneBetween(map_, pbTarget);
    r := None;
    if w.Bits64? {
      if pbTarget > GB {
        r := RegionFromHi(w, map_, pLo, pbTarget - GB);
      }
      if r.None? && pbTarget < TWO64 - 3 * GB {
        r := RegionFromLo(w, map_, pbTarget + GB, pHi);
      }
      if r.None? && pbTarget > GB {
        r := RegionFromLo(w, map_, pbTarget - GB, pbTarget);
      }
      if r.None? && pbTarget < TWO64 - 3 * GB {
        r := RegionFromHi(w, map_, pbTarget, pbTarget + GB);
      }
    }
    if r.None? {
      r := RegionFromHi(w, map_, pLo, pbTarget);
    }
    if r.None? {
      r := RegionFromLo(w, map_, pbTarget, pHi);
      if r.None? {
        forall a | pLo < a < pHi && Usable(map_, a) && !SkippedUp(a) && !SkippedDown(a)
          ensures StopsAbove(map_, a, pbTarget) || StopsBelow(map_, pbTarget, a)
        {
        }
      }
    }
    if r.Some? {
      UsableIsInside(w, map_, r.value);
    }
  }

  lemma {:induction false} NoneBetween(map_: AddressMap, t: nat)
    requires t % REGION_SIZE == 0
    ensures forall a: nat :: t - REGION_SIZE < a < t ==> !Usable(map_, a)
  {
    forall a: nat | t - REGION_SIZE < a < t
      ensures !Usable(map_, a)
    {
      if a % REGION_SIZE == 0 {
        NoOtherAligned(t, a);
      }
    }
  }

  lemma {:induction false} UsableIsAligned(map_: AddressMap, a: nat)
    requires Usable(map_, a)
    ensures a % REGION_SIZE == 0
  {
  }

  lemma {:induction false} UsableIsInside(w: Width, map_: AddressMap, a: nat)
    requires Granular(w, map_) && Usable(map_, a)
    ensures a <= AddressLimit(w) - 2 * REGION_SIZE && (0 < a ==> REGION_SIZE <= a)
  {
    assert BlockOk(w, map_, a, map_.query(a).value);
  }

  // detour_2gb_below and detour_2gb_above.
  function Below(a: nat): nat { if a > ALMOST_2GB then a - ALMOST_2GB else LOWEST }

  function Above(w: Width, a: nat): nat
  {
    if w.Bits32? then (if a < 0x8000_0000 then a + ALMOST_2GB else 0xfff8_0000)
    else if a < TWO64 - 0x8000_0000 then a + ALMOST_2GB else TWO64 - LOWEST
  }

  datatype Bounds = Bounds(lo: nat, hi: nat)

  // Where the jump or the jump vector at pbCode leads.
  function NearTarget(w: Width, m: Memory, pbCode: nat): Option<nat>
    requires pbCode + 6 <= |m|
  {
    if m[pbCode] == 0xE9 then Some((pbCode + 5 + Signed32(U32At(m, pbCode + 1))) % AddressLimit(w))
    else if w.Bits64? && m[pbCode] == 0xFF && m[pbCode + 1] == 0x25 then
      Some((pbCode + 6 + Signed32(U32At(m, pbCode + 2))) % AddressLimit(w))
    else None
  }

  /** detour_find_jmp_bounds. */
  function JumpBounds(w: Width, m: Memory, pbCode: nat): Bounds
    requires pbCode + 6 <= |m|
  {
    BoundsFor(w, pbCode, NearTarget(w, m, pbCode))
  }

  function BoundsFor(w: Width, pbCode: nat, near: Option<nat>): Bounds
  {
    var b := Bounds(Below(pbCode), Above(w, pbCode));
    match near
    case None => b
    case Some(pbNew) => if pbNew < pbCode then b.(hi := Above(w, pbNew)) else b.(lo := Below(pbNew))
  }

  // At most 2 GB less 512 KB apart.
  predicate Near(a: int, b: int) { -0x7ff8_0000 <= a - b <= 0x7ff8_0000 }

  // A trampoline at p is near the target and what that jumps to, and not within 512 KB of either end of memory; where
  // one of these is too high for the lower end to be near it that is no matter.
  predicate WithinReach(w: Width, m: Memory, pbCode: nat, p: int)
    requires pbCode + 6 <= |m|
  {
    && p <= AddressLimit(w) - 0x8_0000 && Near(p, pbCode)
    && match NearTarget(w, m, pbCode)
       case None => 0x8_0000 <= p || pbCode > 0x7ff8_0000
       case Some(t) => Near(p, t) && (0x8_0000 <= p || pbCode > 0x7ff8_0000 || t > 0x7ff8_0000)
  }

  /** The window is all that is within reach. */
  lemma {:induction false} WindowIs(w: Width, m: Memory, pbCode: nat, p: int)
    requires pbCode + 6 <= |m| && pbCode < AddressLimit(w)
    ensures JumpBounds(w, m, pbCode).lo <= p <= JumpBounds(w, m, pbCode).hi <==> WithinReach(w, m, pbCode, p)
  {
    hide U32At, Signed32;
  }

  /** The bounds of code that starts with a jump. */
  lemma {:induction false} BoundsAre(pbCode: nat, near: nat, p: int)
    requires pbCode < TWO32
    ensures
      var b := BoundsFor(Bits32, pbCode, Some(near));
      b.lo <= p <= b.hi <==>
        p <= 0xfff8_0000 && Near(p, pbCode) && Near(p, near) && (0x8_0000 <= p || pbCode > 0x7ff8_0000 || near > 0x7ff8_0000)
  {
  }

  predicate Reaches(from_: int, to: int) { -0x8000_0000 <= to - from_ < 0x8000_0000 }

  /**
   Within the bounds every displacement fits 32 signed bits: that of the jump put at the target, to any
   byte of a trampoline, and that of the target's own jump moved there.
   */
  lemma {:induction false} WindowReaches(w: Width, m: Memory, pbCode: nat, p: nat, at: nat)
    requires pbCode + 6 <= |m| && pbCode < AddressLimit(w)
    requires JumpBounds(w, m, pbCode).lo <= p <= JumpBounds(w, m, pbCode).hi && p <= at < p + 128
    ensures Reaches(pbCode + 5, at)
    ensures NearTarget(w, m, pbCode).Some? ==> Reaches(at + 5, NearTarget(w, m, pbCode).value)
  {
  }
}
