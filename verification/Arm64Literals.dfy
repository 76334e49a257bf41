/** The A64 instructions that read their own address, and when their copies do the same elsewhere. */
module Arm64Literals {
  import opened Words
  import opened Arm64
  import opened Arm64Moves

  predicate ReadsItsAddress(i: Insn) { i.Address? || i.LoadLiteral? }

  // The address that the instruction at src computes or loads from.
  function Named(i: Insn, src: Word64): Word64
    requires ReadsItsAddress(i)
  {
    match i
    case Address(page, _, distance) => Wrap64((if page then src - src % 0x1000 else src) + distance)
    case LoadLiteral(_, _, _, distance) => Wrap64(src + distance)
  }

  function Distance(i: Insn, src: Word64, dst: Word64): int
    requires ReadsItsAddress(i)
  {
    Signed64(Wrap64(Named(i, src) - dst))
  }

  function Pages(i: Insn, src: Word64, dst: Word64): int
    requires ReadsItsAddress(i)
  {
    Named(i, src) / 0x1000 - dst / 0x1000
  }

  // What running the copy must arrive at: what the original does to the state, and control behind the copy.
  // X17 may be lost where the copy needs it.
  function Expected(i: Insn, src: Word64, dst: Word64, scratch: bool, length: nat, s: State): State
    requires ReadsItsAddress(i)
  {
    var o := Execute(i, s.(pc := src)).(pc := Wrap64(dst + 4 * length));
    if scratch then o.(x := o.x[17 := Named(i, src)]) else o
  }

  ghost predicate Replaces(i: Insn, src: Word64, dst: Word64, scratch: bool, block: seq<Word>, s: State)
    requires ReadsItsAddress(i)
  {
    Steps(block, dst, s.(pc := dst), |block|) == Some(Expected(i, src, dst, scratch, |block|, s))
  }

  // The three forms of CopyAdr.
  datatype AddressForm = Direct | PageAndAdd | Moves

  function AddressFormOf(i: Insn, src: Word64, dst: Word64): AddressForm
    requires i.Address?
  {
    if !i.page && -0x10_0000 <= Distance(i, src, dst) < 0x10_0000 then Direct
    else if !(-0x10_0000 <= Pages(i, src, dst) < 0x10_0000) then Moves
    else if i.page then Direct
    else PageAndAdd
  }

  ghost predicate IsAddressCopy(i: Insn, src: Word64, dst: Word64, block: seq<Word>)
    requires i.Address?
  {
    match AddressFormOf(i, src, dst)
    case Direct =>
      && |block| == 1
      && Decode(block[0]) == Address(i.page, i.rd, if i.page then 0x1000 * Pages(i, src, dst) else Distance(i, src, dst))
    case PageAndAdd =>
      && |block| == 2 && Decode(block[0]) == Address(true, i.rd, 0x1000 * Pages(i, src, dst))
      && Decode(block[1]) == AddImmediate(false, i.rd, i.rd, Named(i, src) % 0x1000)
    case Moves => 1 <= |block| <= 4 && Loads(block, i.rd, Named(i, src))
  }

  // The second form adds in a 32-bit register, and register 31 is the stack pointer to an addition.
  predicate AddressStays(i: Insn, src: Word64, dst: Word64)
    requires i.Address?
  {
    AddressFormOf(i, src, dst).PageAndAdd? ==> Named(i, src) < TWO32 && i.rd != 31
  }

  /**
   A copied ADR or ADRP leaves in its register, in every state, what the original leaves there, and nothing else
   changed, if and only if it is not an ADR that needs a page and an addition, or it is one of another register
   than 31 that names an address below 4 GB.
   */
  lemma {:induction false} AddressIsRightIff(i: Insn, src: Word64, dst: Word64, block: seq<Word>)
    requires i.Address? && (i.page ==> i.distance % 0x1000 == 0) && dst + 24 <= TWO64
    requires IsAddressCopy(i, src, dst, block)
    ensures (forall s: State :: Replaces(i, src, dst, false, block, s)) <==> AddressStays(i, src, dst)
  {
    hide Decode, Steps, Named, Distance, Pages, Replaces, Loads;
    var form := AddressFormOf(i, src, dst);
    if !AddressStays(i, src, dst) {
      var s := SomeState(TWO32, 0, []);
      PairReplaces(i, src, dst, block, s);
      assert !Replaces(i, src, dst, false, block, s);
    }
    forall s: State | AddressStays(i, src, dst)
      ensures Replaces(i, src, dst, false, block, s)
    {
      match form {
        case Direct => DirectReplaces(i, src, dst, block, s);
        case PageAndAdd => PairReplaces(i, src, dst, block, s);
        case Moves => MovesReplace(i, src, dst, block, s, Named(i, src));
      }
    }
  }

  function SomeState(sp: Word64, r: Word64, memory: Memory): State
  {
    State(0, seq(31, _ => r), sp, seq(32, _ => seq(16, _ => 0)), Flags(false, false, false, false), memory)
  }

  lemma {:induction false} AfterOne(block: seq<Word>, s: State)
    requires |block| == 1
    ensures After(block, s) == Execute(Decode(block[0]), s)
  {
    hide Decode, Execute;
    assert block[..0] == [];
  }

  lemma {:induction false} AfterTwo(block: seq<Word>, s: State)
    requires |block| == 2
    ensures After(block, s) == Execute(Decode(block[1]), Execute(Decode(block[0]), s))
  {
    hide Decode, Execute;
    assert block[..1] == [block[0]];
    AfterOne([block[0]], s);
  }

  lemma {:induction false} AddressEffect(i: Insn, s: State)
    requires i.Address?
    ensures Execute(i, s) == WriteTo(s.(pc := Wrap64(s.pc + 4)), i.rd, Named(i, s.pc))
  {
  }

  lemma {:induction false} DistanceIs(i: Insn, src: Word64, dst: Word64)
    requires ReadsItsAddress(i)
    ensures Wrap64(dst + Distance(i, src, dst)) == Named(i, src)
  {
    Returns(Named(i, src), dst);
  }

  lemma {:induction false} Returns(t: Word64, dst: Word64)
    ensures Wrap64(dst + Signed64(Wrap64(t - dst))) == t
  {
    var q := (t - dst) / TWO64;
    assert t - dst == q * TWO64 + Wrap64(t - dst);
    Wrap64Multiple(t, -q);
    Wrap64Multiple(t - q * TWO64, -1);
  }

  // The page that ADRP names.
  lemma {:induction false} PageIs(t: Word64, dst: Word64)
    ensures Wrap64(dst - dst % 0x1000 + 0x1000 * (t / 0x1000 - dst / 0x1000)) == t - t % 0x1000
  {
    assert t == 0x1000 * (t / 0x1000) + t % 0x1000 && dst == 0x1000 * (dst / 0x1000) + dst % 0x1000;
    WrapIs(t - t % 0x1000);
  }

  lemma {:induction false} PageIsAligned(i: Insn, src: Word64)
    requires i.Address? && i.page && i.distance % 0x1000 == 0
    ensures Named(i, src) % 0x1000 == 0
  {
    var x := src - src % 0x1000 + i.distance;
    assert src == 0x1000 * (src / 0x1000) + src % 0x1000;
    assert x == 0x1000 * (src / 0x1000 + i.distance / 0x1000);
    assert x == 0x1000 * 0x10_0000_0000_0000 * (x / TWO64) + Wrap64(x);
  }

  lemma {:induction false} DirectReplaces(i: Insn, src: Word64, dst: Word64, block: seq<Word>, s: State)
    requires i.Address? && (i.page ==> i.distance % 0x1000 == 0) && dst + 24 <= TWO64
    requires IsAddressCopy(i, src, dst, block) && AddressFormOf(i, src, dst).Direct?
    ensures Replaces(i, src, dst, false, block, s)
  {
    hide Decode, Steps, Distance, After, Execute;
    var j := Decode(block[0]);
    BlockRuns(block, dst, s.(pc := dst));
    AfterOne(block, s.(pc := dst));
    AddressEffect(j, s.(pc := dst));
    AddressEffect(i, s.(pc := src));
    DistanceIs(i, src, dst);
    PageIs(Named(i, src), dst);
    if i.page {
      PageIsAligned(i, src);
    }
  }

  // The page, and the rest added in 32 bits.
  lemma {:induction false} PairReplaces(i: Insn, src: Word64, dst: Word64, block: seq<Word>, s: State)
    requires i.Address? && dst + 24 <= TWO64
    requires IsAddressCopy(i, src, dst, block) && AddressFormOf(i, src, dst).PageAndAdd?
    ensures i.rd != 31 ==> (Replaces(i, src, dst, false, block, s) <==> Named(i, src) < TWO32)
    ensures i.rd == 31 && TWO32 <= s.sp ==> !Replaces(i, src, dst, false, block, s)
  {
    hide Decode, Steps, Distance, After, Execute, Named, AddressFormOf;
    var a := s.(pc := dst);
    BlockRuns(block, dst, a);
    AfterTwo(block, a);
    AddressEffect(i, s.(pc := src));
    PairEffect(Decode(block[0]), Decode(block[1]), Named(i, src), a);
    var o := Expected(i, src, dst, false, 2, s);
    if i.rd != 31 {
      assert After(block, a).x[i.rd] == Named(i, src) % TWO32 && o.x[i.rd] == Named(i, src);
    }
  }

  lemma {:induction false} PairEffect(j: Insn, k: Insn, t: Word64, a: State)
    requires j.Address? && j.page && j.distance == 0x1000 * (t / 0x1000 - a.pc / 0x1000) && k == AddImmediate(false, j.rd, j.rd, t % 0x1000)
    ensures
      var r := Execute(k, Execute(j, a));
      if j.rd == 31 then r == a.(pc := Wrap64(a.pc + 8), sp := (a.sp + t % 0x1000) % TWO32)
      else r == a.(pc := Wrap64(a.pc + 8), x := a.x[j.rd := t % TWO32])
  {
    hide Named;
    AddressEffect(j, a);
    PageIs(t, a.pc);
    NamedIs(j, a.pc);
    WrapTwice(a.pc, 4, 4);
  }

  lemma {:induction false} NamedIs(j: Insn, a: Word64)
    requires j.Address? && j.page
    ensures Named(j, a) == Wrap64(a - a % 0x1000 + j.distance)
  {
  }

  // Moves replace an instruction that does no more than set the register to v.
  lemma {:induction false} MovesReplace(i: Insn, src: Word64, dst: Word64, block: seq<Word>, s: State, v: Word64)
    requires ReadsItsAddress(i) && dst + 24 <= TWO64
    requires 1 <= |block| <= 4 && (if i.Address? then Loads(block, i.rd, v) else Loads(block, i.rt, v))
    ensures
      var rd := if i.Address? then i.rd else i.rt;
      && Steps(block, dst, s.(pc := dst), |block|) == Some(LoadedState(s.(pc := dst), rd, v, |block|))
      && (i.Address? && v == Named(i, src) ==> Replaces(i, src, dst, false, block, s))
  {
    hide Decode, Steps, After, Execute, Named;
    BlockRuns(block, dst, s.(pc := dst));
    if i.Address? {
      AddressEffect(i, s.(pc := src));
    }
  }

  // The three forms of CopyLdrLiteral.
  datatype LiteralForm = InReach | Constant | ThroughX17

  function LiteralFormOf(i: Insn, src: Word64, dst: Word64): LiteralForm
    requires i.LoadLiteral?
  {
    if -0x20_0000 <= Distance(i, src, dst) < 0x20_0000 then InReach else if i.simd then ThroughX17 else Constant
  }

  // The constant, which is read when the instruction is copied.
  function ReadValue(i: Insn, src: Word64, memory: Memory): Word64
    requires i.LoadLiteral? && !i.simd
  {
    if i.size == 3 then 0 else LiteralValue(i.size, Bytes(memory, Named(i, src), LiteralSize(i.size, false)))
  }

  ghost predicate IsLiteralCopy(i: Insn, src: Word64, dst: Word64, memory: Memory, block: seq<Word>, moves: seq<Word>)
    requires i.LoadLiteral?
  {
    match LiteralFormOf(i, src, dst)
    case InReach => |block| == 1 && Decode(block[0]) == LoadLiteral(i.size, i.simd, i.rt, Cut19(Distance(i, src, dst)))
    case Constant => 1 <= |block| <= 4 && Loads(block, i.rt, ReadValue(i, src, memory))
    case ThroughX17 =>
      && 1 <= |moves| <= 4 && Loads(moves, 17, Named(i, src))
      && |block| == |moves| + 1 && block == moves + [block[|moves|]] && Decode(block[|moves|]) == LoadVector(2 + i.size, i.rt, 17, 0)
  }

  // The literal is still what it was when the instruction was copied.
  ghost predicate LiteralKept(i: Insn, src: Word64, memory: Memory, s: State)
    requires i.LoadLiteral?
  {
    var n := LiteralSize(i.size, i.simd);
    Bytes(s.memory, Named(i, src), n) == Bytes(memory, Named(i, src), n)
  }

  // A load that can be seen.
  predicate HasEffect(i: Insn)
    requires i.LoadLiteral?
  {
    i.simd || (i.rt != 31 && i.size != 3)
  }

  // The near form is chosen for twice the reach that the instruction has. A prefetch that is out of reach is
  // replaced by a move to the register that has the number of its hint.
  predicate LiteralStays(i: Insn, src: Word64, dst: Word64)
    requires i.LoadLiteral?
  {
    match LiteralFormOf(i, src, dst)
    case InReach => HasEffect(i) ==> -0x10_0000 <= Distance(i, src, dst) < 0x10_0000
    case Constant => i.size == 3 ==> i.rt == 31
    case ThroughX17 => true
  }

  /**
   A copied literal load does what the original does, in every state (in the constant form, in every state that has
   the same literal), if and only if its displacement fits or it has no effect, and it is no prefetch out of reach.
   */
  lemma {:induction false} LiteralIsRightIff(i: Insn, src: Word64, dst: Word64, memory: Memory, block: seq<Word>, moves: seq<Word>)
    requires i.LoadLiteral? && i.size < 4 && (i.simd ==> i.size < 3) && dst + 24 <= TWO64 && Distance(i, src, dst) % 4 == 0
    requires IsLiteralCopy(i, src, dst, memory, block, moves)
    ensures
      var form := LiteralFormOf(i, src, dst);
      (forall s: State :: (form.Constant? ==> LiteralKept(i, src, memory, s)) ==> Replaces(i, src, dst, form.ThroughX17?, block, s))
        <==> LiteralStays(i, src, dst)
  {
    hide Decode, Steps, Named, Distance, Replaces, Loads, LiteralKept, HasEffect;
    var form := LiteralFormOf(i, src, dst);
    if !LiteralStays(i, src, dst) {
      if form.InReach? {
        var s := FarSide(i, src, dst);
        FarDiffers(i, src, dst);
        InReachReplaces(i, src, dst, memory, block, moves, s);
        assert !Replaces(i, src, dst, form.ThroughX17?, block, s);
      } else {
        var s := SomeState(0, 1, memory);
        KeptHere(i, src, memory, s);
        ConstantReplaces(i, src, dst, memory, block, moves, s);
        assert !Replaces(i, src, dst, form.ThroughX17?, block, s);
      }
    }
    forall s: State | LiteralStays(i, src, dst) && (form.Constant? ==> LiteralKept(i, src, memory, s))
      ensures Replaces(i, src, dst, form.ThroughX17?, block, s)
    {
      match form {
        case InReach =>
          InReachReplaces(i, src, dst, memory, block, moves, s);
          ReachedIsNamed(i, src, dst, s);
        case Constant => ConstantReplaces(i, src, dst, memory, block, moves, s);
        case ThroughX17 => VectorReplaces(i, src, dst, memory, block, moves, s);
      }
    }
  }

  lemma {:induction false} KeptHere(i: Insn, src: Word64, memory: Memory, s: State)
    requires i.LoadLiteral? && s.memory == memory
    ensures LiteralKept(i, src, memory, s)
  {
  }

  lemma {:induction false} LoadEffect(i: Insn, s: State)
    requires i.LoadLiteral?
    ensures Execute(i, s) == Load(s, i.size, i.simd, i.rt, s.pc + i.distance).(pc := Wrap64(s.pc + 4))
  {
    hide Load;
  }

  // Where the bytes are read is all that matters to a load.
  lemma {:induction false} LoadAt(s: State, s': State, size: nat, simd: bool, rt: Reg, a: int, a': int)
    requires s' == s.(pc := s'.pc) && Wrap64(a) == Wrap64(a')
    ensures Load(s', size, simd, rt, a') == Load(s, size, simd, rt, a).(pc := s'.pc)
  {
    BytesAt(s.memory, a, a', LiteralSize(size, simd));
  }

  lemma {:induction false} BytesAt(m: Memory, a: int, a': int, n: nat)
    requires Wrap64(a) == Wrap64(a')
    ensures Bytes(m, a, n) == Bytes(m, a', n)
  {
    hide Wrap64;
    forall k | 0 <= k < n
      ensures Bytes(m, a, n)[k] == Bytes(m, a', n)[k]
    {
      WrapTwice(a, 0, k);
      WrapTwice(a', 0, k);
    }
  }

  // In the near form, the copy is right exactly when loading from where it reaches is like loading from the target.
  lemma {:induction false} InReachReplaces(i: Insn, src: Word64, dst: Word64, memory: Memory, block: seq<Word>, moves: seq<Word>, s: State)
    requires i.LoadLiteral? && dst + 24 <= TWO64
    requires IsLiteralCopy(i, src, dst, memory, block, moves) && LiteralFormOf(i, src, dst).InReach?
    ensures Replaces(i, src, dst, false, block, s) <==>
      Load(s, i.size, i.simd, i.rt, dst + Cut19(Distance(i, src, dst))) == Load(s, i.size, i.simd, i.rt, Named(i, src))
  {
    hide Decode, Steps, Distance, After, Execute, Load, LiteralFormOf, Cut19;
    var a, o := s.(pc := dst), s.(pc := src);
    BlockRuns(block, dst, a);
    AfterOne(block, a);
    LoadEffect(Decode(block[0]), a);
    LoadEffect(i, o);
    WrapTwice(src + i.distance, 0, 0);
    var t, r := Named(i, src), dst + Cut19(Distance(i, src, dst));
    LoadAt(s, o, i.size, i.simd, i.rt, t, src + i.distance);
    LoadAt(s, a, i.size, i.simd, i.rt, r, r);
    LoadKeepsPc(s, i.size, i.simd, i.rt, r, t);
  }

  lemma {:induction false} LoadKeepsPc(s: State, size: nat, simd: bool, rt: Reg, a: int, b: int)
    ensures Load(s, size, simd, rt, a).pc == s.pc && Load(s, size, simd, rt, b).pc == s.pc
  {
  }

  // Within 1 MB the load reaches its target.
  lemma {:induction false} ReachedIsNamed(i: Insn, src: Word64, dst: Word64, s: State)
    requires i.LoadLiteral? && Distance(i, src, dst) % 4 == 0
    requires HasEffect(i) ==> -0x10_0000 <= Distance(i, src, dst) < 0x10_0000
    ensures Load(s, i.size, i.simd, i.rt, dst + Cut19(Distance(i, src, dst))) == Load(s, i.size, i.simd, i.rt, Named(i, src))
  {
    hide Distance, Named;
    if HasEffect(i) {
      hide Load, Cut19;
      CutFits(Distance(i, src, dst));
      DistanceIs(i, src, dst);
      LoadAt(s, s, i.size, i.simd, i.rt, Named(i, src), dst + Distance(i, src, dst));
    }
  }

  lemma {:induction false} CutFits(delta: int)
    requires delta % 4 == 0 && -0x20_0000 <= delta < 0x20_0000
    ensures Cut19(delta) == if delta >= 0x10_0000 then delta - 0x20_0000 else if delta < -0x10_0000 then delta + 0x20_0000 else delta
  {
  }

  // Only the target holds anything but zero.
  function FarSide(i: Insn, src: Word64, dst: Word64): State
    requires i.LoadLiteral?
  {
    SomeState(0, 0, seq(Named(i, src) + 1, k => if k == Named(i, src) then 1 else 0))
  }

  lemma {:induction false} FarDiffers(i: Insn, src: Word64, dst: Word64)
    requires i.LoadLiteral? && i.size < 4 && HasEffect(i) && Distance(i, src, dst) % 4 == 0
    requires LiteralFormOf(i, src, dst).InReach? && !(-0x10_0000 <= Distance(i, src, dst) < 0x10_0000)
    ensures
      var s := FarSide(i, src, dst);
      Load(s, i.size, i.simd, i.rt, dst + Cut19(Distance(i, src, dst))) != Load(s, i.size, i.simd, i.rt, Named(i, src))
  {
    hide Load, Cut19, Distance, Bytes, Named;
    var s, t, delta := FarSide(i, src, dst), Named(i, src), Distance(i, src, dst);
    CutFits(delta);
    DistanceIs(i, src, dst);
    var c := Cut19(delta) - delta;
    OnlyAt(s.memory, t, dst + delta, c, LiteralSize(i.size, i.simd));
    assert dst + delta + c == dst + Cut19(delta);
    LoadsDiffer(s, i.size, i.simd, i.rt, t, dst + Cut19(delta));
  }

  // The bytes of a small number.
  predicate IsNumber(b: seq<Byte>, x: Byte) { forall k :: 0 <= k < |b| ==> b[k] == if k == 0 then x else 0 }

  lemma {:induction false} OnlyAt(m: Memory, t: Word64, a: int, c: int, n: nat)
    requires Wrap64(a) == t && c in {-0x20_0000, 0x20_0000} && n <= 16
    requires |m| == t + 1 && forall j :: 0 <= j <= t ==> m[j] == if j == t then 1 else 0
    ensures IsNumber(Bytes(m, t, n), 1) && IsNumber(Bytes(m, a + c, n), 0)
  {
    hide Wrap64;
    WrapIs(t);
    assert n > 0 ==> Bytes(m, t, n)[0] == 1 by {
      Elsewhere(t, t, 0);
    }
    forall k | 0 < k < n
      ensures Bytes(m, t, n)[k] == 0
    {
      Elsewhere(t, t, k);
    }
    var b := a + c;
    forall k | 0 <= k < n
      ensures Bytes(m, b, n)[k] == 0
    {
      Elsewhere(t, a, c + k);
    }
  }

  lemma {:induction false} Elsewhere(t: Word64, a: int, c: int)
    requires Wrap64(a) == t && -0x100_0000 < c < 0x100_0000
    ensures Wrap64(a + c) == t <==> c == 0
  {
    var q := a / TWO64;
    assert a + c == t + c + q * TWO64;
    Wrap64Multiple(t + c, q);
  }

  lemma {:induction false} LoadsDiffer(s: State, size: nat, simd: bool, rt: Reg, a: int, b: int)
    requires size < 4 && (simd || (rt != 31 && size != 3))
    requires
      var n := LiteralSize(size, simd);
      IsNumber(Bytes(s.memory, a, n), 1) && IsNumber(Bytes(s.memory, b, n), 0)
    ensures Load(s, size, simd, rt, b) != Load(s, size, simd, rt, a)
  {
    hide Bytes;
    var n := LiteralSize(size, simd);
    var x, y := Bytes(s.memory, a, n), Bytes(s.memory, b, n);
    assert x[0] == 1 && y[0] == 0;
    if simd {
      assert (x + seq(16 - n, _ => 0))[0] == 1 && (y + seq(16 - n, _ => 0))[0] == 0;
      assert Load(s, size, simd, rt, a).vectors[rt][0] == 1 && Load(s, size, simd, rt, b).vectors[rt][0] == 0;
    } else {
      assert LiteralValue(size, x) == 1 && LiteralValue(size, y) == 0;
      assert Load(s, size, simd, rt, a).x[rt] == 1 && Load(s, size, simd, rt, b).x[rt] == 0;
    }
  }

  // The moves leave the value that was read, and a prefetch leaves no value.
  lemma {:induction false} ConstantReplaces(i: Insn, src: Word64, dst: Word64, memory: Memory, block: seq<Word>, moves: seq<Word>, s: State)
    requires i.LoadLiteral? && dst + 24 <= TWO64 && LiteralKept(i, src, memory, s)
    requires IsLiteralCopy(i, src, dst, memory, block, moves) && LiteralFormOf(i, src, dst).Constant?
    ensures Replaces(i, src, dst, false, block, s) <==> (i.size == 3 ==> i.rt == 31 || s.x[i.rt] == 0)
  {
    hide Decode, Steps, Distance, After, Execute, Loads, LiteralValue, Bytes;
    MovesReplace(i, src, dst, block, s, ReadValue(i, src, memory));
    var o := s.(pc := src);
    LoadEffect(i, o);
    WrapTwice(src + i.distance, 0, 0);
    LoadAt(s, o, i.size, i.simd, i.rt, Named(i, src), src + i.distance);
    var v := ReadValue(i, src, memory);
    if i.rt != 31 {
      assert LoadedState(s.(pc := dst), i.rt, v, |block|).x[i.rt] == v;
      assert s.x[i.rt := s.x[i.rt]] == s.x;
    }
  }

  // X17 holds the address, and the vector register is loaded from there.
  lemma {:induction false} VectorReplaces(i: Insn, src: Word64, dst: Word64, memory: Memory, block: seq<Word>, moves: seq<Word>, s: State)
    requires i.LoadLiteral? && i.size < 3 && dst + 24 <= TWO64
    requires IsLiteralCopy(i, src, dst, memory, block, moves) && LiteralFormOf(i, src, dst).ThroughX17?
    ensures Replaces(i, src, dst, true, block, s)
  {
    hide Decode, Steps, Distance, After, Execute, Named, Loads, WriteVector, Load, LiteralSize;
    var a, n, t := s.(pc := dst), |moves|, Named(i, src);
    assert forall j :: 0 <= j < n ==> block[j] == moves[j];
    MovesArePlain(moves, 17, t);
    BlockRuns(block, dst, a);
    AfterMore(moves, block[n], a);
    LoadsIs(moves, 17, t, a);
    var l := LoadedState(a, 17, t, n);
    VectorEffect(Decode(block[n]), i.size, t, l);
    LoadEffect(i, s.(pc := src));
    NamedWraps(i, src);
    LoadAt(s, s.(pc := src), i.size, true, i.rt, t, src + i.distance);
    WrapTwice(dst, 4 * n, 4);
    assert After(block, a) == Execute(Decode(block[n]), l);
    LoadAndX(s, i.size, i.rt, t, n, dst, t);
  }

  // A vector load does not see X17.
  lemma {:induction false} LoadAndX(s: State, size: nat, rt: Reg, t: Word64, n: nat, dst: Word64, v: Word64)
    ensures
      var l := LoadedState(s.(pc := dst), 17, v, n);
      Load(l, size, true, rt, t) == Load(s, size, true, rt, t).(pc := l.pc, x := s.x[17 := v])
    ensures Load(s, size, true, rt, t).x == s.x
  {
    hide Bytes;
  }

  lemma {:induction false} NamedWraps(i: Insn, src: Word64)
    requires i.LoadLiteral?
    ensures Wrap64(Named(i, src)) == Wrap64(src + i.distance)
  {
    WrapTwice(src + i.distance, 0, 0);
  }

  lemma {:induction false} MovesArePlain(moves: seq<Word>, rd: Reg, v: Word64)
    requires Loads(moves, rd, v)
    ensures forall k :: 0 <= k < |moves| ==> IsPlain(Decode(moves[k]))
  {
    hide Decode;
  }

  lemma {:induction false} LoadsIs(moves: seq<Word>, rd: Reg, v: Word64, s: State)
    requires Loads(moves, rd, v)
    ensures After(moves, s) == LoadedState(s, rd, v, |moves|)
  {
    hide After;
  }

  lemma {:induction false} VectorEffect(i: Insn, size: nat, t: Word64, l: State)
    requires i.LoadVector? && i.scale == 2 + size && size < 3 && i.rn == 17 && i.imm == 0 && l.x[17] == t
    ensures Execute(i, l) == Load(l, size, true, i.rt, t).(pc := Wrap64(l.pc + 4))
  {
    hide Bytes, WriteVector;
    assert PowerOfTwo(2) == 4 && PowerOfTwo(3) == 8 && PowerOfTwo(4) == 16;
  }

  // What CopyAdr achieves.
  ghost predicate AddressCopied(i: Insn, src: Word64, dst: Word64, before: seq<Word>, after: seq<Word>, bytes: nat, block: seq<Word>)
  {
    && i.Address? && after == before + block && bytes == 4 * |block| <= 16
    && ((forall s: State :: Replaces(i, src, dst, false, block, s)) <==> AddressStays(i, src, dst))
  }

  // What CopyLdrLiteral achieves, memory being what it could read.
  ghost predicate LiteralCopied(i: Insn, src: Word64, dst: Word64, memory: Memory, before: seq<Word>, after: seq<Word>, bytes: nat, block: seq<Word>)
  {
    && i.LoadLiteral? && after == before + block && bytes == 4 * |block| <= 20
    && var form := LiteralFormOf(i, src, dst);
      ((forall s: State :: (form.Constant? ==> LiteralKept(i, src, memory, s)) ==> Replaces(i, src, dst, form.ThroughX17?, block, s))
        <==> LiteralStays(i, src, dst))
  }

  lemma {:induction false} AddressIsCopied(i: Insn, src: Word64, dst: Word64, before: seq<Word>, block: seq<Word>)
    requires i.Address? && (i.page ==> i.distance % 0x1000 == 0) && dst + 24 <= TWO64
    requires IsAddressCopy(i, src, dst, block)
    ensures AddressCopied(i, src, dst, before, before + block, 4 * |block|, block)
  {
    hide Decode, Named, Distance, Pages, Replaces, Loads, AddressStays, AddressFormOf;
    AddressIsRightIff(i, src, dst, block);
  }

  lemma {:induction false} LiteralIsCopied(i: Insn, src: Word64, dst: Word64, memory: Memory, before: seq<Word>, block: seq<Word>, moves: seq<Word>)
    requires i.LoadLiteral? && i.size < 4 && (i.simd ==> i.size < 3) && dst + 24 <= TWO64 && Distance(i, src, dst) % 4 == 0
    requires IsLiteralCopy(i, src, dst, memory, block, moves)
    ensures LiteralCopied(i, src, dst, memory, before, before + block, 4 * |block|, block)
  {
    hide Decode, Named, Distance, Replaces, Loads, LiteralKept, LiteralStays;
    LiteralIsRightIff(i, src, dst, memory, block, moves);
  }

  lemma {:induction false} AdrFields(w: Word)
    requires Decode(w).Address?
    ensures
      var page := Field(w, 0x8000_0000, 2) == 1;
      Decode(w) == Address(page, Register(w), (if page then 0x1000 else 1) * SignedImmediate(w))
  {
    hide Field, SignedField, SignedImmediate;
  }

  lemma {:induction false} LdrFields(w: Word)
    requires Decode(w).LoadLiteral?
    ensures
      var size, simd := Field(w, 0x4000_0000, 4), Field(w, 0x400_0000, 2) == 1;
      Decode(w) == LoadLiteral(size, simd, Register(w), 4 * SignedField(w, 0x20, 0x8_0000)) && !(simd && size == 3)
  {
    hide SignedField, Register;
    TopFields(w);
  }

  lemma {:induction false} TopFields(w: Word)
    ensures TopByte(w) / 0x40 == Field(w, 0x4000_0000, 4) && TopByte(w) / 4 % 2 == Field(w, 0x400_0000, 2)
  {
    var top: int := w / 0x100_0000;
    assert w == 0x4000_0000 * (top / 0x40) + (w - 0x4000_0000 * (top / 0x40));
    DivIs(w, 0x4000_0000, top / 0x40, w - 0x4000_0000 * (top / 0x40));
    DivIs(w, 0x400_0000, top / 4, w - 0x400_0000 * (top / 4));
  }

  // The differences as they are computed in 64 bits.
  lemma {:induction false} PagesAre(t: Word64, dst: Word64)
    ensures Signed64(Wrap64(t / 0x1000 - dst / 0x1000)) == t / 0x1000 - dst / 0x1000
  {
  }

  lemma {:induction false} AddressIs(i: Insn, src: Word64, imm: int)
    requires i.Address? && i.distance == (if i.page then 0x1000 else 1) * imm
    ensures Named(i, src) == Wrap64(if i.page then (src / 0x1000 + imm) * 0x1000 else src + imm)
    ensures i.page ==> i.distance % 0x1000 == 0
  {
    hide Wrap64;
    assert src - src % 0x1000 == 0x1000 * (src / 0x1000);
    if i.page {
      assert src - src % 0x1000 + i.distance == (src / 0x1000 + imm) * 0x1000;
    }
  }

  lemma {:induction false} DistanceIsAligned(i: Insn, src: Word64, dst: Word64)
    requires i.LoadLiteral? && i.distance % 4 == 0 && src % 4 == 0 && dst % 4 == 0
    ensures Distance(i, src, dst) % 4 == 0
  {
    hide Wrap64, Signed64;
    WrapIsAligned(src + i.distance);
    WrapIsAligned(Named(i, src) - dst);
  }

  lemma {:induction false} WrapIsAligned(x: int)
    requires x % 4 == 0
    ensures Wrap64(x) % 4 == 0 && Signed64(Wrap64(x)) % 4 == 0
  {
    assert x == TWO64 * (x / TWO64) + Wrap64(x);
  }
}
