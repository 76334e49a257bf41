/** CDetourDis for x86: decodes one instruction, copies it and rewrites its relative displacement. */
module Disassembler {
  import opened Words
  import opened IntelDecoder
  import opened CopyTables
  import opened Relocation

  // *m_ppbTarget.
  datatype CodeTarget = NoTarget | DynamicTarget | At(address: Word)

  class CDetourDis {
    const space: AddressSpace
    var operandOverride: bool
    var addressOverride: bool
    var vex: bool
    var evex: bool
    var f2: bool
    var f3: bool
    var segmentOverride: Byte
    var target: CodeTarget
    var extra: int

    // The segment override starts uninitialised; unset is whatever was there.
    constructor (space: AddressSpace, unset: Byte)
      ensures this.space == space
      ensures Flags(NO_PREFIXES) && target == NoTarget && extra == 0
    {
      this.space := space;
      operandOverride, addressOverride, vex, evex, f2, f3 := false, false, false, false, false, false;
      segmentOverride := unset;
      target, extra := NoTarget, 0;
    }

    ghost predicate Flags(p: Prefixes)
      reads this
    {
      operandOverride == p.operand16 && addressOverride == p.address16 && f2 == p.repne && f3 == p.rep
    }

    ghost predicate Ready(code: Memory, dst: nat, src: nat, i: Insn)
      reads this`extra, space
    {
      Placed(space.bytes, code, dst, src, i) && extra == 0
    }

    // What every copying method achieves, given what memory was before.
    ghost predicate Relocated(was: Memory, code: Memory, dst: nat, src: nat, i: Insn, next: nat)
      requires WellFormed(i) && src + i.length <= |code|
      reads this, space
    {
      var e := Emitted(code, src, i, dst - src);
      && dst + |e| <= |was|
      && space.bytes == Written(was, dst, e)
      && next == src + i.length
      && extra == Extra(i, dst - src)
      && (HasTarget(i) ==> target == At(Wrap(src + i.length + i.control.disp)))
    }

    // What is achieved for an instruction as the copier reads it.
    ghost predicate Copied(was: Memory, code: Memory, dst: nat, src: nat, r: Reading, next: nat)
      reads this, space
    {
      match r
      case Whole(x) => WellFormed(x) && src + x.length <= |code| && Relocated(was, code, dst, src, x, next)
      case HeadOnly(n) =>
        && src + n <= |code| && dst + n <= |was| && space.bytes == Written(was, dst, code[src..src + n])
        && next == src + n + 1 && extra == 0
    }

    ghost predicate ReadyFor(code: Memory, dst: nat, src: nat, r: Reading, i: Insn)
      reads this`extra, space
    {
      PlacedFor(space.bytes, code, dst, src, r, i) && extra == 0
    }

    /**
     Copies the instruction i at src to dst, as it is read. The memory then holds exactly its relocated bytes
     there. Which instructions are read as what they are is the subject of EvexReadRight and OthersReadRight, and
     whether the copy means the same that of module Meaning.
     */
    method CopyInstruction(dst: nat, src: nat, ghost code: Memory, ghost i: Insn) returns (next: nat)
      requires ReadyFor(code, dst, src, ReadAs(code, src, NO_PREFIXES, i), i) && Flags(NO_PREFIXES)
      requires DecodeAt(code, src) == Some(i)
      modifies this, space
      ensures Copied(old(space.bytes), code, dst, src, ReadAs(code, src, NO_PREFIXES, i), next)
      ensures next == src + i.length <==> ReadRight(code, src, i)
    {
      if !ReadRight(code, src, i) {
        MisreadEndsElsewhere(code, src, NO_PREFIXES, i);
      }
      next := Dispatch(CopyTable(space.bytes[src]), dst, src, code, NO_PREFIXES, i);
    }

    // Rewrites the displacement field of the copied instruction of cbOp bytes and returns the
    // address it names. The difference is computed in a 32-bit LONG and stored truncated.
    method AdjustTarget(dst: nat, src: nat, cbOp: nat, cbTargetOffset: nat, cbTargetSize: nat, ghost form: Form)
      returns (pbTarget: Word)
      requires cbTargetSize == FieldSize(form)
      requires dst + cbTargetOffset + cbTargetSize <= |space.bytes|
      modifies this`extra, space
      ensures pbTarget == Wrap(src + cbOp + DispAt(old(space.bytes), dst + cbTargetOffset, form))
      ensures space.bytes == Written(old(space.bytes), dst + cbTargetOffset,
                FieldBytes(form, DispAt(old(space.bytes), dst + cbTargetOffset, form) - (dst - src)))
      ensures extra == if Fits(form, Rebased(DispAt(old(space.bytes), dst + cbTargetOffset, form), dst - src))
                       then old(extra) else 4 - cbTargetSize
    {
      var at := dst + cbTargetOffset;
      var oldOffset := if cbTargetSize == 1 then Signed8(space.bytes[at])
                       else if cbTargetSize == 2 then Signed16(U16At(space.bytes, at))
                       else Signed32(U32At(space.bytes, at));
      pbTarget := Wrap(src + cbOp + oldOffset);
      var newOffset := Signed32(Wrap(oldOffset - (dst - src)));
      SignedMod8(oldOffset - (dst - src));
      SignedMod16(oldOffset - (dst - src));
      SignedWraps(oldOffset - (dst - src));
      if cbTargetSize == 1 {
        space.Store(at, [newOffset % 0x100]);
        if newOffset < -0x80 || newOffset > 0x7F {
          extra := 3;
        }
      } else if cbTargetSize == 2 {
        space.Store(at, Le16(newOffset % 0x1_0000));
        if newOffset < -0x8000 || newOffset > 0x7FFF {
          extra := 2;
        }
      } else {
        space.Store(at, Le32(Wrap(newOffset)));
      }
    }

    // The size computation of CopyBytes.
    method Measure(e: Entry, src: nat, ghost code: Memory) returns (nBytes: nat, cbTarget: int)
      requires src + CopiedBytes(e, operandOverride, addressOverride, code, src) <= |code| == |space.bytes|
      requires e.modOffset < FixedBytes(e, operandOverride, addressOverride)
      requires forall k :: src <= k < src + CopiedBytes(e, operandOverride, addressOverride, code, src)
                 ==> space.bytes[k] == code[k]
      ensures nBytes == CopiedBytes(e, operandOverride, addressOverride, code, src)
      ensures e.modOffset == 0 ==> cbTarget == nBytes - e.relOffset
    {
      var nBytesFixed: nat;
      if e.address {
        nBytesFixed := if addressOverride then e.fixedSize16 else e.fixedSize;
      } else {
        nBytesFixed := if operandOverride then e.fixedSize16 else e.fixedSize;
      }
      nBytes := nBytesFixed;
      cbTarget := nBytes - e.relOffset;
      if e.modOffset > 0 {
        var modRm := space.bytes[src + e.modOffset];
        var (hasSib, more) := ModRmFlags(modRm);
        nBytes := nBytes + more;
        if hasSib {
          var sib := space.bytes[src + e.modOffset + 1];
          if sib % 8 == 5 {
            if modRm < 0x40 {
              nBytes := nBytes + 4;
            } else if modRm < 0x80 {
              nBytes := nBytes + 1;
            } else if modRm < 0xC0 {
              nBytes := nBytes + 4;
            }
          }
          cbTarget := nBytes - e.relOffset;
        }
      }
    }

    method CopyBytes(e: Entry, dst: nat, src: nat, ghost code: Memory, ghost i: Insn) returns (next: nat)
      requires Ready(code, dst, src, i)
      requires Fixes(e, operandOverride, addressOverride, code, src, i)
      modifies this`target, this`extra, space
      ensures Relocated(old(space.bytes), code, dst, src, i, next)
      ensures !HasTarget(i) && !e.dynamic ==> target == old(target)
    {
      var nBytes, cbTarget := Measure(e, src, code);
      assert space.bytes[src..src + nBytes] == code[src..src + nBytes];
      space.Store(dst, space.bytes[src..src + nBytes]);
      Unmoved(code, src, i, dst - src);
      if e.relOffset != 0 {
        Retarget(e, dst, src, nBytes, cbTarget, old(space.bytes), code, i);
      }
      if e.dynamic {
        target := DynamicTarget;
      }
      return src + nBytes;
    }

    // The end of CopyBytes for an instruction with a relative target.
    method Retarget(e: Entry, dst: nat, src: nat, nBytes: nat, cbTarget: nat, ghost was: Memory, ghost code: Memory, ghost i: Insn)
      requires Placed(was, code, dst, src, i) && extra == 0
      requires space.bytes == Written(was, dst, code[src..src + i.length])
      requires HasTarget(i) && RelativeAt(code, src, 1, i.control.form, i.control.flow) == Some(i)
      requires IsShort(i.control.form) <==> i.control.flow.Count?
      requires e.noEnlarge <==> i.control.flow.Count?
      requires nBytes == i.length && e.relOffset == 1 && cbTarget == FieldSize(i.control.form)
      modifies this`target, this`extra, space
      ensures |Emitted(code, src, i, dst - src)| == i.length
      ensures space.bytes == Written(was, dst, Emitted(code, src, i, dst - src))
      ensures extra == Extra(i, dst - src) && target == At(Wrap(src + i.length + i.control.disp))
    {
      RetargetBytes(was, code, dst, src, i);
      hide Written, Emitted, Extra;
      var t := AdjustTarget(dst, src, nBytes, e.relOffset, cbTarget, i.control.form);
      target := At(t);
      if e.noEnlarge {
        extra := -extra;
      }
    }

    // A short jump becomes a near jump, E9, or a near conditional jump, 0F 8x.
    method CopyBytesJump(dst: nat, src: nat, ghost code: Memory, ghost i: Insn) returns (next: nat)
      requires Ready(code, dst, src, i)
      requires i.control.Relative? && (i.control.flow.Jump? || i.control.flow.Branch?)
      requires IsShort(i.control.form) && RelativeAt(code, src, 1, i.control.form, i.control.flow) == Some(i)
      requires i.control.flow.Jump? <==> code[src] == 0xEB
      requires i.control.flow.Branch? ==> 0x70 <= code[src] <= 0x7F && i.control.flow.cc == code[src] - 0x70
      modifies this`target, this`extra, space
      ensures Relocated(old(space.bytes), code, dst, src, i, next)
    {
      hide Emitted, EmittedLength, Extra, Written, RelativeAt;
      ShortJumpBytes(code, src, i, dst - src);
      var oldOffset := Signed8(space.bytes[src + 1]);
      target := At(Wrap(src + 2 + oldOffset));
      if space.bytes[src] == 0xEB {
        var newOffset := oldOffset - ((dst - src) + 3);
        extra := 3;
        space.Store(dst, [0xE9] + Le32(Wrap(newOffset)));
      } else {
        var newOffset := oldOffset - ((dst - src) + 4);
        extra := 4;
        space.Store(dst, [0x0F, 0x80 + space.bytes[src] % 0x10] + Le32(Wrap(newOffset)));
      }
      return src + 2;
    }

    // The call through pEntry->pfCopy for an entry of the one-byte table.
    method Dispatch(e: Entry, dst: nat, src: nat, ghost code: Memory, ghost p: Prefixes, ghost i: Insn)
      returns (next: nat)
      requires ReadyFor(code, dst, src, ReadAs(code, src, p, i), i) && Flags(p)
      requires Decode(code, src, p) == Some(i)
      requires e == CopyTable(code[src])
      modifies this, space
      ensures Copied(old(space.bytes), code, dst, src, ReadAs(code, src, p, i), next)
      decreases |code| - src, 2
    {
      hide Decode, Written, CopyTable, Relocated, Remeasured;
      Handlers(code[src]);
      var h := e.handler;
      if h in {OnPrefix, OnSegment, On66, On67, OnF2, OnF3} {
        next := NotePrefix(h, dst, src, code, p, i);
      } else if h == On0F {
        next := Copy0F(dst, src, code, p, i);
      } else if h in {OnVex2, OnVex3, OnEvex, OnXop} {
        next := CopyVector(h, dst, src, code, p, i);
      } else {
        PlainReading(code, src, p, i);
        next := CopyOneByte(e, dst, src, code, p, i);
      }
    }

    // CopyBytesSegment, Copy66, Copy67, CopyF2 and CopyF3 record the prefix they go past.
    method NotePrefix(h: Handler, dst: nat, src: nat, ghost code: Memory, ghost p: Prefixes, ghost i: Insn)
      returns (next: nat)
      requires ReadyFor(code, dst, src, ReadAs(code, src, p, i), i) && Flags(p) && IsPrefix(code[src])
      requires Decode(code, src, p) == Some(i)
      requires h == HandlerOf(code[src])
      modifies this, space
      ensures Copied(old(space.bytes), code, dst, src, ReadAs(code, src, p, i), next)
      decreases |code| - src, 1
    {
      hide Decode, Written, Copied, ReadAs;
      match h {
        case OnSegment => segmentOverride := space.bytes[src];
        case On66 => operandOverride := true;
        case On67 => addressOverride := true;
        case OnF2 => f2 := true;
        case OnF3 => f3 := true;
        case _ =>
      }
      next := CopyBytesPrefix(dst, src, code, p, i);
    }

    // ModR/M is measured as that of a 32-bit address in any case.
    method CopyOneByte(e: Entry, dst: nat, src: nat, ghost code: Memory, ghost p: Prefixes, ghost i: Insn)
      returns (next: nat)
      requires Ready(code, dst, src, Remeasured(code, src + 1, i)) && Flags(p)
      requires !IsPrefix(code[src]) && code[src] != 0x0F
      requires DecodeOneByte(code, src, p) == Some(i)
      requires e == CopyTable(code[src]) && e.handler == HandlerOf(code[src])
      requires e.handler !in {OnVex2, OnVex3, OnEvex, OnXop}
      modifies this, space
      ensures Relocated(old(space.bytes), code, dst, src, Remeasured(code, src + 1, i), next)
    {
      hide Written, Relocated, Fixes, ExtraBytes;
      if e.handler == OnJump {
        next := CopyBytesJump(dst, src, code, i);
      } else if e.handler == OnF6 {
        next := CopyF6(dst, src, code, p, i);
      } else if e.handler == OnF7 {
        next := CopyF7(dst, src, code, p, i);
      } else if e.handler == OnFF {
        next := CopyFF(dst, src, code, p, i);
      } else {
        OneByteFixes(code, src, p, i);
        next := CopyBytes(e, dst, src, code, Remeasured(code, src + 1, i));
      }
    }

    // LES, LDS, BOUND and POP share their opcodes with VEX, EVEX and XOP.
    method CopyVector(h: Handler, dst: nat, src: nat, ghost code: Memory, ghost p: Prefixes, ghost i: Insn)
      returns (next: nat)
      requires ReadyFor(code, dst, src, ReadAs(code, src, p, i), i) && Flags(p)
      requires Decode(code, src, p) == Some(i)
      requires h == HandlerOf(code[src])
      requires h in {OnVex2, OnVex3, OnEvex, OnXop}
      modifies this, space
      ensures Copied(old(space.bytes), code, dst, src, ReadAs(code, src, p, i), next)
    {
      hide Decode, DecodeTwoByte, DecodeOneByte, DecodeVector, Written, Fixes, Relocated, ReadOpcode, ReadAs, Remeasured;
      if h == OnXop {
        next := CopyXop(dst, src, code, p, i);
        return;
      }
      VectorCases(code, src, p, i);
      var b := space.bytes[src + 1];
      if b / 0x40 != 3 {
        next := CopyBytes(BYTES_2_MOD, dst, src, code, Remeasured(code, src + 1, i));
      } else if h == OnVex2 {
        vex := true;
        next := CopyVexPrefix(2, 1, dst, src, code, p, i);
      } else if h == OnVex3 {
        vex := true;
        next := CopyVexPrefix(3, b % 0x20, dst, src, code, p, i);
      } else {
        next := CopyEvex(dst, src, code, p, i);
      }
    }

    method CopyXop(dst: nat, src: nat, ghost code: Memory, ghost p: Prefixes, ghost i: Insn) returns (next: nat)
      requires Decode(code, src, p) == Some(i) && code[src] == 0x8F
      requires ReadyFor(code, dst, src, ReadAs(code, src, p, i), i) && Flags(p)
      modifies this, space
      ensures Copied(old(space.bytes), code, dst, src, ReadAs(code, src, p, i), next)
    {
      hide Decode, Fixes, XopEntry, Relocated, Remeasured, ModRmAt, ReadAs;
      XopEntryFixes(code, src, p, i);
      var e := XopEntry(space.bytes[src + 1]);
      next := CopyBytes(e, dst, src, code, Remeasured(code, ModRmAt(code, src), i));
    }

    // The n prefix bytes of VEX, the last of which holds the implied prefix.
    method CopyVexPrefix(n: nat, map_: Byte, dst: nat, src: nat, ghost code: Memory, ghost p: Prefixes, ghost i: Insn)
      returns (next: nat)
      requires src + 1 < |code| && code[src] in {0xC4, 0xC5} && code[src + 1] / 0x40 == 3 && n == VectorHead(code[src])
      requires ReadyFor(code, dst, src, ReadAs(code, src, p, i), i) && Flags(p)
      requires Longer(DecodeVector(code, src + n, p, map_, false), n) == Some(i)
      modifies this, space
      ensures Copied(old(space.bytes), code, dst, src, ReadAs(code, src, p, i), next)
    {
      hide DecodeVector, Written, ReadAs, VectorReading, Copied;
      assert src + n < |code| by {
        VectorOpcode(code, src + n, p, map_, false, i.(length := i.length - n));
      }
      var payload := space.bytes[src + n - 1];
      ghost var was, j := space.bytes, i.(length := i.length - n);
      HeadReading(code, src, p, n, map_, payload, i);
      ghost var r := VectorReading(code, src + n, map_, false, SizeFlags(p, payload), j);
      CopyHeadOf(dst, src, n, code, r, j);
      next := CopyVexEvexCommon(map_, false, dst + n, src + n, code, p, payload, j);
      CopiedWithHead(was, code, dst, src, n, r, j, next);
    }

    method CopyEvex(dst: nat, src: nat, ghost code: Memory, ghost p: Prefixes, ghost i: Insn) returns (next: nat)
      requires ReadyFor(code, dst, src, ReadAs(code, src, p, i), i) && Flags(p) && src + 4 <= |code| && code[src] == 0x62
      requires code[src + 1] / 0x40 == 3 && code[src + 1] / 8 % 2 == 0 && code[src + 2] / 4 % 2 == 1
      requires Longer(DecodeVector(code, src + 4, p, code[src + 1] % 8, true), 4) == Some(i)
      modifies this, space
      ensures Copied(old(space.bytes), code, dst, src, ReadAs(code, src, p, i), next)
    {
      hide DecodeVector, Written, ReadAs, VectorReading, Copied;
      HeadReading(code, src, p, 4, code[src + 1] % 8, code[src + 2], i);
      var p0, p1 := space.bytes[src + 1], space.bytes[src + 2];
      ghost var was, j := space.bytes, i.(length := i.length - 4);
      ghost var r := VectorReading(code, src + 4, p0 % 8, true, SizeFlags(p, p1), j);
      CopyHeadOf(dst, src, 4, code, r, j);
      evex := true;
      next := CopyVexEvexCommon(p0 % 8, true, dst + 4, src + 4, code, p, p1, j);
      CopiedWithHead(was, code, dst, src, 4, r, j, next);
    }

    // Notes the implied prefix and goes on in the selected opcode map.
    method CopyVexEvexCommon(map_: Byte, isEvex: bool, dst: nat, src: nat, ghost code: Memory, ghost q: Prefixes, payload: Byte, ghost i: Insn)
      returns (next: nat)
      requires Flags(q) && src < |code| && payload < 0x100
      requires ReadyFor(code, dst, src, VectorReading(code, src, map_, isEvex, SizeFlags(q, payload), i), i)
      requires DecodeVector(code, src, q, map_, isEvex) == Some(i)
      modifies this, space
      ensures Copied(old(space.bytes), code, dst, src, VectorReading(code, src, map_, isEvex, SizeFlags(q, payload), i), next)
    {
      NotePayload(payload);
      hide DecodeVector, CopyTable0F, Written, Relocated, Fixes, VectorReading, Placed, Emitted;
      CommonReading(Prefixes(operandOverride, addressOverride, f2, f3), code, src, q, map_, isEvex, i);
      var op := space.bytes[src];
      var e := if map_ == 1 then CopyTable0F(op) else if map_ == 3 then BYTES_2_MOD_1 else BYTES_2_MOD;
      if e.handler == OnInvalid {
        assert code[src..src + 0] == [];
        NothingWritten(space.bytes, dst);
        return src + 1;
      }
      if e.handler == On0F78 {
        e := if f2 || operandOverride then BYTES_4 else BYTES_2_MOD;
      }
      ghost var r := VectorReading(code, src, map_, isEvex, SizeFlags(q, payload), i);
      next := CopyBytes(e, dst, src, code, r.insn);
    }

    // The implied prefix.
    method NotePayload(payload: Byte)
      modifies this`operandOverride, this`f2, this`f3
      ensures operandOverride == (old(operandOverride) || payload % 4 == 1)
      ensures f3 == (old(f3) || payload % 4 == 2)
      ensures f2 == (old(f2) || payload % 4 == 3)
    {
      match payload % 4 {
        case 1 => operandOverride := true;
        case 2 => f3 := true;
        case 3 => f2 := true;
        case _ =>
      }
    }

    // Copies the n bytes before the next table is consulted; j is the instruction they leave.
    method CopyHead(dst: nat, src: nat, n: nat, ghost code: Memory, ghost i: Insn, ghost j: Insn)
      requires Ready(code, dst, src, i) && i == j.(length := j.length + n) && WellFormed(j)
      modifies space
      ensures space.bytes == Written(old(space.bytes), dst, code[src..src + n])
      ensures Ready(code, dst + n, src + n, j)
    {
      PlacedAfterHead(space.bytes, code, dst, src, n, i, j);
      space.Store(dst, space.bytes[src..src + n]);
    }

    // The same for what is read there.
    method CopyHeadOf(dst: nat, src: nat, n: nat, ghost code: Memory, ghost r: Reading, ghost j: Insn)
      requires ReadyFor(code, dst, src, LongerReading(r, n), j.(length := j.length + n)) && WellFormed(if r.Whole? then r.insn else j)
      modifies space
      ensures space.bytes == Written(old(space.bytes), dst, code[src..src + n])
      ensures ReadyFor(code, dst + n, src + n, r, j)
      ensures src + n < |code| == |space.bytes| && space.bytes[src + n] == code[src + n]
    {
      ghost var x := if r.Whole? then r.insn else j;
      CopyHead(dst, src, n, code, x.(length := x.length + n), x);
    }

    lemma {:induction false} CopiedWithHead(was: Memory, code: Memory, dst: nat, src: nat, n: nat, r: Reading, j: Insn, next: nat)
      requires PlacedFor(was, code, dst, src, LongerReading(r, n), j.(length := j.length + n))
      requires WellFormed(if r.Whole? then r.insn else j)
      requires Copied(Written(was, dst, code[src..src + n]), code, dst + n, src + n, r, next)
      ensures Copied(was, code, dst, src, LongerReading(r, n), next)
    {
      hide Emitted, Written, Placed, HasTarget;
      match r {
        case Whole(x) => RelocatedWithHead(was, code, dst, src, n, x.(length := x.length + n), x, next);
        case HeadOnly(k) =>
          WrittenTwice(was, dst, code[src..src + n], code[src + n..src + n + k]);
          assert code[src..src + n] + code[src + n..src + n + k] == code[src..src + n + k];
      }
    }

    // The prefix is noted in the flags already; p is what stood before it.
    method CopyBytesPrefix(dst: nat, src: nat, ghost code: Memory, ghost p: Prefixes, ghost i: Insn)
      returns (next: nat)
      requires ReadyFor(code, dst, src, ReadAs(code, src, p, i), i) && IsPrefix(code[src]) && Flags(Note(p, code[src]))
      requires Decode(code, src, p) == Some(i)
      modifies this, space
      ensures Copied(old(space.bytes), code, dst, src, ReadAs(code, src, p, i), next)
      decreases |code| - src, 0
    {
      hide DecodeTwoByte, DecodeOneByte, DecodeVectorPrefix, IsVector, CopyTable, Written, Remeasured, PlacedFor, Copied;
      ghost var was, j := space.bytes, i.(length := i.length - 1);
      ghost var r := ReadAs(code, src + 1, Note(p, code[src]), j);
      ReadIsWellFormed(code, src + 1, Note(p, code[src]), j);
      CopyHeadOf(dst, src, 1, code, r, j);
      next := Dispatch(CopyTable(space.bytes[src + 1]), dst + 1, src + 1, code, Note(p, code[src]), j);
      CopiedWithHead(was, code, dst, src, 1, r, j, next);
    }

    // The bytes copied in front and the relocated rest are the relocated whole.
    lemma {:induction false} RelocatedWithHead(was: Memory, code: Memory, dst: nat, src: nat, n: nat, i: Insn, j: Insn, next: nat)
      requires Placed(was, code, dst, src, i) && i == j.(length := j.length + n) && WellFormed(j)
      requires Relocated(Written(was, dst, code[src..src + n]), code, dst + n, src + n, j, next)
      ensures Relocated(was, code, dst, src, i, next)
    {
      WrittenWithHead(was, code, dst, src, n, i, j);
    }

    // TEST has an immediate, the rest of groups F6 and F7 has none.
    method CopyF6(dst: nat, src: nat, ghost code: Memory, ghost p: Prefixes, ghost i: Insn) returns (next: nat)
      requires Ready(code, dst, src, Remeasured(code, src + 1, i)) && Flags(p) && code[src] == 0xF6
      requires DecodeOneByte(code, src, p) == Some(i)
      modifies this, space
      ensures Relocated(old(space.bytes), code, dst, src, Remeasured(code, src + 1, i), next)
    {
      hide Remeasured;
      GroupLength(code, src, p, i);
      OneByteFixes(code, src, p, i);
      var e := if space.bytes[src + 1] / 8 % 8 == 0 then BYTES_2_MOD_1 else BYTES_2_MOD;
      next := CopyBytes(e, dst, src, code, Remeasured(code, src + 1, i));
    }

    method CopyF7(dst: nat, src: nat, ghost code: Memory, ghost p: Prefixes, ghost i: Insn) returns (next: nat)
      requires Ready(code, dst, src, Remeasured(code, src + 1, i)) && Flags(p) && code[src] == 0xF7
      requires DecodeOneByte(code, src, p) == Some(i)
      modifies this, space
      ensures Relocated(old(space.bytes), code, dst, src, Remeasured(code, src + 1, i), next)
    {
      hide Remeasured;
      GroupLength(code, src, p, i);
      OneByteFixes(code, src, p, i);
      var e := if space.bytes[src + 1] / 8 % 8 == 0 then BYTES_2_MOD_OPERAND else BYTES_2_MOD;
      next := CopyBytes(e, dst, src, code, Remeasured(code, src + 1, i));
    }

    // What is reported of an indirect call or jump: where it goes if that stands at an absolute address and no segment
    // but CS is noted, and else that it is not known. References are not limited to a module.
    ghost predicate Reports(m: Memory, src: nat, was: CodeTarget)
      requires src + 1 < |m|
      reads this`target, this`segmentOverride
    {
      var b := m[src + 1];
      if Reg(b) in {2, 4} && Mod(b) == 0 && Rm(b) == 5 then
        if segmentOverride !in {0, 0x2E} then target == DynamicTarget
        else src + 6 <= |m| && (U32At(m, src + 2) + 4 <= |m| ==> target == At(U32At(m, U32At(m, src + 2))))
      else if 2 <= Reg(b) <= 5 then target == DynamicTarget
      else target == was
    }

    method CopyFF(dst: nat, src: nat, ghost code: Memory, ghost p: Prefixes, ghost i: Insn) returns (next: nat)
      requires Ready(code, dst, src, Remeasured(code, src + 1, i)) && Flags(p) && code[src] == 0xFF
      requires DecodeOneByte(code, src, p) == Some(i)
      modifies this, space
      ensures Relocated(old(space.bytes), code, dst, src, Remeasured(code, src + 1, i), next)
      ensures src + 1 < |space.bytes| && Reports(space.bytes, src, old(target))
    {
      hide Fixes, Written, Emitted, Extra, DecodeOneByte, Remeasured;
      GroupLength(code, src, p, i);
      OneByteFixes(code, src, p, i);
      ghost var j := Remeasured(code, src + 1, i);
      SourceStays(space.bytes, code, dst, src, j);
      next := CopyBytes(BYTES_2_MOD, dst, src, code, j);
      NoteIndirect(src);
    }

    method NoteIndirect(src: nat)
      requires src + 1 < |space.bytes|
      requires Mod(space.bytes[src + 1]) == 0 && Rm(space.bytes[src + 1]) == 5 ==> src + 6 <= |space.bytes|
      modifies this`target
      ensures Reports(space.bytes, src, old(target))
    {
      hide U32At, Mod, Reg, Rm;
      GroupOf(space.bytes[src + 1]);
      var b1 := space.bytes[src + 1];
      if b1 in {0x15, 0x25} {
        if segmentOverride in {0, 0x2E} {
          var ppbTarget := U32At(space.bytes, src + 2);
          if ppbTarget + 4 <= |space.bytes| {
            target := At(U32At(space.bytes, ppbTarget));
          }
        } else {
          target := DynamicTarget;
        }
      } else if b1 / 0x10 % 4 in {1, 2} {
        target := DynamicTarget;
      }
    }

    method Copy0F(dst: nat, src: nat, ghost code: Memory, ghost p: Prefixes, ghost i: Insn) returns (next: nat)
      requires ReadyFor(code, dst, src, ReadAs(code, src, p, i), i) && Flags(p) && code[src] == 0x0F
      requires Decode(code, src, p) == Some(i)
      modifies this, space
      ensures Copied(old(space.bytes), code, dst, src, ReadAs(code, src, p, i), next)
    {
      hide DecodeTwoByte, DecodeOneByte, DecodeVectorPrefix, IsVector, CopyTable0F, Written, PlacedFor, Relocated, Remeasured;
      ghost var was, j := space.bytes, i.(length := i.length - 1);
      ghost var r := TwoByteReading(code, src + 1, j);
      TwoByteRead(code, src, p, i);
      CopyHeadOf(dst, src, 1, code, r, j);
      next := Dispatch0F(CopyTable0F(space.bytes[src + 1]), dst + 1, src + 1, code, p, j);
      CopiedWithHead(was, code, dst, src, 1, r, j, next);
    }

    // The call through pEntry->pfCopy for an entry of the 0F table, with Copy0F00 (SLDT and the like,
    // or JMPE), Copy0F78 (VMREAD, EXTRQ, INSERTQ) and Copy0FB8 (POPCNT or JMPE).
    method Dispatch0F(e: Entry, dst: nat, src: nat, ghost code: Memory, ghost p: Prefixes, ghost i: Insn)
      returns (next: nat)
      requires src < |code| && ReadyFor(code, dst, src, TwoByteReading(code, src, i), i) && Flags(p)
      requires DecodeTwoByte(code, src, p) == Some(i)
      requires e == CopyTable0F(code[src])
      modifies this, space
      ensures Copied(old(space.bytes), code, dst, src, TwoByteReading(code, src, i), next)
    {
      hide Remeasured, ModRmAt0F;
      Handlers0F(code[src]);
      if e.handler == OnInvalid {
        assert code[src..src + 0] == [];
        NothingWritten(space.bytes, dst);
        return src + 1;
      }
      TwoByteFixes(code, src, p, i);
      var measuring := e;
      match e.handler {
        case On0F00 => measuring := if space.bytes[src + 1] / 8 % 8 == 6 then Dynamic(BYTES_2_MOD) else BYTES_2_MOD;
        case On0F78 => measuring := if f2 || operandOverride then BYTES_4 else BYTES_2_MOD;
        case On0FB8 => measuring := if f3 then BYTES_2_MOD else Dynamic(BYTES_3_OR_5);
        case _ =>
      }
      next := CopyBytes(measuring, dst, src, code, Remeasured(code, ModRmAt0F(code, src), i));
    }
  }

  // How 0F and what follows are read.
  lemma {:induction false} TwoByteRead(code: Memory, src: nat, p: Prefixes, i: Insn)
    requires Decode(code, src, p) == Some(i) && code[src] == 0x0F
    ensures src + 1 < |code| && 1 <= i.length
    ensures
      var r := TwoByteReading(code, src + 1, i.(length := i.length - 1));
      ReadAs(code, src, p, i) == LongerReading(r, 1) && (r.Whole? ==> WellFormed(r.insn))
  {
    hide DecodeTwoByte, DecodeOneByte, DecodeVectorPrefix, IsVector, Remeasured;
    var j := i.(length := i.length - 1);
    TwoByteModRm(code, src + 1, p, j);
    RemeasuredLonger(code, ModRmAt0F(code, src + 1), j, 1);
    if !IsUd(code[src + 1]) {
      TwoByteFixes(code, src + 1, p, j);
    }
  }

  // The instruction that is copied stays readable.
  lemma {:induction false} SourceStays(m: Memory, code: Memory, dst: nat, src: nat, i: Insn)
    requires Placed(m, code, dst, src, i)
    ensures
      var e := Emitted(code, src, i, dst - src);
      src + i.length <= |m| && dst + |e| <= |m| && forall k :: src <= k < src + i.length ==> Written(m, dst, e)[k] == code[k]
  {
    EmittedHasLength(code, src, i, dst - src);
  }

  // CALL and JMP are /2 to /5 of the group, and 15 and 25 those through an absolute address.
  lemma {:induction false} GroupOf(b: Byte)
    ensures b in {0x15, 0x25} <==> Reg(b) in {2, 4} && Mod(b) == 0 && Rm(b) == 5
    ensures b / 0x10 % 4 in {1, 2} <==> 2 <= Reg(b) <= 5
  {
    var q: int := b / 8;
    assert b == 8 * q + Rm(b) && q == 8 * (q / 8) + Reg(b) && Mod(b) == q / 8;
    assert b / 0x10 == q / 2 && q / 2 % 4 == Reg(b) / 2;
  }

  // Groups F6, F7 and FF.
  lemma {:induction false} GroupLength(code: Memory, src: nat, p: Prefixes, i: Insn)
    requires src < |code| && code[src] in {0xF6, 0xF7, 0xFF} && DecodeOneByte(code, src, p) == Some(i)
    ensures
      var j := Remeasured(code, src + 1, i);
      && !HasTarget(j) && 2 <= j.length && src + 1 < |code|
      && (Mod(code[src + 1]) == 0 && Rm(code[src + 1]) == 5 ==> 6 <= j.length)
  {
  }

  lemma {:induction false} NothingWritten(m: Memory, a: nat)
    requires a <= |m|
    ensures Written(m, a, []) == m
  {
  }

  lemma {:induction false} Unmoved(code: Memory, src: nat, i: Insn, delta: int)
    requires WellFormed(i) && src + i.length <= |code|
    ensures !HasTarget(i) ==> Emitted(code, src, i, delta) == code[src..src + i.length] && Extra(i, delta) == 0
  {
  }

  // Copying a relative instruction and rewriting its field emits its relocated form.
  lemma {:induction false} RetargetBytes(m: Memory, code: Memory, dst: nat, src: nat, i: Insn)
    requires HasTarget(i) && Placed(m, code, dst, src, i)
    requires RelativeAt(code, src, 1, i.control.form, i.control.flow) == Some(i)
    requires IsShort(i.control.form) <==> i.control.flow.Count?
    ensures var copied := Written(m, dst, code[src..src + i.length]);
      && DispAt(copied, dst + 1, i.control.form) == i.control.disp
      && Written(copied, dst + 1, FieldBytes(i.control.form, i.control.disp - (dst - src)))
         == Written(m, dst, Emitted(code, src, i, dst - src))
    ensures |Emitted(code, src, i, dst - src)| == i.length
    ensures var x := if Fits(i.control.form, Rebased(i.control.disp, dst - src)) then 0 else 4 - FieldSize(i.control.form);
            Extra(i, dst - src) == if i.control.flow.Count? then -x else x
  {
    var s := code[src..src + i.length];
    var copied := Written(m, dst, s);
    assert copied[dst + 1] == s[1] == code[src + 1];
    if i.length > 2 {
      assert copied[dst + 2] == s[2] == code[src + 2];
    }
    if i.length > 3 {
      assert copied[dst + 3] == s[3] == code[src + 3];
      assert copied[dst + 4] == s[4] == code[src + 4];
    }
    var field := FieldBytes(i.control.form, i.control.disp - (dst - src));
    Overwritten(m, dst, s, field);
    assert Emitted(code, src, i, dst - src) == [s[0]] + field;
  }

  lemma {:induction false} Overwritten(m: Memory, a: nat, s: seq<Byte>, t: seq<Byte>)
    requires |s| == 1 + |t| && a + |s| <= |m|
    ensures Written(Written(m, a, s), a + 1, t) == Written(m, a, [s[0]] + t)
  {
  }

  lemma {:induction false} ShortJumpBytes(code: Memory, src: nat, i: Insn, delta: int)
    requires i.control.Relative? && (i.control.flow.Jump? || i.control.flow.Branch?)
    requires IsShort(i.control.form) && RelativeAt(code, src, 1, i.control.form, i.control.flow) == Some(i)
    requires i.control.flow.Branch? ==> 0x70 <= code[src] && i.control.flow.cc == code[src] - 0x70
    ensures i.length == 2 && i.control.disp == Signed8(code[src + 1])
    ensures EmittedLength(i) == |Emitted(code, src, i, delta)| == 2 + Extra(i, delta)
    ensures Extra(i, delta) == if i.control.flow.Jump? then 3 else 4
    ensures i.control.flow.Jump? ==>
              Emitted(code, src, i, delta) == [0xE9] + Le32(Wrap(Signed8(code[src + 1]) - (delta + 3)))
    ensures i.control.flow.Branch? ==>
              Emitted(code, src, i, delta)
              == [0x0F, 0x80 + code[src] % 0x10] + Le32(Wrap(Signed8(code[src + 1]) - (delta + 4)))
  {
    assert code[src..src] == [];
  }
}
