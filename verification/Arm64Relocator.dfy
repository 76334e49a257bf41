/** The ARM64 relocator: one branch becomes one to six instructions that go to the same place. */
module Arm64Relocator {
  import opened Words
  import opened Arm64
  import opened Arm64Literals
  import opened Arm64Moves

  // Where the branch at src goes when it is taken.
  function TargetOf(i: Insn, src: Word64): Word64
    requires IsBranch(i)
  {
    Wrap64(src + i.offset)
  }

  function Delta(i: Insn, src: Word64, dst: int): int
    requires IsBranch(i)
  {
    Signed64(Wrap64(TargetOf(i, src) - dst))
  }

  // The same branch with another displacement, and the branch taken exactly when it is not.
  function Redirected(i: Insn, offset: int): Insn
    requires IsBranch(i)
  {
    i.(offset := offset)
  }

  function Inverted(i: Insn): Insn
    requires IsBranch(i)
  {
    match i
    case BranchIf(cond, offset) => BranchIf(if cond % 2 == 0 then cond + 1 else cond - 1, offset)
    case CompareBranch(wide, nonzero, rt, offset) => CompareBranch(wide, !nonzero, rt, offset)
    case TestBranch(bit, nonzero, rt, offset) => TestBranch(bit, !nonzero, rt, offset)
    case _ => i
  }

  datatype Form = Near | Skip | Far

  // How far the branch reaches as it is; B and BL reach as far as the second instruction of a skip.
  function Reach(i: Insn): int
    requires IsBranch(i)
  {
    if i.Branch? then 0x800_0000 else if i.TestBranch? then 0x2000 else 0x10_0000
  }

  function FormOf(i: Insn, src: Word64, dst: Word64): Form
    requires IsBranch(i)
  {
    if -Reach(i) <= Delta(i, src, dst) < Reach(i) then Near
    else if !i.Branch? && -0x800_0000 <= Delta(i, src, dst + 4) < 0x800_0000 then Skip
    else Far
  }

  // The block is the copy of i in the given form.
  ghost predicate IsCopy(i: Insn, src: Word64, dst: Word64, form: Form, block: seq<Word>, moves: seq<Word>)
    requires IsBranch(i)
  {
    match form
    case Near => moves == [] && |block| == 1 && Decode(block[0]) == Redirected(i, Delta(i, src, dst))
    case Skip =>
      && moves == [] && |block| == 2
      && Decode(block[0]) == Redirected(Inverted(i), 8) && Decode(block[1]) == Branch(false, Delta(i, src, dst + 4))
    case Far =>
      var n := |moves|;
      && Loads(moves, 17, TargetOf(i, src)) && 1 <= n <= 4 && |block| == n + (if i.Branch? then 1 else 2) && block[..n] == moves
      && (if i.Branch? then Decode(block[n]) == BranchTo(i.link, 17)
          else Decode(block[n]) == Redirected(Inverted(i), 8) && Decode(block[n + 1]) == BranchTo(false, 17))
  }

  // What running the copy must arrive at: the original's target if the original branch is taken, or else
  // the instruction behind the copy; with the same registers, but for X17 in the far form, and for the
  // link register of a call, which holds the address behind the copy.
  function CopyResult(i: Insn, src: Word64, dst: Word64, form: Form, length: nat, s: State): State
    requires IsBranch(i)
  {
    var t := if form.Far? then s.(x := s.x[17 := TargetOf(i, src)]) else s;
    var u := if i.Branch? && i.link then WriteTo(t, 30, Wrap64(dst + 4 * length)) else t;
    u.(pc := if IsTaken(i, s) then TargetOf(i, src) else Wrap64(dst + 4 * length))
  }

  ghost predicate Copies(i: Insn, src: Word64, dst: Word64, form: Form, block: seq<Word>, s: State)
    requires IsBranch(i)
  {
    exists n :: 1 <= n <= |block| && Steps(block, dst, s.(pc := dst), n) == Some(CopyResult(i, src, dst, form, |block|, s))
  }

  // The branches whose copy is right: a condition that has an opposite, and another register than X17.
  predicate Relocatable(i: Insn, form: Form)
    requires IsBranch(i)
  {
    match i
    case BranchIf(cond, _) => form.Near? || cond < 14
    case CompareBranch(_, _, rt, _) => !form.Far? || rt != 17
    case TestBranch(_, _, rt, _) => !form.Far? || rt != 17
    case _ => true
  }

  /** CDetourDis of the ARM64 configuration: pDstInst is the end of what has been emitted. */
  class CDetourDis {
    var emitted: seq<Word>
    var target: Word64              // m_pbTarget

    method EmitInstruction(instruction: Word)
      modifies this`emitted
      ensures emitted == old(emitted) + [instruction]
    {
      emitted := emitted + [instruction];
    }

    /**
     EmitMovImmediate: one to four moves that leave exactly the value in the register, the fewest that
     these instructions allow by skipping half-words of all zeros or all ones.
     */
    method EmitMovImmediate(rd: Reg, immediate: Word64) returns (bytes: nat, ghost moves: seq<Word>)
      modifies this`emitted
      ensures emitted == old(emitted) + moves && Loads(moves, rd, immediate)
      ensures bytes == 4 * |moves| && 1 <= |moves| == MovCount(immediate) <= 4
    {
      hide Decode, Loads, Composed, HalfWord, Moved, Different, Inverted32;
      var piece := [HalfWord(immediate, 0), HalfWord(immediate, 1), HalfWord(immediate, 2), HalfWord(immediate, 3)];
      HalfWordsAreSmall(immediate);
      HalfWordsOf(immediate);
      ghost var before := emitted;
      if piece[3] == 0 && piece[2] == 0 && piece[1] == 0xffff {
        var w := AssembleMov(0, 0, rd, 0xffff - piece[0], 0);
        MovDecodes(0, 0, rd, 0xffff - piece[0], 0);
        NarrowMove(immediate);
        LoadsFirst(w, rd, false, MovN, 0xffff - piece[0], 0, immediate);
        EmitInstruction(w);
        return 4, [w];
      }
      var zeroPieces := Matching(immediate, 0);
      var ffffPieces := Matching(immediate, 0xffff);
      var defaultPiece := if ffffPieces > zeroPieces then 0xffff else 0;
      DifferentIs(immediate, 0);
      DifferentIs(immediate, 0xffff);
      ComposedEnds(immediate, defaultPiece);
      moves := [];
      var first := true;
      var count := 0;
      var pieceNum := 4;
      NoneDifferent(immediate, defaultPiece);
      while pieceNum > 0
        invariant 0 <= pieceNum <= 4 && emitted == before + moves && count == |moves|
        invariant first <==> moves == []
        invariant first ==> Composed(immediate, defaultPiece, pieceNum) == Composed(immediate, defaultPiece, 4)
        invariant !first ==> Loads(moves, rd, Composed(immediate, defaultPiece, pieceNum))
        invariant pieceNum > 0 ==> count == Different(immediate, defaultPiece, pieceNum)
        invariant pieceNum == 0 ==> count == Max(1, Different(immediate, defaultPiece, 0))
      {
        pieceNum := pieceNum - 1;
        var curPiece := piece[pieceNum];
        OneMoreDifferent(immediate, defaultPiece, pieceNum);
        if curPiece != defaultPiece || (pieceNum == 0 && first) {
          count := count + 1;
          var w: Word;
          if first {
            FirstMove(immediate, defaultPiece, pieceNum);
            if defaultPiece == 0xffff {
              w := AssembleMov(1, 0, rd, 0xffff - curPiece, pieceNum);
              MovDecodes(1, 0, rd, 0xffff - curPiece, pieceNum);
              LoadsFirst(w, rd, true, MovN, 0xffff - curPiece, pieceNum, Composed(immediate, defaultPiece, pieceNum));
            } else {
              w := AssembleMov(1, 2, rd, curPiece, pieceNum);
              MovDecodes(1, 2, rd, curPiece, pieceNum);
              LoadsFirst(w, rd, true, MovZ, curPiece, pieceNum, Composed(immediate, defaultPiece, pieceNum));
            }
            assert moves + [w] == [w];
            first := false;
          } else {
            w := AssembleMov(1, 3, rd, curPiece, pieceNum);
            MovDecodes(1, 3, rd, curPiece, pieceNum);
            NextMove(immediate, defaultPiece, pieceNum);
            LoadsNext(moves, w, rd, curPiece, pieceNum, Composed(immediate, defaultPiece, pieceNum + 1),
                      Composed(immediate, defaultPiece, pieceNum));
          }
          EmitInstruction(w);
          moves := moves + [w];
        } else {
          NoMove(immediate, defaultPiece, pieceNum);
        }
      }
      bytes := count * 4;
    }

    // The last of a far copy: X17 holds the target.
    method LoadTarget(pTarget: Word64) returns (ghost moves: seq<Word>)
      modifies this`emitted
      ensures emitted == old(emitted) + moves && Loads(moves, 17, pTarget) && 1 <= |moves| <= 4
    {
      hide Loads, MovCount;
      var bytes;
      bytes, moves := EmitMovImmediate(17, pTarget);
    }

    /**
     CopyBcc, CopyB_or_Bl, CopyCbz and CopyTbz append a copy of the branch in the nearest form that reaches
     the target, and report that. The copy is right in every state if and only if the branch is
     relocatable in this form.
     */
    method CopyBcc(pSource: Word64, pDest: Word64, instruction: Word) returns (bytes: nat, ghost block: seq<Word>)
      requires Decode(instruction).BranchIf? && Placed(pSource, pDest)
      modifies this
      ensures Copied(Decode(instruction), pSource, pDest, old(emitted), emitted, target, bytes, block)
    {
      hide Decode, Loads, Copied, Delta, Signed64, SignedField, Field, Wrap64, AssembleBcc;
      ghost var i, before := Decode(instruction), emitted;
      BccFields(instruction);
      var condition := Field(instruction, 1, 0x10);
      var pTarget := Wrap64(pSource + 4 * SignedField(instruction, 0x20, 0x8_0000));
      target := pTarget;
      var delta := Signed64(Wrap64(pTarget - pDest));
      var delta4 := Signed64(Wrap64(pTarget - (pDest + 4)));
      DeltasAre(i, pSource, pDest, delta, delta4);
      if -0x10_0000 <= delta < 0x10_0000 {
        var w := AssembleBcc(condition, delta);
        BccDecodes(condition, delta);
        EmitInstruction(w);
        NearCopied(i, pSource, pDest, before, w);
        return 4, [w];
      }
      var w := AssembleBcc(if condition % 2 == 0 then condition + 1 else condition - 1, 8);
      BccDecodes(if condition % 2 == 0 then condition + 1 else condition - 1, 8);
      bytes, block := EmitLongForm(i, pSource, pDest, pTarget, delta4, w);
    }

    // The two longer forms of a conditional branch, w being the inverted branch over the next instruction.
    method EmitLongForm(ghost i: Insn, ghost pSource: Word64, ghost pDest: Word64, pTarget: Word64, delta4: int, w: Word)
      returns (bytes: nat, ghost block: seq<Word>)
      requires IsBranch(i) && !i.Branch? && Sensible(i) && pDest + 24 <= TWO64 && !FormOf(i, pSource, pDest).Near?
      requires pTarget == target == TargetOf(i, pSource) && delta4 == Delta(i, pSource, pDest + 4) && delta4 % 4 == 0
      requires Decode(w) == Redirected(Inverted(i), 8)
      modifies this`emitted
      ensures Copied(i, pSource, pDest, old(emitted), emitted, target, bytes, block)
    {
      hide Decode, Loads, Copied, Delta, TargetOf;
      ghost var before := emitted;
      if -0x800_0000 <= delta4 < 0x800_0000 {
        var b := AssembleB(false, delta4);
        BDecodes(false, delta4);
        EmitInstruction(w);
        EmitInstruction(b);
        SkipCopied(i, pSource, pDest, before, w, b);
        assert emitted == before + [w, b];
        return 8, [w, b];
      }
      var count := |emitted|;
      ghost var moves := LoadTarget(pTarget);
      var br := AssembleBr(17, false);
      BrDecodes(17, false);
      EmitInstruction(w);
      EmitInstruction(br);
      FarCopied(i, pSource, pDest, before, moves, [w, br]);
      block := moves + [w, br];
      assert emitted == before + block;
      bytes := 4 * (|emitted| - count);
    }

    method CopyB_or_Bl(pSource: Word64, pDest: Word64, instruction: Word, link: bool) returns (bytes: nat, ghost block: seq<Word>)
      requires Decode(instruction).Branch? && Decode(instruction).link == link && Placed(pSource, pDest)
      modifies this
      ensures Copied(Decode(instruction), pSource, pDest, old(emitted), emitted, target, bytes, block)
    {
      hide Decode, Loads, Copied, Delta, Signed64, SignedField, Wrap64, AssembleB;
      ghost var i, before := Decode(instruction), emitted;
      BFields(instruction);
      var pTarget := Wrap64(pSource + 4 * SignedField(instruction, 1, 0x400_0000));
      target := pTarget;
      var delta := Signed64(Wrap64(pTarget - pDest));
      DeltasAre(i, pSource, pDest, delta, Signed64(Wrap64(pTarget - (pDest + 4))));
      if -0x800_0000 <= delta < 0x800_0000 {
        var w := AssembleB(link, delta);
        BDecodes(link, delta);
        EmitInstruction(w);
        NearCopied(i, pSource, pDest, before, w);
        return 4, [w];
      }
      var count := |emitted|;
      ghost var moves := LoadTarget(pTarget);
      var br := AssembleBr(17, link);
      BrDecodes(17, link);
      EmitInstruction(br);
      FarCopied(i, pSource, pDest, before, moves, [br]);
      block := moves + [br];
      assert emitted == before + block;
      bytes := 4 * (|emitted| - count);
    }

    method CopyCbz(pSource: Word64, pDest: Word64, instruction: Word) returns (bytes: nat, ghost block: seq<Word>)
      requires Decode(instruction).CompareBranch? && Placed(pSource, pDest)
      modifies this
      ensures Copied(Decode(instruction), pSource, pDest, old(emitted), emitted, target, bytes, block)
    {
      hide Decode, Loads, Copied, Delta, Signed64, SignedField, Field, Wrap64, AssembleCbz;
      ghost var i, before := Decode(instruction), emitted;
      CbzFields(instruction);
      var size, nz, rt := Field(instruction, 0x8000_0000, 2), Field(instruction, 0x100_0000, 2), Register(instruction);
      var pTarget := Wrap64(pSource + 4 * SignedField(instruction, 0x20, 0x8_0000));
      target := pTarget;
      var delta := Signed64(Wrap64(pTarget - pDest));
      var delta4 := Signed64(Wrap64(pTarget - (pDest + 4)));
      DeltasAre(i, pSource, pDest, delta, delta4);
      if -0x10_0000 <= delta < 0x10_0000 {
        var w := AssembleCbz(size, nz, rt, delta);
        CbzDecodes(size, nz, rt, delta);
        EmitInstruction(w);
        NearCopied(i, pSource, pDest, before, w);
        return 4, [w];
      }
      var w := AssembleCbz(size, 1 - nz, rt, 8);
      CbzDecodes(size, 1 - nz, rt, 8);
      bytes, block := EmitLongForm(i, pSource, pDest, pTarget, delta4, w);
    }

    method CopyTbz(pSource: Word64, pDest: Word64, instruction: Word) returns (bytes: nat, ghost block: seq<Word>)
      requires Decode(instruction).TestBranch? && Placed(pSource, pDest)
      modifies this
      ensures Copied(Decode(instruction), pSource, pDest, old(emitted), emitted, target, bytes, block)
    {
      hide Decode, Loads, Copied, Delta, Signed64, SignedField, Field, Wrap64, AssembleTbz;
      ghost var i, before := Decode(instruction), emitted;
      TbzFields(instruction);
      var size, nz, rt := Field(instruction, 0x8000_0000, 2), Field(instruction, 0x100_0000, 2), Register(instruction);
      var bit := Field(instruction, 0x8_0000, 0x20);
      var pTarget := Wrap64(pSource + 4 * SignedField(instruction, 0x20, 0x4000));
      target := pTarget;
      var delta := Signed64(Wrap64(pTarget - pDest));
      var delta4 := Signed64(Wrap64(pTarget - (pDest + 4)));
      DeltasAre(i, pSource, pDest, delta, delta4);
      if -0x2000 <= delta < 0x2000 {
        var w := AssembleTbz(size, nz, rt, bit, delta);
        TbzDecodes(size, nz, rt, bit, delta);
        EmitInstruction(w);
        NearCopied(i, pSource, pDest, before, w);
        return 4, [w];
      }
      var w := AssembleTbz(size, 1 - nz, rt, bit, 8);
      TbzDecodes(size, 1 - nz, rt, bit, 8);
      bytes, block := EmitLongForm(i, pSource, pDest, pTarget, delta4, w);
    }

    /**
     CopyAdr: the address that ADR or ADRP computes, by the same instruction, by a page and an addition, or by
     moves; right in every state if and only if AddressStays.
     */
    method CopyAdr(pSource: Word64, pDest: Word64, instruction: Word) returns (bytes: nat, ghost block: seq<Word>)
      requires Decode(instruction).Address? && Placed(pSource, pDest)
      modifies this`emitted
      ensures emitted == old(emitted) + block && bytes == 4 * |block|
      ensures AddressCopied(Decode(instruction), pSource, pDest, old(emitted), emitted, bytes, block)
    {
      hide Decode, Loads, AddressCopied, Signed64, SignedImmediate, Field, MovCount, Wrap64, AssembleAdr, AssembleAdd;
      ghost var i, before := Decode(instruction), emitted;
      AdrFields(instruction);
      var rd, imm := Register(instruction), SignedImmediate(instruction);
      AddressIs(i, pSource, imm);
      var page := Field(instruction, 0x8000_0000, 2) == 1;
      var pTarget := Wrap64(if page then (pSource / 0x1000 + imm) * 0x1000 else pSource + imm);
      var delta := Signed64(Wrap64(pTarget - pDest));
      var deltaPage := Signed64(Wrap64(pTarget / 0x1000 - pDest / 0x1000));
      PagesAre(pTarget, pDest);
      if !page && -0x10_0000 <= delta < 0x10_0000 {
        AdrDecodes(0, rd, delta);
        block := [AssembleAdr(0, rd, delta)];
        EmitInstruction(AssembleAdr(0, rd, delta));
        bytes := 4;
      } else if -0x10_0000 <= deltaPage < 0x10_0000 {
        AdrDecodes(1, rd, deltaPage);
        EmitInstruction(AssembleAdr(1, rd, deltaPage));
        block, bytes := [AssembleAdr(1, rd, deltaPage)], 4;
        if !page {
          AddDecodes(0, rd, rd, pTarget % 0x1000);
          EmitInstruction(AssembleAdd(0, rd, rd, pTarget % 0x1000));
          block, bytes := block + [AssembleAdd(0, rd, rd, pTarget % 0x1000)], 8;
        }
      } else {
        bytes, block := EmitMovImmediate(rd, pTarget);
      }
      assert emitted == before + block;
      AddressIsCopied(i, pSource, pDest, before, block);
    }

    // The value that a prefetch, or a load of this size, takes for a constant: a long is sign-extended.
    method LiteralAt(memory: Memory, pTarget: Word64, size: nat) returns (value: Word64)
      requires size < 4
      ensures value == if size == 3 then 0 else LiteralValue(size, Bytes(memory, pTarget, LiteralSize(size, false)))
    {
      match size {
        case 0 => value := U32At(Bytes(memory, pTarget, 4), 0);
        case 1 => value := U32At(Bytes(memory, pTarget, 8), 0) + 0x1_0000_0000 * U32At(Bytes(memory, pTarget, 8), 4);
        case 2 =>
          var long: int := U32At(Bytes(memory, pTarget, 4), 0);
          value := if long < 0x8000_0000 then long else 0xFFFF_FFFF_0000_0000 + long;
        case _ => value := 0;
      }
    }

    /**
     CopyLdrLiteral: the same load, the literal as a constant, or a vector load through X17; right in every state
     if and only if LiteralStays. Nothing is promised of the unallocated DC.
     */
    method CopyLdrLiteral(memory: Memory, pSource: Word64, pDest: Word64, instruction: Word) returns (bytes: nat, ghost block: seq<Word>)
      requires ReadsLiteral(instruction) && Placed(pSource, pDest)
      modifies this`emitted
      ensures emitted == old(emitted) + block && bytes == 4 * |block| <= 20
      ensures Decode(instruction).LoadLiteral? ==>
        LiteralCopied(Decode(instruction), pSource, pDest, memory, old(emitted), emitted, bytes, block)
    {
      hide Decode, Loads, LiteralCopied, Signed64, SignedField, Field, MovCount, LiteralValue, Cut19, Bytes, Wrap64, AssembleLdr, AssembleLdrVector;
      ghost var i, before := Decode(instruction), emitted;
      ghost var moves := [];
      TopFields(instruction);
      var size, simd, rt := Field(instruction, 0x4000_0000, 4), Field(instruction, 0x400_0000, 2), Register(instruction);
      var pTarget := Wrap64(pSource + 4 * SignedField(instruction, 0x20, 0x8_0000));
      var delta := Signed64(Wrap64(pTarget - pDest));
      if -0x20_0000 <= delta < 0x20_0000 {
        block, bytes := [AssembleLdr(size, simd, rt, delta)], 4;
        EmitInstruction(AssembleLdr(size, simd, rt, delta));
      } else if simd == 0 {
        var value: Word64 := LiteralAt(memory, pTarget, size);
        bytes, block := EmitMovImmediate(rt, value);
      } else {
        bytes, moves := EmitMovImmediate(17, pTarget);
        EmitInstruction(AssembleLdrVector(2 + size, rt, 17, 0));
        block, bytes := moves + [AssembleLdrVector(2 + size, rt, 17, 0)], bytes + 4;
      }
      assert emitted == before + block;
      if i.LoadLiteral? {
        LdrFields(instruction);
        DistanceIsAligned(i, pSource, pDest);
        LdrDecodes(size, simd, rt, delta);
        if simd == 1 {
          LdrVectorDecodes(2 + size, rt, 17, 0);
        }
        LiteralIsCopied(i, pSource, pDest, memory, before, block, moves);
      }
    }

    /**
     CopyInstruction: the branches and the other instructions that read their own address are relocated, but for
     BC.cond, which is copied as it is (see ConsistentIsRightIff), like anything else. memory is what literals are read
     from; extra is how much longer the copy is.
     */
    method CopyInstruction(memory: Memory, pDst: Word64, pSrc: Word64, instruction: Word)
      returns (next: Word64, extra: int, pTarget: Word64, ghost block: seq<Word>)
      requires Placed(pSrc, pDst)
      modifies this
      ensures emitted == old(emitted) + block
      ensures Decode(instruction).Address? ==>
        AddressCopied(Decode(instruction), pSrc, pDst, old(emitted), emitted, 4 * |block|, block) && target == old(target)
      ensures Decode(instruction).LoadLiteral? ==>
        LiteralCopied(Decode(instruction), pSrc, pDst, memory, old(emitted), emitted, 4 * |block|, block) && target == old(target)
      ensures next == Wrap64(pSrc + 4) && extra == 4 * |block| - 4 && pTarget == target
      ensures IsBranch(Decode(instruction)) ==>
        Copied(Decode(instruction), pSrc, pDst, old(emitted), emitted, target, 4 * |block|, block)
      ensures !IsBranch(Decode(instruction)) && !Decode(instruction).Address? && !ReadsLiteral(instruction) ==>
        block == [instruction] && target == old(target)
    {
      hide Copies, TargetOf, FormOf, Relocatable, Field, AddressCopied, LiteralCopied;
      BranchFields(instruction);
      AddressFields(instruction);
      LiteralTops(instruction);
      var top := TopByte(instruction);
      var copiedSize: int;
      if top % 0x20 == 0x10 {
        copiedSize, block := CopyAdr(pSrc, pDst, instruction);
      } else if top == 0x54 && Field(instruction, 0x10, 2) == 0 {
        copiedSize, block := CopyBcc(pSrc, pDst, instruction);
      } else if top % 0x80 / 4 == 0x5 {
        copiedSize, block := CopyB_or_Bl(pSrc, pDst, instruction, top >= 0x80);
      } else if top % 0x80 / 2 == 0x1a {
        copiedSize, block := CopyCbz(pSrc, pDst, instruction);
      } else if top % 0x80 / 2 == 0x1b {
        copiedSize, block := CopyTbz(pSrc, pDst, instruction);
      } else if top % 0x40 / 8 == 3 && top % 4 == 0 {
        copiedSize, block := CopyLdrLiteral(memory, pSrc, pDst, instruction);
      } else {
        EmitInstruction(instruction);
        copiedSize, block := 4, [instruction];
      }
      next, extra, pTarget := Wrap64(pSrc + 4), copiedSize - 4, target;
    }
  }

  // The loads of literals, and DC, which is unallocated.
  predicate ReadsLiteral(w: Word) { TopByte(w) in {0x18, 0x1C, 0x58, 0x5C, 0x98, 0x9C, 0xD8, 0xDC} }

  lemma {:induction false} AddressFields(w: Word)
    ensures Decode(w).Address? <==> TopByte(w) % 0x20 == 0x10
    ensures Decode(w).LoadLiteral? ==> ReadsLiteral(w)
  {
    hide Field, SignedField, Register, TopByte, SignedImmediate;
    TopBit(w);
  }

  lemma {:induction false} LiteralTops(w: Word)
    ensures ReadsLiteral(w) <==> TopByte(w) % 0x40 / 8 == 3 && TopByte(w) % 4 == 0
  {
    hide TopByte;
    TopBit(w);
  }

  lemma {:induction false} BranchFields(w: Word)
    ensures Decode(w).BranchIf? <==> TopByte(w) == 0x54 && Field(w, 0x10, 2) == 0
    ensures Decode(w).Branch? <==> TopByte(w) % 0x80 / 4 == 0x5
    ensures Decode(w).Branch? ==> Decode(w).link == (TopByte(w) >= 0x80)
    ensures Decode(w).CompareBranch? <==> TopByte(w) % 0x80 / 2 == 0x1a
    ensures Decode(w).TestBranch? <==> TopByte(w) % 0x80 / 2 == 0x1b
  {
    hide Field, SignedField, Register, TopByte;
    TopBit(w);
  }

  lemma {:induction false} TopBit(w: Word)
    ensures TopByte(w) < 0x100 && Field(w, 0x8000_0000, 2) == (if TopByte(w) >= 0x80 then 1 else 0)
  {
  }

  // Instructions stand at multiples of four, and the copy does not run over the end of memory.
  predicate Placed(pSource: Word64, pDest: Word64)
  {
    pSource % 4 == 0 && pDest % 4 == 0 && pDest + 24 <= TWO64
  }

  ghost predicate Copied(i: Insn, src: Word64, dst: Word64, before: seq<Word>, after: seq<Word>, target: Word64, bytes: nat, block: seq<Word>)
  {
    && IsBranch(i) && after == before + block && bytes == 4 * |block| && target == TargetOf(i, src)
    && |block| <= (match FormOf(i, src, dst) case Near => 1 case Skip => 2 case Far => 6)
    && ((forall s: State :: Copies(i, src, dst, FormOf(i, src, dst), block, s)) <==> Relocatable(i, FormOf(i, src, dst)))
  }

  lemma {:induction false} BccFields(w: Word)
    requires Decode(w).BranchIf?
    ensures Decode(w) == BranchIf(Field(w, 1, 0x10), 4 * SignedField(w, 0x20, 0x8_0000))
  {
    hide Field, SignedField;
  }

  lemma {:induction false} BFields(w: Word)
    requires Decode(w).Branch?
    ensures Decode(w) == Branch(Field(w, 0x8000_0000, 2) == 1, 4 * SignedField(w, 1, 0x400_0000))
  {
    hide Field, SignedField;
  }

  lemma {:induction false} CbzFields(w: Word)
    requires Decode(w).CompareBranch?
    ensures Decode(w) ==
      CompareBranch(Field(w, 0x8000_0000, 2) == 1, Field(w, 0x100_0000, 2) == 1, Register(w), 4 * SignedField(w, 0x20, 0x8_0000))
  {
    hide Field, SignedField;
  }

  lemma {:induction false} TbzFields(w: Word)
    requires Decode(w).TestBranch?
    ensures Decode(w) ==
      TestBranch(32 * Field(w, 0x8000_0000, 2) + Field(w, 0x8_0000, 0x20), Field(w, 0x100_0000, 2) == 1, Register(w),
                 4 * SignedField(w, 0x20, 0x4000))
  {
    hide Field, SignedField;
  }

  lemma {:induction false} DeltasAre(i: Insn, src: Word64, dst: Word64, delta: int, delta4: int)
    requires IsBranch(i) && i.offset % 4 == 0 && Placed(src, dst)
    requires delta == Signed64(Wrap64(TargetOf(i, src) - dst)) && delta4 == Signed64(Wrap64(TargetOf(i, src) - (dst + 4)))
    ensures delta == Delta(i, src, dst) && delta4 == Delta(i, src, dst + 4) && delta % 4 == 0 && delta4 % 4 == 0
  {
    hide Wrap64, Signed64;
    WrapIsAligned(src + i.offset);
    WrapIsAligned(TargetOf(i, src) - dst);
    WrapIsAligned(TargetOf(i, src) - (dst + 4));
  }

  lemma {:induction false} NearCopied(i: Insn, src: Word64, dst: Word64, before: seq<Word>, w: Word)
    requires IsBranch(i) && Sensible(i) && dst + 24 <= TWO64
    requires FormOf(i, src, dst).Near? && Decode(w) == Redirected(i, Delta(i, src, dst))
    ensures Copied(i, src, dst, before, before + [w], TargetOf(i, src), 4, [w])
  {
    hide Decode, FormOf, Copies, Relocatable, TargetOf, Delta;
    CopyIsRightIff(i, src, dst, [w], []);
  }

  lemma {:induction false} SkipCopied(i: Insn, src: Word64, dst: Word64, before: seq<Word>, w: Word, b: Word)
    requires IsBranch(i) && Sensible(i) && dst + 24 <= TWO64
    requires FormOf(i, src, dst).Skip?
    requires Decode(w) == Redirected(Inverted(i), 8) && Decode(b) == Branch(false, Delta(i, src, dst + 4))
    ensures Copied(i, src, dst, before, before + [w, b], TargetOf(i, src), 8, [w, b])
  {
    hide Decode, FormOf, Copies, Relocatable, TargetOf, Delta;
    CopyIsRightIff(i, src, dst, [w, b], []);
  }

  lemma {:induction false} FarCopied(i: Insn, src: Word64, dst: Word64, before: seq<Word>, moves: seq<Word>, last: seq<Word>)
    requires IsBranch(i) && Sensible(i) && dst + 24 <= TWO64
    requires FormOf(i, src, dst).Far? && Loads(moves, 17, TargetOf(i, src)) && 1 <= |moves| <= 4
    requires if i.Branch? then |last| == 1 && Decode(last[0]) == BranchTo(i.link, 17)
             else |last| == 2 && Decode(last[0]) == Redirected(Inverted(i), 8) && Decode(last[1]) == BranchTo(false, 17)
    ensures Copied(i, src, dst, before, before + (moves + last), TargetOf(i, src), 4 * |moves| + 4 * |last|, moves + last)
  {
    hide Decode, FormOf, Copies, Relocatable, TargetOf, Delta, Loads;
    assert (moves + last)[..|moves|] == moves;
    CopyIsRightIff(i, src, dst, moves + last, moves);
  }

  predicate Sensible(i: Insn) { (i.BranchIf? ==> i.cond < 16) && (i.TestBranch? ==> i.bit < 64) }

  lemma {:induction false} DeltaReturns(i: Insn, src: Word64, a: int)
    requires IsBranch(i)
    ensures Wrap64(a + Delta(i, src, a)) == TargetOf(i, src)
  {
    var t := TargetOf(i, src);
    var d := t - a;
    var q := d / TWO64;
    assert d == q * TWO64 + Wrap64(d);
    Wrap64Multiple(t, -q);
    Wrap64Multiple(t - q * TWO64, -1);
  }

  lemma {:induction false} InvertedIsTaken(i: Insn, s: State)
    requires IsBranch(i) && !i.Branch?
    requires i.BranchIf? ==> i.cond < 16
    ensures i.BranchIf? && i.cond >= 14 ==> IsTaken(i, s) && IsTaken(Redirected(Inverted(i), 8), s)
    ensures !(i.BranchIf? && i.cond >= 14) ==> IsTaken(Redirected(Inverted(i), 8), s) == !IsTaken(i, s)
  {
  }

  // An inverted branch over the instruction that goes to the target.
  lemma {:induction false} PairPath(i: Insn, block: seq<Word>, dst: Word64, k: nat, t: State, to: Word64)
    requires IsBranch(i) && !i.Branch? && |block| == k + 2 <= 6 && dst + 4 * |block| <= TWO64 && t.pc == dst + 4 * k
    requires Decode(block[k]) == Redirected(Inverted(i), 8)
    requires Execute(Decode(block[k + 1]), t.(pc := dst + 4 * k + 4)) == t.(pc := to)
    ensures
      var skips := IsTaken(Redirected(Inverted(i), 8), t);
      && Steps(block, dst, t, 1) == Some(t.(pc := if skips then Wrap64(dst + 4 * |block|) else dst + 4 * k + 4))
      && Steps(block, dst, t, 2) == (if skips then None else Some(t.(pc := to)))
  {
    hide Decode, IsTaken, Steps, Execute;
    var j := Redirected(Inverted(i), 8);
    OneStep(block, dst, t, k, 0);
    OneStep(block, dst, t, k, 1);
    var u := Execute(j, t);
    BranchSteps(j, t);
    NoSteps(block, dst, u);
    if !IsTaken(j, t) {
      WrapIs(dst + 4 * k + 4);
      OneStep(block, dst, u, k + 1, 0);
      NoSteps(block, dst, t.(pc := to));
    } else {
      StepsEnd(block, dst, u, 0);
    }
  }

  // Control that has left the block at its end has left it.
  lemma {:induction false} StepsEnd(block: seq<Word>, dst: Word64, s: State, n: nat)
    requires 1 <= |block| <= 6 && dst + 4 * |block| <= TWO64 && s.pc == Wrap64(dst + 4 * |block|)
    ensures Steps(block, dst, s, n + 1) == None
  {
    hide Decode, Execute;
    if dst + 4 * |block| < TWO64 {
      WrapIs(dst + 4 * |block|);
    } else {
      assert s.pc == 0 < dst;
    }
  }

  lemma {:induction false} BranchSteps(i: Insn, s: State)
    requires IsBranch(i) && !i.Branch?
    ensures Execute(i, s) == s.(pc := if IsTaken(i, s) then Wrap64(s.pc + i.offset) else Wrap64(s.pc + 4))
  {
    hide IsTaken;
  }

  // After k plain instructions comes such a pair: the copy is right if and only if the pair skips exactly
  // when the original is not taken.
  lemma {:induction false} PairCopies(i: Insn, src: Word64, dst: Word64, form: Form, block: seq<Word>, s: State, k: nat, t: State)
    requires IsBranch(i) && !i.Branch? && |block| == k + 2 <= 6 && dst + 4 * |block| <= TWO64 && t.pc == dst + 4 * k
    requires Decode(block[k]) == Redirected(Inverted(i), 8)
    requires Execute(Decode(block[k + 1]), t.(pc := dst + 4 * k + 4)) == t.(pc := TargetOf(i, src))
    requires forall n :: 1 <= n <= k ==> Steps(block, dst, s.(pc := dst), n).Some? && Steps(block, dst, s.(pc := dst), n).value.pc == dst + 4 * n
    requires forall n: nat {:trigger Steps(block, dst, t, n)} :: Steps(block, dst, s.(pc := dst), k + n) == Steps(block, dst, t, n)
    requires CopyResult(i, src, dst, form, |block|, s) == t.(pc := if IsTaken(i, s) then TargetOf(i, src) else Wrap64(dst + 4 * |block|))
    requires forall n :: 0 <= n <= |block| ==> Wrap64(dst + 4 * n) != TargetOf(i, src)
    ensures Copies(i, src, dst, form, block, s) <==> IsTaken(Redirected(Inverted(i), 8), t) == !IsTaken(i, s)
  {
    hide Decode, IsTaken, Execute, Steps, CopyResult, TargetOf;
    PairPath(i, block, dst, k, t, TargetOf(i, src));
    var a := s.(pc := dst);
    var skips := IsTaken(Redirected(Inverted(i), 8), t);
    assert Steps(block, dst, a, k + 1) == Steps(block, dst, t, 1) && Steps(block, dst, a, k + 2) == Steps(block, dst, t, 2);
    assert Wrap64(dst + 4 * (k + 1)) == dst + 4 * (k + 1);
    if skips == !IsTaken(i, s) {
      var n := if skips then k + 1 else k + 2;
      assert Steps(block, dst, a, n) == Some(CopyResult(i, src, dst, form, |block|, s));
    } else {
      forall n | 1 <= n <= |block|
        ensures Steps(block, dst, a, n) != Some(CopyResult(i, src, dst, form, |block|, s))
      {
        if n <= k {
          assert Wrap64(dst + 4 * n) == dst + 4 * n;
        }
      }
    }
  }

  // Skip and far copies go far enough that the target is not in the copy or just behind it.
  lemma {:induction false} TargetIsFar(i: Insn, src: Word64, dst: Word64, n: nat)
    requires IsBranch(i) && !i.Branch? && !FormOf(i, src, dst).Near? && n <= 6
    ensures Wrap64(dst + 4 * n) != TargetOf(i, src)
  {
    DeltaReturns(i, src, dst);
    if Wrap64(dst + 4 * n) == TargetOf(i, src) {
      SmallDelta(dst, n);
    }
  }

  lemma {:induction false} SmallDelta(a: Word64, n: nat)
    requires n <= 6
    ensures Signed64(Wrap64(Wrap64(a + 4 * n) - a)) == 4 * n
  {
  }

  lemma {:induction false} NearCopies(i: Insn, src: Word64, dst: Word64, block: seq<Word>, s: State)
    requires IsBranch(i) && IsCopy(i, src, dst, Near, block, []) && dst + 4 <= TWO64
    ensures Copies(i, src, dst, Near, block, s)
  {
    hide Decode, Steps, Delta, TargetOf;
    var a, j := s.(pc := dst), Redirected(i, Delta(i, src, dst));
    OneStep(block, dst, a, 0, 0);
    DeltaReturns(i, src, dst);
    NoSteps(block, dst, Execute(j, a));
    assert Steps(block, dst, a, 1) == Some(Execute(j, a));
    SameTest(i, s, dst, Delta(i, src, dst));
    assert Execute(j, a) == CopyResult(i, src, dst, Near, 1, s);
  }

  // The test does not depend on where the branch stands or goes.
  lemma {:induction false} SameTest(i: Insn, s: State, pc: Word64, offset: int)
    requires IsBranch(i)
    ensures IsTaken(Redirected(i, offset), s.(pc := pc)) == IsTaken(i, s)
  {
  }

  lemma {:induction false} SkipCopies(i: Insn, src: Word64, dst: Word64, block: seq<Word>, s: State)
    requires IsBranch(i) && FormOf(i, src, dst).Skip? && IsCopy(i, src, dst, Skip, block, []) && dst + 8 <= TWO64
    ensures Copies(i, src, dst, Skip, block, s) <==> IsTaken(Redirected(Inverted(i), 8), s) == !IsTaken(i, s)
  {
    hide Decode, Steps, Delta, TargetOf, IsTaken, Reach;
    var t := s.(pc := dst);
    DeltaReturns(i, src, dst + 4);
    forall n | 0 <= n <= |block|
      ensures Wrap64(dst + 4 * n) != TargetOf(i, src)
    {
      TargetIsFar(i, src, dst, n);
    }
    SameTest(Inverted(i), s, dst, 8);
    SameTest(Redirected(Inverted(i), 8), s, dst, 8);
    PairCopies(i, src, dst, Skip, block, s, 0, t);
  }

  // The state of the far form behind its moves: X17 holds the target.
  function Loaded(i: Insn, src: Word64, pc: Word64, s: State): State
    requires IsBranch(i)
  {
    s.(pc := pc, x := s.x[17 := TargetOf(i, src)])
  }

  lemma {:induction false} FarRuns(i: Insn, src: Word64, dst: Word64, block: seq<Word>, moves: seq<Word>, s: State, n: nat)
    requires IsBranch(i) && IsCopy(i, src, dst, Far, block, moves) && dst + 4 * |block| <= TWO64
    ensures Steps(block, dst, s.(pc := dst), |moves| + n) == Steps(block, dst, Loaded(i, src, dst + 4 * |moves|, s), n)
  {
    hide Decode, Steps, TargetOf, Execute, After;
    var m, a := |moves|, s.(pc := dst);
    assert forall j :: 0 <= j < m ==> block[j] == moves[j];
    assert After(moves, a) == LoadedState(a, 17, TargetOf(i, src), m);
    PlainRun(block, dst, a, m, n);
  }

  lemma {:induction false} FarStarts(i: Insn, src: Word64, dst: Word64, block: seq<Word>, moves: seq<Word>, s: State)
    requires IsBranch(i) && IsCopy(i, src, dst, Far, block, moves) && dst + 4 * |block| <= TWO64
    ensures
      var m, a := |moves|, s.(pc := dst);
      var t := Loaded(i, src, dst + 4 * m, s);
      && (forall n: nat {:trigger Steps(block, dst, t, n)} :: Steps(block, dst, a, m + n) == Steps(block, dst, t, n))
      && (forall n :: 1 <= n <= m ==> Steps(block, dst, a, n).Some? && Steps(block, dst, a, n).value.pc == dst + 4 * n)
  {
    hide Decode, Steps, TargetOf, Execute, After, Loaded;
    var m, a := |moves|, s.(pc := dst);
    var t := Loaded(i, src, dst + 4 * m, s);
    forall n: nat
      ensures Steps(block, dst, a, m + n) == Steps(block, dst, t, n)
    {
      FarRuns(i, src, dst, block, moves, s, n);
    }
    forall n | 1 <= n <= m
      ensures Steps(block, dst, a, n).Some? && Steps(block, dst, a, n).value.pc == dst + 4 * n
    {
      assert forall j :: 0 <= j < m ==> block[j] == moves[j];
      PlainRun(block, dst, a, n, 0);
      NoSteps(block, dst, After(block[..n], a));
    }
  }

  lemma {:induction false} FarCopies(i: Insn, src: Word64, dst: Word64, block: seq<Word>, moves: seq<Word>, s: State)
    requires IsBranch(i) && !i.Branch? && FormOf(i, src, dst).Far? && IsCopy(i, src, dst, Far, block, moves)
    requires dst + 4 * |block| <= TWO64
    ensures Copies(i, src, dst, Far, block, s) <==>
            IsTaken(Redirected(Inverted(i), 8), s.(x := s.x[17 := TargetOf(i, src)])) == !IsTaken(i, s)
  {
    hide Decode, Steps, Delta, TargetOf, IsTaken, Reach, Loads;
    var m := |moves|;
    var t := Loaded(i, src, dst + 4 * m, s);
    FarStarts(i, src, dst, block, moves, s);
    forall n | 0 <= n <= |block|
      ensures Wrap64(dst + 4 * n) != TargetOf(i, src)
    {
      TargetIsFar(i, src, dst, n);
    }
    var l := s.(x := s.x[17 := TargetOf(i, src)]);
    SameTest(Redirected(Inverted(i), 8), l, dst + 4 * m, 8);
    assert t == l.(pc := dst + 4 * m);
    PairCopies(i, src, dst, Far, block, s, m, t);
  }

  lemma {:induction false} FarBranchCopies(i: Insn, src: Word64, dst: Word64, block: seq<Word>, moves: seq<Word>, s: State)
    requires i.Branch? && IsCopy(i, src, dst, Far, block, moves) && dst + 4 * |block| <= TWO64
    ensures Copies(i, src, dst, Far, block, s)
  {
    hide Decode, Steps, Delta, TargetOf, Reach, Loads;
    var m, a := |moves|, s.(pc := dst);
    var t := Loaded(i, src, dst + 4 * m, s);
    FarRuns(i, src, dst, block, moves, s, 1);
    OneStep(block, dst, t, m, 0);
    var u := Execute(BranchTo(i.link, 17), t);
    NoSteps(block, dst, u);
    assert Steps(block, dst, t, 1) == Some(u);
    assert Steps(block, dst, a, m + 1) == Steps(block, dst, t, 1);
    assert u == CopyResult(i, src, dst, Far, m + 1, s);
  }

  // A test of X17 can come out otherwise once X17 holds the target.
  lemma {:induction false} TestChanges(i: Insn, to: Word64, s: State) returns (v: Word64)
    requires (i.CompareBranch? && i.rt == 17) || (i.TestBranch? && i.rt == 17 && i.bit < 64)
    ensures IsTaken(i, s.(x := s.x[17 := v])) != IsTaken(i, s.(x := s.x[17 := to]))
  {
    match i
    case CompareBranch(wide, _, _, _) =>
      v := if (if wide then to else to % TWO32) != 0 then 0 else 1;
    case TestBranch(bit, _, _, _) =>
      PowerBound(bit);
      v := if TestedBit(to, bit) then 0 else PowerOfTwo(bit);
      DivIs(PowerOfTwo(bit), PowerOfTwo(bit), 1, 0);
      DivIs(0, PowerOfTwo(bit), 0, 0);
  }

  lemma {:induction false} PowerBound(n: nat)
    requires n < 64
    ensures PowerOfTwo(n) < TWO64
  {
    hide PowerOfTwo;
    PowerGrows(n, 64);
    PowersAre();
  }

  lemma {:induction false} PowersAre()
    ensures PowerOfTwo(64) == TWO64
  {
    hide PowerOfTwo;
    PowerOfEight();
    PowerAdds(8, 8);
    PowerAdds(16, 16);
    PowerAdds(32, 32);
  }

  lemma {:induction false} PowerOfEight()
    ensures PowerOfTwo(8) == 0x100
  {
  }

  lemma {:induction false} PowerAdds(a: nat, b: nat)
    ensures PowerOfTwo(a + b) == PowerOfTwo(a) * PowerOfTwo(b)
  {
    if b > 0 {
      PowerAdds(a, b - 1);
      assert PowerOfTwo(a + b) == 2 * PowerOfTwo(a + (b - 1));
    }
  }

  lemma {:induction false} PowerGrows(n: nat, k: nat)
    requires n < k
    ensures 2 * PowerOfTwo(n) <= PowerOfTwo(k)
    decreases k
  {
    if n < k - 1 {
      PowerGrows(n, k - 1);
    }
  }

  // All of an IsCopy block is right in every state exactly when the branch is relocatable in its form.
  lemma {:induction false} RightInEveryState(i: Insn, src: Word64, dst: Word64, block: seq<Word>, moves: seq<Word>)
    requires IsBranch(i) && IsCopy(i, src, dst, FormOf(i, src, dst), block, moves) && dst + 24 <= TWO64
    requires Sensible(i)
    requires Relocatable(i, FormOf(i, src, dst))
    ensures forall s: State :: Copies(i, src, dst, FormOf(i, src, dst), block, s)
  {
    hide Decode, Steps, Delta, TargetOf, Loads, FormOf, Copies, IsTaken;
    var form := FormOf(i, src, dst);
    forall s: State
      ensures Copies(i, src, dst, form, block, s)
    {
      match form
      case Near => NearCopies(i, src, dst, block, s);
      case Skip => SkipIsConditional(i, src, dst); SkipCopies(i, src, dst, block, s); InvertedIsTaken(i, s);
      case Far =>
        if i.Branch? {
          FarBranchCopies(i, src, dst, block, moves, s);
        } else {
          var l := s.(x := s.x[17 := TargetOf(i, src)]);
          FarCopies(i, src, dst, block, moves, s);
          InvertedIsTaken(i, l);
          LoadedTest(i, TargetOf(i, src), s);
        }
    }
  }

  lemma {:induction false} SkipIsConditional(i: Insn, src: Word64, dst: Word64)
    requires IsBranch(i) && FormOf(i, src, dst).Skip?
    ensures !i.Branch?
  {
    hide Delta;
  }

  // Loading X17 does not matter to the test of another register.
  lemma {:induction false} LoadedTest(i: Insn, to: Word64, s: State)
    requires IsBranch(i) && Relocatable(i, Far)
    ensures IsTaken(i, s.(x := s.x[17 := to])) == IsTaken(i, s)
  {
  }

  lemma {:induction false} WrongInSomeState(i: Insn, src: Word64, dst: Word64, block: seq<Word>, moves: seq<Word>) returns (s: State)
    requires IsBranch(i) && IsCopy(i, src, dst, FormOf(i, src, dst), block, moves) && dst + 24 <= TWO64
    requires Sensible(i)
    requires !Relocatable(i, FormOf(i, src, dst))
    ensures !Copies(i, src, dst, FormOf(i, src, dst), block, s)
  {
    hide Decode, Steps, Delta, TargetOf, Loads, FormOf, Copies, IsTaken;
    var form := FormOf(i, src, dst);
    var to := TargetOf(i, src);
    s := State(0, seq(31, _ => 0), 0, seq(32, _ => seq(16, _ => 0)), Flags(false, false, false, false), []);
    if i.BranchIf? {
      InvertedIsTaken(i, s);
      if form.Skip? {
        SkipCopies(i, src, dst, block, s);
      } else {
        FarCopies(i, src, dst, block, moves, s);
        InvertedIsTaken(i, s.(x := s.x[17 := to]));
      }
    } else {
      var v := TestChanges(i, to, s);
      var z := s;
      s := z.(x := z.x[17 := v]);
      assert s.x[17 := to] == z.x[17 := to];
      FarCopies(i, src, dst, block, moves, s);
      InvertedIsTaken(i, z.(x := z.x[17 := to]));
    }
  }

  /**
   A copied branch goes to the original target under the original condition, and otherwise on behind the
   copy, in every state, if and only if its condition has an opposite (or it is near enough not to need
   one) and it does not test X17 (or does not need that register).
   */
  lemma {:induction false} CopyIsRightIff(i: Insn, src: Word64, dst: Word64, block: seq<Word>, moves: seq<Word>)
    requires IsBranch(i) && IsCopy(i, src, dst, FormOf(i, src, dst), block, moves) && dst + 24 <= TWO64
    requires Sensible(i)
    ensures (forall s: State :: Copies(i, src, dst, FormOf(i, src, dst), block, s)) <==> Relocatable(i, FormOf(i, src, dst))
  {
    hide IsCopy, FormOf, Copies, Relocatable;
    if Relocatable(i, FormOf(i, src, dst)) {
      RightInEveryState(i, src, dst, block, moves);
    } else {
      var s := WrongInSomeState(i, src, dst, block, moves);
      assert !Copies(i, src, dst, FormOf(i, src, dst), block, s);
    }
  }

  // What a copied BC.cond must arrive at.
  function ConsistentResult(i: Insn, src: Word64, dst: Word64, s: State): State
    requires i.ConsistentBranch?
  {
    s.(pc := if IsTaken(i, s) then Wrap64(src + i.distance) else Wrap64(dst + 4))
  }

  /**
   BC.cond is copied as it is, and the copy does the same in exactly those states in which it is not taken; so it is
   right in every state if and only if it is not moved at all.
   */
  lemma {:induction false} ConsistentIsRightIff(w: Word, src: Word64, dst: Word64)
    requires Decode(w).ConsistentBranch?
    ensures forall s: State ::
      Steps([w], dst, s.(pc := dst), 1) == Some(ConsistentResult(Decode(w), src, dst, s)) <==> !IsTaken(Decode(w), s) || src == dst
    ensures (forall s: State :: Steps([w], dst, s.(pc := dst), 1) == Some(ConsistentResult(Decode(w), src, dst, s))) <==> src == dst
  {
    hide Decode, Arm64.Holds, Execute, Steps;
    var i := Decode(w);
    forall s: State
      ensures Steps([w], dst, s.(pc := dst), 1) == Some(ConsistentResult(i, src, dst, s)) <==> !IsTaken(i, s) || src == dst
    {
      ConsistentSteps(w, dst, s);
      SameShift(src, dst, i.distance);
    }
    if src != dst {
      var s := SomeTaken(w);
      assert Steps([w], dst, s.(pc := dst), 1) != Some(ConsistentResult(i, src, dst, s));
    }
  }

  lemma {:induction false} ConsistentSteps(w: Word, dst: Word64, s: State)
    requires Decode(w).ConsistentBranch?
    ensures
      var i := Decode(w);
      Steps([w], dst, s.(pc := dst), 1) == Some(s.(pc := if IsTaken(i, s) then Wrap64(dst + i.distance) else Wrap64(dst + 4)))
  {
    hide Decode, Arm64.Holds;
    NoSteps([w], dst, Execute(Decode(w), s.(pc := dst)));
  }

  lemma {:induction false} SameShift(a: Word64, b: Word64, x: int)
    ensures Wrap64(a + x) == Wrap64(b + x) <==> a == b
  {
    var p, q := (a + x) / TWO64, (b + x) / TWO64;
    assert a + x == p * TWO64 + Wrap64(a + x) && b + x == q * TWO64 + Wrap64(b + x);
    if Wrap64(a + x) == Wrap64(b + x) {
      assert a - b == (p - q) * TWO64;
    }
  }

  // Every condition holds in some state.
  lemma {:induction false} SomeTaken(w: Word) returns (s: State)
    requires Decode(w).ConsistentBranch?
    ensures IsTaken(Decode(w), s)
  {
    ConsistentFields(w);
    hide Decode;
    var c := Decode(w).cond;
    var f := Flags(c in {4, 11, 13}, c == 0, c in {2, 8}, c == 6);
    s := SomeState(0, 0, []).(flags := f);
  }

  lemma {:induction false} ConsistentFields(w: Word)
    requires Decode(w).ConsistentBranch?
    ensures Decode(w).cond < 0x10
  {
    hide SignedField, Register, SignedImmediate;
  }
}
