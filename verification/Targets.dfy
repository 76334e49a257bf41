/** Finding the code behind a pointer, and what an attached trampoline says about its target. */
module Targets {
  import opened Words
  import opened IntelDecoder
  import opened Relocation
  import opened Meaning
  import opened Prologue
  import opened MovedCode
  import opened Simulation
  import opened Builder
  import opened RegionSearch
  import opened Trampolines

  function WordAt(m: Memory, a: nat): Word { if a + 4 <= |m| then U32At(m, a) else 0 }

  predicate IsVectorJump(m: Memory, a: nat) { ByteAt(m, a) == 0xFF && ByteAt(m, a + 1) == 0x25 }

  // Follows an import stub; imported tells whether the vector is in the import table of the module at a.
  function SkipImport(m: Memory, imported: (nat, nat) -> bool, a: Word): Word
  {
    if IsVectorJump(m, a) && imported(a, WordAt(m, a + 2)) then WordAt(m, WordAt(m, a + 2)) else a
  }

  /** DetourCodeFromPointer, which is detour_skip_jmp. */
  function SkipJmp(m: Memory, imported: (nat, nat) -> bool, pbCode: Word): Word
  {
    if pbCode == 0 then 0
    else
      var a := SkipImport(m, imported, pbCode);
      if ByteAt(m, a) != 0xEB then a
      else
        var b := Wrap(a + 2 + Signed8(ByteAt(m, a + 1)));
        if IsVectorJump(m, b) then SkipImport(m, imported, b)
        else if ByteAt(m, b) != 0xE9 then b
        else
          var c := Wrap(b + 5 + Signed32(WordAt(m, b + 1)));
          // A patch by the operating system jumps through a vector one page on: the long jump is the target then.
          if IsVectorJump(m, c) && WordAt(m, c + 2) == Wrap(c + 0x1000) then b else c
  }

  /**
   A hooked function is found again through a pointer to it, so that hooks stack. Through a short jump to
   it, the detour that was attached first is found instead.
   */
  lemma {:induction false} HookedIsFoundAgain(m: Memory, imported: (nat, nat) -> bool, a: Word, t: Word, d: Word)
    requires 0 < t && Holds(m, t, JumpBytes(t, d))
    requires 0 < a && a + 2 <= |m| && m[a] == 0xEB && Wrap(a + 2 + Signed8(m[a + 1])) == t
    requires !(IsVectorJump(m, d) && WordAt(m, d + 2) == Wrap(d + 0x1000))
    ensures SkipJmp(m, imported, t) == t
    ensures SkipJmp(m, imported, a) == d
  {
    hide JumpBytes, U32At, Wrap, Signed32, Signed8, Holds;
    JumpReads(m, t, d);
  }

  // The instruction at a is a short jump, or a jump through the absolute address v.
  predicate IsShortJump(m: Memory, a: nat)
  {
    DecodeAt(m, a).Some? && var i := DecodeAt(m, a).value; i.length == 2 && i.control.Relative? && i.control.flow.Jump? && i.control.form.Short?
  }

  predicate IsJumpThrough(m: Memory, a: nat, v: Word)
  {
    DecodeAt(m, a) == Some(Insn(6, Departs, Address32(0x25))) && a + 6 <= |m| && U32At(m, a + 2) == v
  }

  lemma {:induction false} JumpKinds(m: Memory, a: nat)
    requires a + 6 <= |m|
    ensures IsShortJump(m, a) <==> m[a] == 0xEB
    ensures IsShortJump(m, a) ==> Target(DecodeAt(m, a).value, a) == Wrap(a + 2 + Signed8(m[a + 1]))
    ensures IsJumpThrough(m, a, U32At(m, a + 2)) <==> IsVectorJump(m, a)
  {
    hide U32At, Signed8, Wrap, DecodeVectorPrefix, IsVector;
    if IsPrefix(m[a]) {
      PrefixedIsLonger(m, a, NO_PREFIXES);
    } else {
      JumpKindsUnprefixed(m, a);
    }
  }

  lemma {:induction false} JumpKindsUnprefixed(m: Memory, a: nat)
    requires a + 6 <= |m| && !IsPrefix(m[a])
    ensures IsShortJump(m, a) <==> m[a] == 0xEB
    ensures IsShortJump(m, a) ==> DecodeAt(m, a).value.control.disp == Signed8(m[a + 1])
    ensures DecodeAt(m, a) == Some(Insn(6, Departs, Address32(0x25))) <==> m[a] == 0xFF && m[a + 1] == 0x25
  {
    hide U32At, Signed8, Wrap;
  }

  // What no prefix makes shorter.
  lemma {:induction false} PrefixedIsLonger(m: Memory, a: nat, p: Prefixes)
    requires a < |m|
    ensures Decode(m, a, p).Some? && Decode(m, a, p).value.addressing == Address32(0x25) && Decode(m, a, p).value.control.Departs? ==>
      if IsPrefix(m[a]) then 6 < Decode(m, a, p).value.length else 6 <= Decode(m, a, p).value.length
    ensures Decode(m, a, p).Some? && Decode(m, a, p).value.control.Relative? ==>
      if IsPrefix(m[a]) then 2 < Decode(m, a, p).value.length else 2 <= Decode(m, a, p).value.length
    decreases |m| - a
  {
    if IsPrefix(m[a]) && a + 1 < |m| {
      hide DecodeOneByte, DecodeTwoByte, DecodeVectorPrefix, IsVector;
      PrefixedIsLonger(m, a + 1, Note(p, m[a]));
    }
  }

  /** The bounds of a target follow a near jump at its start, in the 32-bit variant, to where the processor goes. */
  lemma {:induction false} NearTargetIs(m: Memory, a: nat)
    requires a + 6 <= |m| <= TWO32
    ensures NearTarget(Bits32, m, a).Some? <==>
      DecodeAt(m, a).Some? && var i := DecodeAt(m, a).value; i.length == 5 && i.control.Relative? && i.control.flow.Jump? && i.control.form.Near32?
    ensures NearTarget(Bits32, m, a).Some? ==> NearTarget(Bits32, m, a).value == Target(DecodeAt(m, a).value, a)
  {
    hide U32At, Signed32, DecodeVectorPrefix;
    if DecodeAt(m, a).Some? {
      NearIsFive(m, a, NO_PREFIXES);
    }
    if m[a] == 0xE9 {
      assert DecodeAt(m, a) == RelativeAt(m, a, 1, Near32, Jump);
    }
  }

  lemma {:induction false} NearIsFive(m: Memory, a: nat, p: Prefixes)
    requires a < |m| && Decode(m, a, p).Some?
    ensures
      var i := Decode(m, a, p).value;
      i.control.Relative? && i.control.flow.Jump? && i.control.form.Near32? ==>
        5 <= i.length && (IsPrefix(m[a]) ==> 5 < i.length) && (!IsPrefix(m[a]) ==> m[a] == 0xE9)
    decreases |m| - a
  {
    hide DecodeTwoByte;
    if IsPrefix(m[a]) {
      hide DecodeOneByte, DecodeVectorPrefix, IsVector;
      NearIsFive(m, a + 1, Note(p, m[a]));
    }
    NoJumpIn0F(m, a, p);
  }

  lemma {:induction false} NoJumpIn0F(m: Memory, a: nat, p: Prefixes)
    ensures a + 1 < |m| && DecodeTwoByte(m, a + 1, p).Some? ==>
      var c := DecodeTwoByte(m, a + 1, p).value.control;
      !(c.Relative? && c.flow.Jump?)
  {
  }

  /** A pointer to the stub of an imported function finds the function, unless that starts with a short jump itself. */
  lemma {:induction false} ImportIsFound(m: Memory, imported: (nat, nat) -> bool, a: Word, v: Word)
    requires 0 < a && IsJumpThrough(m, a, v) && imported(a, v) && v + 4 <= |m|
    requires var f := U32At(m, v); f + 6 <= |m| && !IsShortJump(m, f)
    ensures SkipJmp(m, imported, a) == U32At(m, v)
  {
    hide U32At, DecodeAt, Wrap, IsShortJump, Decode;
    JumpKinds(m, a);
    JumpKinds(m, U32At(m, v));
  }

  /** Behind a short jump the import stub is followed as well, and other code, but for a near jump, is what is found. */
  lemma {:induction false} PatchIsFound(m: Memory, imported: (nat, nat) -> bool, a: Word, b: Word)
    requires 0 < a && a + 6 <= |m| && IsShortJump(m, a) && Target(DecodeAt(m, a).value, a) == b && b + 6 <= |m|
    ensures m[b] != 0xE9 ==>
      var v := U32At(m, b + 2);
      SkipJmp(m, imported, a) ==
        if IsJumpThrough(m, b, v) && imported(b, v) then (if v + 4 <= |m| then U32At(m, v) else 0) else b
  {
    hide U32At, DecodeAt, Wrap, Target, Decode, IsShortJump;
    JumpKinds(m, a);
    JumpKinds(m, b);
  }

  /** All other code is what a pointer to it finds. */
  lemma {:induction false} CodeIsFound(m: Memory, imported: (nat, nat) -> bool, a: Word)
    requires 0 < a && a + 6 <= |m| && !IsShortJump(m, a)
    requires forall v: Word :: IsJumpThrough(m, a, v) ==> !imported(a, v)
    ensures SkipJmp(m, imported, a) == a
  {
    hide U32At, DecodeAt, Wrap, Decode, IsShortJump;
    JumpKinds(m, a);
    assert IsJumpThrough(m, a, U32At(m, a + 2)) ==> !imported(a, U32At(m, a + 2));
  }

  lemma {:induction false} JumpReads(m: Memory, t: nat, d: Word)
    requires Holds(m, t, JumpBytes(t, d))
    ensures t + SIZE_OF_JMP <= |m| && m[t] == 0xE9 && Wrap(t + 5 + Signed32(U32At(m, t + 1))) == d
  {
    hide Le32, Wrap, Signed32, U32At;
    var s := JumpBytes(t, d);
    assert m[t] == s[0];
    HoldsBoth(m, t, [0xE9], Le32(Wrap(d - (t + SIZE_OF_JMP))));
    Holds32(m, t + 1, Wrap(d - (t + SIZE_OF_JMP)));
    WrapAdd(t + SIZE_OF_JMP, d - (t + SIZE_OF_JMP));
    WordWraps(d);
  }

  lemma {:induction false} WordWraps(w: Word)
    ensures Wrap(w) == w
  {
  }

  /** A trampoline's code never starts with a short jump, so a pointer to it is not followed further. */
  lemma {:induction false} TrampolineIsItsCode(m: Memory, imported: (nat, nat) -> bool, code: Memory, target: nat, tramp: nat,
                                               plan: seq<Insn>, detour: Word)
    requires Built(code, target, m, tramp, plan, detour) && 0 < tramp && forall a :: !imported(tramp, a)
    ensures SkipJmp(m, imported, tramp) == tramp
  {
    hide Recorded, Aligned, Planned, Taken, EmittedLength, Emitted, DecodeAt, Holds, Le32, Breaks, JumpBytes, Decode, SourceOffset, CodeOffset;
    assert CopiedAt(code, target, m, tramp, plan, 0);
    PlannedAt(code, target, plan, 0);
    PlanStarts(code, target, tramp, plan);
    FirstByte(code, target, plan[0], m, tramp);
  }

  lemma {:induction false} FirstByte(code: Memory, src: nat, i: Insn, m: Memory, dst: nat)
    requires DecodeAt(code, src) == Some(i) && CopiedTo(code, src, m, dst, i) && Movable(i)
    ensures dst < |m| && m[dst] != 0xEB
  {
    hide Le32;
    var e := Emitted(code, src, i, dst - src);
    EmittedHasLength(code, src, i, dst - src);
    assert m[dst] == e[0];
    if HeadSize(i) > 0 {
      assert e[0] == code[src];
    }
  }
}
