/** The pending operations of a transaction, and what committing them writes. */
module Edits {
  import opened Words
  import opened IntelDecoder
  import opened Prologue
  import opened MovedCode
  import opened Simulation
  import opened Builder
  import opened Pages
  import opened RegionSearch
  import opened Trampolines

  datatype Operation = Operation(fIsRemove: bool, ppbPointer: nat, pbTarget: nat, pTrampoline: nat, dwPerm: Protection)

  // Memory that belongs to the program and is not trampoline space, in units of 64 KB.
  ghost predicate MappedRange(mapped: set<nat>, a: nat, n: nat)
  {
    a + n <= TWO32 && forall x :: a <= x < a + n ==> RegionOf(x) in mapped
  }

  ghost predicate SameMapped(m: Memory, m': Memory, mapped: set<nat>)
  {
    |m| == |m'| && forall a :: 0 <= a < |m| && RegionOf(a) in mapped ==> m'[a] == m[a]
  }

  // What the trampoline p remembers of its target.
  function Saved(m: Memory, p: nat): Byte
    requires p + TRAMPOLINE_SIZE <= |m|
  {
    m[p + CB_RESTORE]
  }

  function TargetOf(m: Memory, p: nat): int
    requires p + TRAMPOLINE_SIZE <= |m|
  {
    U32At(m, p + PB_REMAIN) - Saved(m, p)
  }

  // The trampoline p has been built for a target of the program.
  ghost predicate Remembers(m: Memory, mapped: set<nat>, p: nat)
  {
    && p + TRAMPOLINE_SIZE <= |m|
    && SIZE_OF_JMP <= Saved(m, p) <= RESTORE_SIZE
    && 0 < TargetOf(m, p) && MappedRange(mapped, TargetOf(m, p), WINDOW)
  }

  ghost predicate OpOk(m: Memory, mapped: set<nat>, live: set<nat>, o: Operation)
  {
    && o.pTrampoline in live && Remembers(m, mapped, o.pTrampoline)
    && o.pTrampoline < TWO32 && o.pbTarget == TargetOf(m, o.pTrampoline)
    && 0 < o.ppbPointer && MappedRange(mapped, o.ppbPointer, 4)
  }

  // A trampoline that is given back with one operation is none of any older one's.
  ghost predicate ReleasesOnce(ops: seq<Operation>, removals: bool)
  {
    forall j, k :: 0 <= j < k < |ops| && ops[j].fIsRemove == removals ==> ops[j].pTrampoline != ops[k].pTrampoline
  }

  // The slot p reads the same.
  ghost predicate SameSlot(m: Memory, m': Memory, p: nat)
  {
    |m| == |m'| && forall a :: p <= a < p + TRAMPOLINE_SIZE && a < |m| ==> m'[a] == m[a]
  }

  lemma {:induction false} RememberedKept(m: Memory, m': Memory, mapped: set<nat>, p: nat)
    requires Remembers(m, mapped, p) && SameSlot(m, m', p)
    ensures Remembers(m', mapped, p) && Saved(m', p) == Saved(m, p) && TargetOf(m', p) == TargetOf(m, p)
  {
    hide U32At, MappedRange;
    U32Kept(m, m', p + PB_REMAIN);
  }

  // Trampoline space and mapped memory do not overlap.
  lemma {:induction false} SlotIsNotMapped(mapped: set<nat>, p: nat, a: nat, n: nat)
    requires IsSlot(RegionOf(p), p) && RegionOf(p) !in mapped && MappedRange(mapped, a, n) && 0 < n
    ensures a + n <= p || p + TRAMPOLINE_SIZE <= a
  {
    hide IsSlot;
    MaskFindsRegion(RegionOf(p), p);
    var x := if a < p then p else a;
    assert x < a + n ==> RegionOf(x) in mapped;
  }

  datatype Edit = Edit(a: nat, s: seq<Byte>)

  // What is written at the target: the saved bytes, or a jump to the detour and breakpoints up to pbRemain.
  function TargetBytes(m: Memory, o: Operation): (s: seq<Byte>)
    requires o.pTrampoline + TRAMPOLINE_SIZE <= |m| && SIZE_OF_JMP <= Saved(m, o.pTrampoline) <= RESTORE_SIZE
    ensures |s| == Saved(m, o.pTrampoline)
  {
    var p, cb := o.pTrampoline, Saved(m, o.pTrampoline) as nat;
    if o.fIsRemove then m[p + RB_RESTORE..p + RB_RESTORE + cb]
    else JumpBytes(o.pbTarget, U32At(m, p + PB_DETOUR)) + Breaks(cb - SIZE_OF_JMP)
  }

  // And at the pointer: the target itself, or the trampoline, which stands for the original.
  function PointerBytes(o: Operation): (s: seq<Byte>)
    requires o.pbTarget < TWO32 && o.pTrampoline < TWO32
    ensures |s| == 4
  {
    Le32(if o.fIsRemove then o.pbTarget else o.pTrampoline)
  }

  ghost predicate Editable(m: Memory, o: Operation)
  {
    && o.pTrampoline + TRAMPOLINE_SIZE <= |m| <= TWO32 && SIZE_OF_JMP <= Saved(m, o.pTrampoline) <= RESTORE_SIZE
    && o.pbTarget + WINDOW <= |m| && o.ppbPointer + 4 <= |m|
  }

  ghost predicate AllEditable(m: Memory, ops: seq<Operation>)
  {
    forall k :: 0 <= k < |ops| ==> Editable(m, ops[k])
  }

  // All edits of the operations in list order, as the trampolines in m determine them.
  ghost function EditsOf(m: Memory, ops: seq<Operation>): (r: seq<Edit>)
    requires AllEditable(m, ops)
    ensures forall k :: 0 <= k < |r| ==> r[k].a + |r[k].s| <= |m|
    decreases |ops|
  {
    if ops == [] then []
    else
      var n := |ops| - 1;
      assert Editable(m, ops[n]);
      EditsOf(m, ops[..n]) + [Edit(ops[n].pbTarget, TargetBytes(m, ops[n])), Edit(ops[n].ppbPointer, PointerBytes(ops[n]))]
  }

  ghost function Edited(m: Memory, es: seq<Edit>): (r: Memory)
    requires forall k :: 0 <= k < |es| ==> es[k].a + |es[k].s| <= |m|
    ensures |r| == |m|
    decreases |es|
  {
    if es == [] then m
    else
      var n := |es| - 1;
      Written(Edited(m, es[..n]), es[n].a, es[n].s)
  }

  lemma {:induction false} EditedTwo(m: Memory, es: seq<Edit>, x: Edit, y: Edit)
    requires forall k :: 0 <= k < |es| ==> es[k].a + |es[k].s| <= |m|
    requires x.a + |x.s| <= |m| && y.a + |y.s| <= |m|
    ensures Edited(m, es + [x, y]) == Written(Written(Edited(m, es), x.a, x.s), y.a, y.s)
  {
    var all := es + [x, y];
    assert all[..|all| - 1] == es + [x] && (es + [x])[..|es|] == es;
  }

  // The memory after the operations are carried out.
  ghost function Committed(m: Memory, ops: seq<Operation>): (r: Memory)
    requires AllEditable(m, ops)
    ensures |r| == |m|
  {
    Edited(m, EditsOf(m, ops))
  }

  lemma {:induction false} CommittedNext(m: Memory, ops: seq<Operation>, k: nat)
    requires AllEditable(m, ops) && k < |ops|
    ensures
      var o := ops[k];
      Committed(m, ops[..k + 1]) == Written(Written(Committed(m, ops[..k]), o.pbTarget, TargetBytes(m, o)), o.ppbPointer, PointerBytes(o))
  {
    hide TargetBytes, PointerBytes, Edited, Written;
    var o := ops[k];
    assert Editable(m, o) && ops[..k + 1][..k] == ops[..k];
    EditedTwo(m, EditsOf(m, ops[..k]), Edit(o.pbTarget, TargetBytes(m, o)), Edit(o.ppbPointer, PointerBytes(o)));
  }

  lemma {:induction false} OpsAreEditable(m: Memory, mapped: set<nat>, live: set<nat>, ops: seq<Operation>)
    requires |m| == TWO32 && forall k :: 0 <= k < |ops| ==> OpOk(m, mapped, live, ops[k])
    ensures AllEditable(m, ops)
  {
    hide U32At;
  }

  /** Commits write the program's memory only. */
  lemma {:induction false} CommitWritesMapped(m: Memory, mapped: set<nat>, live: set<nat>, ops: seq<Operation>)
    requires |m| == TWO32 && (forall k :: 0 <= k < |ops| ==> OpOk(m, mapped, live, ops[k])) && AllEditable(m, ops)
    ensures forall a :: 0 <= a < |m| && RegionOf(a) !in mapped ==> Committed(m, ops)[a] == m[a]
    decreases |ops|
  {
    hide RegionOf, TargetBytes, PointerBytes, EditsOf, Edited;
    if ops == [] {
      NothingCommitted(m);
    } else {
      var n := |ops| - 1;
      var o := ops[n];
      assert OpOk(m, mapped, live, o);
      CommitWritesMapped(m, mapped, live, ops[..n]);
      CommittedNext(m, ops, n);
      assert ops[..n + 1] == ops;
    }
  }

  lemma {:induction false} UnmappedSlotKept(m: Memory, m': Memory, mapped: set<nat>, p: nat)
    requires |m| == |m'| && forall a :: 0 <= a < |m| && RegionOf(a) !in mapped ==> m'[a] == m[a]
    requires IsSlot(RegionOf(p), p) && RegionOf(p) !in mapped
    ensures SameSlot(m, m', p)
  {
    hide IsSlot, RegionOf;
    forall a | p <= a < p + TRAMPOLINE_SIZE && a < |m|
      ensures m'[a] == m[a]
    {
      ByteOfSlot(p, a);
    }
  }

  lemma {:induction false} NothingCommitted(m: Memory)
    ensures Committed(m, []) == m
  {
  }

  predicate Disjoint(a: nat, n: nat, b: nat, k: nat) { a + n <= b || b + k <= a }

  // What the operation writes at its target does not meet what another writes at its own, or at its pointer.
  ghost predicate TargetsApart(m: Memory, o: Operation, q: Operation)
    requires Editable(m, o) && Editable(m, q)
  {
    Disjoint(o.pbTarget, Saved(m, o.pTrampoline), q.pbTarget, Saved(m, q.pTrampoline))
  }

  ghost predicate CellApart(m: Memory, o: Operation, q: Operation)
    requires Editable(m, o)
  {
    Disjoint(o.pbTarget, Saved(m, o.pTrampoline), q.ppbPointer, 4)
  }

  // The operations write different bytes.
  ghost predicate Separate(m: Memory, ops: seq<Operation>)
    requires AllEditable(m, ops)
  {
    && (forall i, j :: 0 <= i < |ops| && 0 <= j < |ops| ==> CellApart(m, ops[i], ops[j]))
    && (forall i, j :: 0 <= i < j < |ops| ==> TargetsApart(m, ops[i], ops[j]) && Disjoint(ops[i].ppbPointer, 4, ops[j].ppbPointer, 4))
  }

  /** Every operation that writes bytes of its own has its effect, whatever their order. */
  lemma {:induction false} SeparateAllTakeEffect(m: Memory, ops: seq<Operation>, k: nat)
    requires AllEditable(m, ops) && Separate(m, ops) && k < |ops|
    ensures Editable(m, ops[k])
    ensures Holds(Committed(m, ops), ops[k].pbTarget, TargetBytes(m, ops[k]))
    ensures Holds(Committed(m, ops), ops[k].ppbPointer, PointerBytes(ops[k]))
    decreases |ops|
  {
    hide TargetBytes, PointerBytes, EditsOf, Edited, Holds, Written, Committed;
    var n := |ops| - 1;
    var o := ops[n];
    assert Editable(m, o) && Editable(m, ops[k]);
    CommittedNext(m, ops, n);
    assert ops[..n + 1] == ops;
    var c := Committed(m, ops[..n]);
    var t, p := TargetBytes(m, o), PointerBytes(o);
    var c' := Written(c, o.pbTarget, t);
    assert CellApart(m, o, ops[k]) && CellApart(m, ops[k], o) && CellApart(m, o, o);
    if k == n {
      WrittenHolds(c, o.pbTarget, t);
      WrittenHolds(c', o.ppbPointer, p);
      HoldsAfterWrite(c', o.pbTarget, t, o.ppbPointer, p);
    } else {
      SeparateAllTakeEffect(m, ops[..n], k);
      var t', p' := TargetBytes(m, ops[k]), PointerBytes(ops[k]);
      assert ops[..n][k] == ops[k] && TargetsApart(m, ops[k], o);
      HoldsAfterWrite(c, ops[k].pbTarget, t', o.pbTarget, t);
      HoldsAfterWrite(c', ops[k].pbTarget, t', o.ppbPointer, p);
      HoldsAfterWrite(c, ops[k].ppbPointer, p', o.pbTarget, t);
      HoldsAfterWrite(c', ops[k].ppbPointer, p', o.ppbPointer, p);
    }
  }

  // What the last edit of the list that covers address a writes there.
  ghost function LastByte(es: seq<Edit>, a: nat): Option<Byte>
    decreases |es|
  {
    if es == [] then None
    else
      var e := es[|es| - 1];
      if e.a <= a < e.a + |e.s| then Some(e.s[a - e.a]) else LastByte(es[..|es| - 1], a)
  }

  lemma {:induction false} WrittenAt(m: Memory, a: nat, s: seq<Byte>, x: nat)
    requires a + |s| <= |m| && x < |m|
    ensures Written(m, a, s)[x] == if a <= x < a + |s| then s[x - a] else m[x]
  {
  }

  lemma {:induction false} EditedAt(m: Memory, es: seq<Edit>, a: nat)
    requires (forall k :: 0 <= k < |es| ==> es[k].a + |es[k].s| <= |m|) && a < |m|
    ensures Edited(m, es)[a] == match LastByte(es, a) case None => m[a] case Some(b) => b
    decreases |es|
  {
    hide Written;
    if es != [] {
      var n := |es| - 1;
      EditedAt(m, es[..n], a);
      WrittenAt(Edited(m, es[..n]), es[n].a, es[n].s, a);
    }
  }

  lemma {:induction false} LastOfBoth(es: seq<Edit>, later: seq<Edit>, a: nat)
    ensures LastByte(es + later, a) == if LastByte(later, a).Some? then LastByte(later, a) else LastByte(es, a)
    decreases |later|
  {
    var all := es + later;
    if later == [] {
      assert all == es;
    } else {
      assert all[|all| - 1] == later[|later| - 1] && all[..|all| - 1] == es + later[..|later| - 1];
      LastOfBoth(es, later[..|later| - 1], a);
    }
  }

  // No later edit leaves another byte where edit j writes: the last one to cover it agrees.
  ghost predicate Stands(es: seq<Edit>, j: nat)
    requires j < |es|
  {
    forall i :: 0 <= i < |es[j].s| ==> LastByte(es[j + 1..], es[j].a + i) in {None, Some(es[j].s[i])}
  }

  /** What an edit has written is there in the end if and only if it stands. */
  lemma {:induction false} EditStands(m: Memory, es: seq<Edit>, j: nat)
    requires (forall k :: 0 <= k < |es| ==> es[k].a + |es[k].s| <= |m|) && j < |es|
    ensures Holds(Edited(m, es), es[j].a, es[j].s) <==> Stands(es, j)
  {
    hide Edited, LastByte;
    var e := es[j];
    forall i | 0 <= i < |e.s|
      ensures Edited(m, es)[e.a + i] == e.s[i] <==> LastByte(es[j + 1..], e.a + i) in {None, Some(e.s[i])}
    {
      EditedAt(m, es, e.a + i);
      assert es == es[..j + 1] + es[j + 1..];
      LastOfBoth(es[..j + 1], es[j + 1..], e.a + i);
      LastIsOwn(es, j, i);
    }
  }

  lemma {:induction false} LastIsOwn(es: seq<Edit>, j: nat, i: nat)
    requires j < |es| && i < |es[j].s|
    ensures LastByte(es[..j + 1], es[j].a + i) == Some(es[j].s[i])
  {
    assert es[..j + 1][|es[..j + 1]| - 1] == es[j];
  }

  lemma {:induction false} EditsOfAt(m: Memory, ops: seq<Operation>, k: nat)
    requires AllEditable(m, ops) && k < |ops|
    ensures |EditsOf(m, ops)| == 2 * |ops| && Editable(m, ops[k])
    ensures EditsOf(m, ops)[2 * k] == Edit(ops[k].pbTarget, TargetBytes(m, ops[k]))
    ensures EditsOf(m, ops)[2 * k + 1] == Edit(ops[k].ppbPointer, PointerBytes(ops[k]))
    decreases |ops|
  {
    hide TargetBytes, PointerBytes;
    var n := |ops| - 1;
    if n == 0 {
      assert ops[..0] == [] && EditsOf(m, ops[..0]) == [];
    } else if k < n {
      EditsOfAt(m, ops[..n], k);
    } else {
      EditsOfAt(m, ops[..n], 0);
    }
  }

  /**
   In any transaction, an operation's bytes are at its target after the commit if and only if the last later
   write to each of them agrees; the operations are carried out newest first, so older ones come later.
   */
  lemma {:induction false} OperationStands(m: Memory, ops: seq<Operation>, k: nat)
    requires AllEditable(m, ops) && k < |ops|
    ensures |EditsOf(m, ops)| == 2 * |ops| && Editable(m, ops[k])
    ensures Holds(Committed(m, ops), ops[k].pbTarget, TargetBytes(m, ops[k])) <==> Stands(EditsOf(m, ops), 2 * k)
    ensures Holds(Committed(m, ops), ops[k].ppbPointer, PointerBytes(ops[k])) <==> Stands(EditsOf(m, ops), 2 * k + 1)
  {
    hide TargetBytes, PointerBytes, EditsOf, Edited, Stands, Holds;
    EditsOfAt(m, ops, k);
    EditStands(m, EditsOf(m, ops), 2 * k);
    EditStands(m, EditsOf(m, ops), 2 * k + 1);
  }

  // Two writes agree where they overlap.
  ghost predicate Agree(a: nat, s: seq<Byte>, b: nat, t: seq<Byte>)
  {
    forall i :: 0 <= i < |s| && b <= a + i < b + |t| ==> s[i] == t[a + i - b]
  }

  /** Of two operations, at any two targets, the newer one's bytes stand if and only if the older one's agree with them. */
  lemma {:induction false} NewerStandsIffAgreed(m: Memory, newer: Operation, older: Operation)
    requires Editable(m, newer) && Editable(m, older) && CellApart(m, newer, newer) && CellApart(m, newer, older)
    ensures AllEditable(m, [newer, older])
    ensures Holds(Committed(m, [newer, older]), newer.pbTarget, TargetBytes(m, newer)) <==>
            Agree(newer.pbTarget, TargetBytes(m, newer), older.pbTarget, TargetBytes(m, older))
  {
    hide TargetBytes, PointerBytes, Committed, EditsOf, LastByte, Holds;
    var ops := [newer, older];
    var t, t' := TargetBytes(m, newer), TargetBytes(m, older);
    OperationStands(m, ops, 0);
    EditsOfAt(m, ops, 0);
    EditsOfAt(m, ops, 1);
    var es := EditsOf(m, ops);
    var x, y, z := es[1], es[2], es[3];
    assert es[1..] == [x, y, z];
    if Agree(newer.pbTarget, t, y.a, t') {
      forall i | 0 <= i < |t|
        ensures LastByte(es[1..], es[0].a + i) in {None, Some(es[0].s[i])}
      {
        LastOfThree(x, y, z, newer.pbTarget + i);
      }
    }
    if Stands(es, 0) {
      forall i | 0 <= i < |t| && y.a <= newer.pbTarget + i < y.a + |t'|
        ensures t[i] == t'[newer.pbTarget + i - y.a]
      {
        LastOfThree(x, y, z, newer.pbTarget + i);
        assert LastByte(es[1..], es[0].a + i) in {None, Some(es[0].s[i])};
      }
    }
  }

  lemma {:induction false} LastOfThree(x: Edit, y: Edit, z: Edit, a: nat)
    requires !(x.a <= a < x.a + |x.s|) && !(z.a <= a < z.a + |z.s|)
    ensures LastByte([x, y, z], a) == if y.a <= a < y.a + |y.s| then Some(y.s[a - y.a]) else None
  {
    var three, two, one := [x, y, z], [x, y], [x];
    assert one[..0] == [] && two[..1] == one && three[..2] == two;
    assert LastByte(one[..0], a) == None;
    assert LastByte(one, a) == None;
    assert LastByte(two, a) == if y.a <= a < y.a + |y.s| then Some(y.s[a - y.a]) else None;
  }

  /**
   Two attachments to one target in one transaction: the older is carried out last, so the target jumps
   to its detour. The newer detour is entered if and only if it is the same.
   */
  lemma {:induction false} SameTargetOldestWins(m: Memory, newer: Operation, older: Operation)
    requires Editable(m, newer) && Editable(m, older) && newer.pbTarget == older.pbTarget && !older.fIsRemove && !newer.fIsRemove
    requires CellApart(m, newer, newer) && CellApart(m, newer, older) && CellApart(m, older, newer) && CellApart(m, older, older)
    ensures AllEditable(m, [newer, older])
    ensures
      var r := Committed(m, [newer, older]);
      var d, d' := U32At(m, newer.pTrampoline + PB_DETOUR), U32At(m, older.pTrampoline + PB_DETOUR);
      && Holds(r, older.pbTarget, JumpBytes(older.pbTarget, d'))
      && (Holds(r, newer.pbTarget, JumpBytes(newer.pbTarget, d)) <==> d == d')
  {
    hide EditsOf, Edited, Written, Committed, JumpBytes, Breaks, U32At, TargetBytes, PointerBytes, Holds;
    var ops, t := [newer, older], older.pbTarget;
    var d, d' := U32At(m, newer.pTrampoline + PB_DETOUR), U32At(m, older.pTrampoline + PB_DETOUR);
    CommittedNext(m, ops, 1);
    assert ops[..1] == [newer] && ops[..2] == ops;
    var c := Committed(m, [newer]);
    var c1, p := Written(c, t, TargetBytes(m, older)), PointerBytes(older);
    AttachBytes(m, older);
    WrittenHolds(c, t, TargetBytes(m, older));
    HoldsBoth(c1, t, JumpBytes(t, d'), Breaks(Saved(m, older.pTrampoline) - SIZE_OF_JMP));
    HoldsAfterWrite(c1, t, JumpBytes(t, d'), older.ppbPointer, p);
    var r := Committed(m, ops);
    if Holds(r, t, JumpBytes(t, d)) {
      JumpsToOne(r, t, d, d');
    }
  }

  lemma {:induction false} JumpsToOne(m: Memory, t: nat, d: Word, d': Word)
    requires Holds(m, t, JumpBytes(t, d)) && Holds(m, t, JumpBytes(t, d'))
    ensures d == d'
  {
    hide Decode, DecodeAt, Target;
    var i := JumpDecodes(m, t, d);
    var i' := JumpDecodes(m, t, d');
    assert Wrap(d) == d && Wrap(d') == d';
  }

  lemma {:induction false} AttachBytes(m: Memory, o: Operation)
    requires Editable(m, o) && !o.fIsRemove
    ensures TargetBytes(m, o) == JumpBytes(o.pbTarget, U32At(m, o.pTrampoline + PB_DETOUR)) + Breaks(Saved(m, o.pTrampoline) - SIZE_OF_JMP)
    ensures PointerBytes(o) == Le32(o.pTrampoline)
  {
    hide JumpBytes, Breaks, Le32, U32At;
  }
}
