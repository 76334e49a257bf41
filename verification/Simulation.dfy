/**
 Running the trampoline is running the prologue. The processor is modelled by its control flow; what
 instructions do to registers, flags and data is left to uninterpreted functions.
 */
module Simulation {
  import opened Words
  import opened IntelDecoder
  import opened Relocation
  import opened Meaning
  import opened Prologue
  import opened MovedCode

  // The data effect of an instruction, given its bytes, with that of what an indirect call runs; where a
  // departing instruction goes; whether a conditional transfer is taken; and a whole call, from the call
  // instruction to its return. All but the test see the memory they run in, its code included. None can
  // see EIP, so a call is known by its target and not by the return address it pushes.
  datatype Processor<!D> = Processor(
    effect: (Memory, seq<Byte>, D) -> D,
    departure: (Memory, seq<Byte>, D) -> (Word, D),
    taken: (Flow, D) -> (bool, D),
    call: (Memory, Word, D) -> D)

  datatype Event = Ran(bytes: seq<Byte>) | Decided(flow: Flow, target: Word, taken: bool) | Called(target: Word)

  // away: control was transferred, as opposed to falling through or returning to the next instruction.
  datatype Step<D> = Step(eip: Word, data: D, event: Event, away: bool)

  function Execute<D>(cpu: Processor<D>, m: Memory, eip: nat, d: D): Option<Step<D>>
  {
    match DecodeAt(m, eip)
    case None => None
    case Some(i) =>
      var bytes := m[eip..eip + i.length];
      var next := Wrap(eip + i.length);
      match i.control
      case Sequential => Some(Step(next, cpu.effect(m, bytes, d), Ran(bytes), false))
      case Departs => var (to, d') := cpu.departure(m, bytes, d); Some(Step(to, d', Ran(bytes), true))
      case Relative(_, flow, _) =>
        var to := Target(i, eip);
        if flow.Call? then Some(Step(next, cpu.call(m, to, d), Called(to), false))
        else if flow.Jump? then Some(Step(to, d, Decided(flow, to, true), true))
        else
          var (taken, d') := cpu.taken(flow, d);
          Some(Step(if taken then to else next, d', Decided(flow, to, taken), taken))
  }

  // Where a run over a piece of code leaves it, with what data, and what it did.
  datatype Exit<D> = Exit(eip: Word, data: D, away: bool, events: seq<Event>)

  function After<D>(s: Step<D>, rest: Option<Exit<D>>): Option<Exit<D>>
  {
    if s.away then Some(Exit(s.eip, s.data, true, [s.event]))
    else if rest.None? then None
    else Some(rest.value.(events := [s.event] + rest.value.events))
  }

  // Runs from eip until control is transferred or falls through to limit.
  function Run<D>(cpu: Processor<D>, m: Memory, eip: nat, d: D, limit: nat, fuel: nat): Option<Exit<D>>
    decreases fuel
  {
    if eip == limit then Some(Exit(Wrap(eip), d, false, []))
    else if fuel == 0 then None
    else
      match Execute(cpu, m, eip, d)
      case None => None
      case Some(s) => After(s, if s.away then None else Run(cpu, m, s.eip, s.data, limit, fuel - 1))
  }

  // The original's instruction at eip acts the same in the changed memory m: what it reads there, and all
  // the code a call runs, makes no difference to its effect.
  ghost predicate AlikeAt<D>(cpu: Processor<D>, code: Memory, m: Memory, eip: nat, d: D)
    requires DecodeAt(code, eip).Some?
  {
    var i := DecodeAt(code, eip).value;
    var bytes := code[eip..eip + i.length];
    match i.control
    case Sequential => cpu.effect(m, bytes, d) == cpu.effect(code, bytes, d)
    case Departs => cpu.departure(m, bytes, d) == cpu.departure(code, bytes, d)
    case Relative(_, flow, _) => flow.Call? ==> cpu.call(m, Target(i, eip), d) == cpu.call(code, Target(i, eip), d)
  }

  // All instructions that a run of the original executes up to limit act the same in m.
  ghost predicate AlikeRun<D>(cpu: Processor<D>, code: Memory, m: Memory, eip: nat, d: D, limit: nat, fuel: nat)
    decreases fuel
  {
    eip != limit && fuel > 0 && DecodeAt(code, eip).Some? ==>
      && AlikeAt(cpu, code, m, eip, d)
      && var s := Execute(cpu, code, eip, d).value;
         s.away || AlikeRun(cpu, code, m, s.eip, s.data, limit, fuel - 1)
  }

  /**
   A faithful copy does what the original does and goes where it goes, or on to what follows it, if and only
   if the instruction acts the same in the changed memory.
   */
  lemma {:induction false} CopySimulates<D>(cpu: Processor<D>, code: Memory, src: nat, i: Insn, m: Memory, dst: nat, d: D)
    requires DecodeAt(code, src) == Some(i) && Faithful(i, dst - src)
    requires Holds(m, dst, Emitted(code, src, i, dst - src))
    requires i.control.Relative? ==> !i.control.flow.Transaction?
    ensures Execute(cpu, code, src, d).Some? && Execute(cpu, m, dst, d).Some?
    ensures
      var s, t := Execute(cpu, code, src, d).value, Execute(cpu, m, dst, d).value;
      && t.event == s.event && t.away == s.away
      && (t.data == s.data && (s.away ==> t.eip == s.eip) <==> AlikeAt(cpu, code, m, src, d))
      && (!s.away ==> s.eip == Wrap(src + i.length) && t.eip == Wrap(dst + i.length + Extra(i, dst - src)))
  {
    hide Emitted, EmittedLength, Extra, Copy, Holds, WellFormed, DecodeAt, Target;
    DecodedIsWellFormed(code, src, i);
    CopyKeepsMeaning(code, src, i, m, dst);
    if !i.control.Relative? {
      SameText(code, src, i, m, dst);
    }
  }

  lemma {:induction false} DecodedIsWellFormed(m: Memory, a: nat, i: Insn)
    requires DecodeAt(m, a) == Some(i)
    ensures WellFormed(i) && a + i.length <= |m|
  {
  }

  lemma {:induction false} SameText(code: Memory, src: nat, i: Insn, m: Memory, dst: nat)
    requires WellFormed(i) && src + i.length <= |code| && !i.control.Relative?
    requires Holds(m, dst, Emitted(code, src, i, dst - src))
    ensures dst + i.length <= |m| && m[dst..dst + i.length] == code[src..src + i.length]
    ensures Extra(i, dst - src) == 0
  {
    assert Emitted(code, src, i, dst - src) == code[src..src + i.length];
  }

  // The prologue from instruction k on acts the same in m.
  ghost predicate PrologueAlike<D>(cpu: Processor<D>, code: Memory, m: Memory, target: nat, plan: seq<Insn>, k: nat, d: D, fuel: nat)
    requires k <= |plan|
  {
    AlikeRun(cpu, code, m, target + SourceOffset(plan, k), d, target + SourceOffset(plan, |plan|), fuel)
  }

  // The run of the original from instruction k to the end of the plan, and that of the moved code.
  ghost predicate SameRun<D>(cpu: Processor<D>, code: Memory, target: nat, m: Memory, tramp: nat, plan: seq<Insn>, k: nat, d: D,
                             fuel: nat)
    requires k <= |plan|
  {
    var n := |plan|;
    var s := Run(cpu, code, target + SourceOffset(plan, k), d, target + SourceOffset(plan, n), fuel);
    var t := Run(cpu, m, tramp + CodeOffset(plan, k), d, tramp + CodeOffset(plan, n), fuel);
    && s.Some? && t.Some?
    && t.value.data == s.value.data && t.value.events == s.value.events && t.value.away == s.value.away
    && (if s.value.away then t.value.eip == s.value.eip
        else s.value.eip == target + SourceOffset(plan, n) && t.value.eip == tramp + CodeOffset(plan, n))
  }

  /**
   The moved instructions do what the prologue does: the same instructions in the same order on the same
   data, the same calls, and branches to the same addresses; or both fall through at their ends. That
   holds as long as the instructions and the calls act the same in the changed memory.
   */
  lemma {:induction false} MovedCodeSimulates<D>(cpu: Processor<D>, code: Memory, target: nat, m: Memory, tramp: nat,
                                                 plan: seq<Insn>, k: nat, d: D, fuel: nat)
    requires Planned(code, target, plan) && forall j :: 0 <= j < |plan| ==> CopiedAt(code, target, m, tramp, plan, j)
    requires k <= |plan| && |plan| - k <= fuel
    requires target + SourceOffset(plan, |plan|) < TWO32 && tramp + CodeOffset(plan, |plan|) < TWO32
    requires PrologueAlike(cpu, code, m, target, plan, k, d, fuel)
    ensures SameRun(cpu, code, target, m, tramp, plan, k, d, fuel)
    decreases |plan| - k
  {
    hide AlikeAt, Emitted, EmittedLength, Extra, Movable, WellFormed, DecodeAt, Faithful, SourceOffset, CodeOffset, Planned, Execute, After;
    PlanIsSized(code, target, plan);
    if k < |plan| {
      var src, dst := target + SourceOffset(plan, k), tramp + CodeOffset(plan, k);
      PlannedAt(code, target, plan, k);
      NextOffset(plan, k);
      MovableIsFaithful(plan[k], dst - src);
      assert CopiedAt(code, target, m, tramp, plan, k);
      MovableIsNoTransaction(plan[k]);
      CopySimulates(cpu, code, src, plan[k], m, dst, d);
      OffsetsIncrease(plan, k, |plan|);
      SourceOrdered(plan, k + 1, |plan|);
      var s := Execute(cpu, code, src, d).value;
      assert AlikeAt(cpu, code, m, src, d);
      if !s.away {
        assert s.eip == target + SourceOffset(plan, k + 1);
        MovedCodeSimulates(cpu, code, target, m, tramp, plan, k + 1, s.data, fuel - 1);
      }
      SameRunStep(cpu, code, target, m, tramp, plan, k, d, fuel);
    }
  }

  // One simulated step before a simulated run.
  lemma {:induction false} SameRunStep<D>(cpu: Processor<D>, code: Memory, target: nat, m: Memory, tramp: nat,
                                          plan: seq<Insn>, k: nat, d: D, fuel: nat)
    requires Sized(plan) && k < |plan| && 0 < fuel
    requires target + SourceOffset(plan, |plan|) < TWO32 && tramp + CodeOffset(plan, |plan|) < TWO32
    requires
      var src, dst := target + SourceOffset(plan, k), tramp + CodeOffset(plan, k);
      var s, t := Execute(cpu, code, src, d), Execute(cpu, m, dst, d);
      && s.Some? && t.Some?
      && t.value.event == s.value.event && t.value.data == s.value.data && t.value.away == s.value.away
      && (s.value.away ==> t.value.eip == s.value.eip)
      && (!s.value.away ==>
            && s.value.eip == Wrap(target + SourceOffset(plan, k + 1))
            && t.value.eip == Wrap(tramp + CodeOffset(plan, k + 1))
            && SameRun(cpu, code, target, m, tramp, plan, k + 1, s.value.data, fuel - 1))
    ensures SameRun(cpu, code, target, m, tramp, plan, k, d, fuel)
  {
    hide Execute, EmittedLength, SourceOffset, CodeOffset, Movable, WellFormed;
    OffsetsIncrease(plan, k, |plan|);
    Ordered(plan, k + 1, |plan|);
    SourceOrdered(plan, k + 1, |plan|);
    var s := Execute(cpu, code, target + SourceOffset(plan, k), d).value;
    assert !s.away ==> s.eip == target + SourceOffset(plan, k + 1);
  }

  lemma {:induction false} MovableIsNoTransaction(i: Insn)
    requires Movable(i)
    ensures i.control.Relative? ==> !i.control.flow.Transaction?
  {
  }

  lemma {:induction false} SourceOrdered(plan: seq<Insn>, j: nat, k: nat)
    requires Sized(plan) && j <= k <= |plan|
    ensures SourceOffset(plan, j) <= SourceOffset(plan, k)
  {
    if j < k {
      OffsetsIncrease(plan, j, k);
    }
  }

  // detour_gen_jmp_immediate.
  function JumpBytes(a: nat, to: int): (s: seq<Byte>)
    ensures |s| == SIZE_OF_JMP
  {
    [0xE9] + Le32(Wrap(to - (a + SIZE_OF_JMP)))
  }

  /** The generated jump goes to its target modulo 2^32 and touches nothing else. */
  lemma {:induction false} JumpGoes<D>(cpu: Processor<D>, m: Memory, a: nat, to: int, d: D)
    requires Holds(m, a, JumpBytes(a, to))
    ensures DecodeAt(m, a).Some? && DecodeAt(m, a).value.length == SIZE_OF_JMP
    ensures DecodeAt(m, a).value.control.Relative? && DecodeAt(m, a).value.control.flow.Jump?
    ensures Execute(cpu, m, a, d) == Some(Step(Wrap(to), d, Decided(Jump, Wrap(to), true), true))
  {
    hide Execute, DecodeAt, Decode;
    var i := JumpDecodes(m, a, to);
    JumpRuns(cpu, m, a, i, d);
  }

  lemma {:induction false} JumpDecodes(m: Memory, a: nat, to: int) returns (i: Insn)
    requires Holds(m, a, JumpBytes(a, to))
    ensures DecodeAt(m, a) == Some(i) && i.length == SIZE_OF_JMP
    ensures i.control.Relative? && i.control.flow.Jump? && Target(i, a) == Wrap(to)
  {
    var s := JumpBytes(a, to);
    assert m[a] == s[0];
    HoldsBoth(m, a, [0xE9], Le32(Wrap(to - (a + SIZE_OF_JMP))));
    Holds32(m, a + 1, Wrap(to - (a + SIZE_OF_JMP)));
    i := DecodeAt(m, a).value;
    WrapAdd(a + SIZE_OF_JMP, to - (a + SIZE_OF_JMP));
  }

  lemma {:induction false} JumpRuns<D>(cpu: Processor<D>, m: Memory, a: nat, i: Insn, d: D)
    requires DecodeAt(m, a) == Some(i) && i.control.Relative? && i.control.flow.Jump?
    ensures Execute(cpu, m, a, d) == Some(Step(Target(i, a), d, Decided(Jump, Target(i, a), true), true))
  {
    hide Decode, DecodeAt, Target;
  }

  // The trampoline's code: the moved plan and a jump to the first byte that was not taken.
  ghost predicate CodeOf(code: Memory, target: nat, m: Memory, tramp: nat, plan: seq<Insn>, cbTarget: nat)
  {
    && Planned(code, target, plan) && 0 < |plan|
    && |code| == |m| && |code| <= TWO32
    && (forall k :: 0 <= k < |plan| ==> CopiedAt(code, target, m, tramp, plan, k))
    && cbTarget == FillerEnd(code, target, SourceOffset(plan, |plan|))
    && target + cbTarget < TWO32 && tramp + CodeOffset(plan, |plan|) + SIZE_OF_JMP < TWO32
    && Holds(m, tramp + CodeOffset(plan, |plan|), JumpBytes(tramp + CodeOffset(plan, |plan|), target + cbTarget))
  }

  // n single steps of a run that is not interrupted.
  function Steps<D>(cpu: Processor<D>, m: Memory, eip: Word, d: D, n: nat): Option<(Word, D)>
    decreases n
  {
    if n == 0 then Some((eip, d))
    else
      match Execute(cpu, m, eip, d)
      case None => None
      case Some(s) => Steps(cpu, m, s.eip, s.data, n - 1)
  }

  lemma {:induction false} StepsCompose<D>(cpu: Processor<D>, m: Memory, eip: Word, d: D, j: nat, n: nat)
    requires Steps(cpu, m, eip, d, j).Some?
    ensures
      var (e, x) := Steps(cpu, m, eip, d, j).value;
      Steps(cpu, m, eip, d, j + n) == Steps(cpu, m, e, x, n)
    decreases j
  {
    hide Execute;
    if j > 0 {
      var s := Execute(cpu, m, eip, d).value;
      StepsCompose(cpu, m, s.eip, s.data, j - 1, n);
    }
  }

  lemma {:induction false} RunIsSteps<D>(cpu: Processor<D>, m: Memory, eip: Word, d: D, limit: nat, fuel: nat)
    requires Run(cpu, m, eip, d, limit, fuel).Some?
    ensures
      var x := Run(cpu, m, eip, d, limit, fuel).value;
      Steps(cpu, m, eip, d, |x.events|) == Some((x.eip, x.data))
    decreases fuel
  {
    hide Execute;
    if eip != limit {
      var s := Execute(cpu, m, eip, d).value;
      if s.away {
        assert Steps(cpu, m, s.eip, s.data, 0).Some?;
      } else {
        RunIsSteps(cpu, m, s.eip, s.data, limit, fuel - 1);
      }
    }
  }

  // A plan that ends in a jump or a departure is never left at its end.
  lemma {:induction false} RunGoesAway<D>(cpu: Processor<D>, code: Memory, target: nat, plan: seq<Insn>, k: nat, d: D, fuel: nat)
    requires Planned(code, target, plan) && k < |plan| && NeverFallsThrough(plan[|plan| - 1])
    requires target + SourceOffset(plan, |plan|) < TWO32 && |plan| - k <= fuel
    requires Run(cpu, code, target + SourceOffset(plan, k), d, target + SourceOffset(plan, |plan|), fuel).Some?
    ensures Run(cpu, code, target + SourceOffset(plan, k), d, target + SourceOffset(plan, |plan|), fuel).value.away
    decreases |plan| - k
  {
    hide Planned, SourceOffset, DecodeAt, Movable, WellFormed, NeverFallsThrough, Target, Execute;
    PlanIsSized(code, target, plan);
    PlannedAt(code, target, plan, k);
    NextOffset(plan, k);
    OffsetsIncrease(plan, k, |plan|);
    SourceOrdered(plan, k + 1, |plan|);
    var s := Execute(cpu, code, target + SourceOffset(plan, k), d).value;
    if k == |plan| - 1 {
      NeverFallsIsAway(cpu, code, target + SourceOffset(plan, k), plan[k], d);
    } else if !s.away {
      FallsBehind(cpu, code, target + SourceOffset(plan, k), plan[k], d);
      RunGoesAway(cpu, code, target, plan, k + 1, s.data, fuel - 1);
    }
  }

  lemma {:induction false} FallsBehind<D>(cpu: Processor<D>, m: Memory, a: nat, i: Insn, d: D)
    requires DecodeAt(m, a) == Some(i) && a + i.length < TWO32 && Execute(cpu, m, a, d).Some? && !Execute(cpu, m, a, d).value.away
    ensures Execute(cpu, m, a, d).value.eip == a + i.length
  {
    hide DecodeAt, Decode, Target;
  }

  lemma {:induction false} NeverFallsIsAway<D>(cpu: Processor<D>, m: Memory, a: nat, i: Insn, d: D)
    requires DecodeAt(m, a) == Some(i) && NeverFallsThrough(i)
    ensures Execute(cpu, m, a, d).Some? && Execute(cpu, m, a, d).value.away
  {
    hide DecodeAt, Decode;
  }

  // How the prologue at target is left.
  function PrologueExit<D>(cpu: Processor<D>, code: Memory, target: nat, plan: seq<Insn>, d: D): Option<Exit<D>>
  {
    Run(cpu, code, target, d, target + SourceOffset(plan, |plan|), |plan|)
  }

  /**
   Running the trampoline meets the original run where that leaves the prologue: in the same number of
   steps, one more for the jump back if it fell through, at the same address, with the same data, having
   done the same things in the same order.
   */
  lemma {:induction false} TrampolineIsPrologue<D>(cpu: Processor<D>, code: Memory, target: nat, m: Memory, tramp: nat,
                                                   plan: seq<Insn>, cbTarget: nat, d: D)
    requires CodeOf(code, target, m, tramp, plan, cbTarget) && PrologueAlike(cpu, code, m, target, plan, 0, d, |plan|)
    ensures PrologueExit(cpu, code, target, plan, d).Some?
    ensures
      var x := PrologueExit(cpu, code, target, plan, d).value;
      var t := Run(cpu, m, tramp, d, tramp + CodeOffset(plan, |plan|), |plan|);
      && (!x.away ==> x.eip == target + cbTarget)
      && t.Some? && t.value.events == x.events
      && Steps(cpu, code, target, d, |x.events|) == Some((x.eip, x.data))
      && Steps(cpu, m, tramp, d, |x.events| + (if x.away then 0 else 1)) == Some((x.eip, x.data))
  {
    hide Execute, Steps, Run, Planned, CopiedAt, CodeOffset, SourceOffset, FillerEnd, JumpBytes, Holds, NeverFallsThrough, AlikeRun;
    var n := |plan|;
    var end := tramp + CodeOffset(plan, n);
    PlanStarts(code, target, tramp, plan);
    FillerGrows(code, target, SourceOffset(plan, n));
    MovedCodeSimulates(cpu, code, target, m, tramp, plan, 0, d, n);
    var x := Run(cpu, code, target, d, target + SourceOffset(plan, n), n).value;
    var t := Run(cpu, m, tramp, d, end, n).value;
    RunIsSteps(cpu, code, target, d, target + SourceOffset(plan, n), n);
    RunIsSteps(cpu, m, tramp, d, end, n);
    if !x.away {
      if cbTarget != SourceOffset(plan, n) {
        FillerIsDead(code, target, plan);
        RunGoesAway(cpu, code, target, plan, 0, d, n);
      }
      JumpGoes(cpu, m, end, target + cbTarget, t.data);
      OneStep(cpu, m, t.eip, t.data);
      StepsCompose(cpu, m, tramp, d, |t.events|, 1);
    }
  }

  lemma {:induction false} OneStep<D>(cpu: Processor<D>, m: Memory, eip: Word, d: D)
    requires Execute(cpu, m, eip, d).Some?
    ensures Steps(cpu, m, eip, d, 1) == Some((Execute(cpu, m, eip, d).value.eip, Execute(cpu, m, eip, d).value.data))
  {
    hide Execute;
    var s := Execute(cpu, m, eip, d).value;
    assert Steps(cpu, m, s.eip, s.data, 0) == Some((s.eip, s.data));
  }

  lemma {:induction false} PlanStarts(code: Memory, target: nat, tramp: nat, plan: seq<Insn>)
    requires Planned(code, target, plan) && 0 < |plan|
    ensures SourceOffset(plan, 0) == 0 && CodeOffset(plan, 0) == 0
  {
  }

  lemma {:induction false} FillerGrows(m: Memory, target: nat, cb: nat)
    ensures cb <= FillerEnd(m, target, cb)
  {
  }

  // In the next n steps the original runs only code that m has unchanged, and all of it acts the same in m.
  ghost predicate Untouched<D>(cpu: Processor<D>, code: Memory, m: Memory, eip: Word, d: D, n: nat)
    decreases n
  {
    n > 0 ==>
      && DecodeAt(code, eip).Some?
      && SameBytes(code, eip, m, eip, DecodeAt(code, eip).value.length)
      && AlikeAt(cpu, code, m, eip, d)
      && var s := Execute(cpu, code, eip, d).value;
         Untouched(cpu, code, m, s.eip, s.data, n - 1)
  }

  lemma {:induction false} UntouchedRunsAlike<D>(cpu: Processor<D>, code: Memory, m: Memory, eip: Word, d: D, n: nat)
    requires Untouched(cpu, code, m, eip, d, n)
    ensures Steps(cpu, m, eip, d, n) == Steps(cpu, code, eip, d, n)
    decreases n
  {
    hide Execute, AlikeAt, Decode, SameBytes;
    if n > 0 {
      SameExecute(cpu, code, m, eip, d);
      var s := Execute(cpu, code, eip, d).value;
      UntouchedRunsAlike(cpu, code, m, s.eip, s.data, n - 1);
    }
  }

  lemma {:induction false} SameExecute<D>(cpu: Processor<D>, code: Memory, m: Memory, eip: Word, d: D)
    requires DecodeAt(code, eip).Some? && SameBytes(code, eip, m, eip, DecodeAt(code, eip).value.length)
    ensures Execute(cpu, code, eip, d).Some? && Execute(cpu, m, eip, d).Some?
    ensures Execute(cpu, m, eip, d) == Execute(cpu, code, eip, d) <==> AlikeAt(cpu, code, m, eip, d)
  {
    hide Decode;
    var i := DecodeAt(code, eip).value;
    DecodeIsLocal(code, eip, m, eip, NO_PREFIXES, i);
    assert m[eip..eip + i.length] == code[eip..eip + i.length];
  }

  /** The first instruction that does not act the same is where the runs part. */
  lemma {:induction false} RunsPartWhereUnlike<D>(cpu: Processor<D>, code: Memory, m: Memory, eip: Word, d: D, n: nat)
    requires Untouched(cpu, code, m, eip, d, n)
    ensures Steps(cpu, code, eip, d, n).Some?
    ensures
      var (e, x) := Steps(cpu, code, eip, d, n).value;
      DecodeAt(code, e).Some? && SameBytes(code, e, m, e, DecodeAt(code, e).value.length) ==>
        (Steps(cpu, m, eip, d, n + 1) == Steps(cpu, code, eip, d, n + 1) <==> AlikeAt(cpu, code, m, e, x))
    decreases n
  {
    hide Execute, AlikeAt, Decode, SameBytes;
    if n == 0 {
      if DecodeAt(code, eip).Some? && SameBytes(code, eip, m, eip, DecodeAt(code, eip).value.length) {
        SameExecute(cpu, code, m, eip, d);
        OneStep(cpu, code, eip, d);
        OneStep(cpu, m, eip, d);
        StepsShowAlike(cpu, code, m, eip, d);
      }
    } else {
      SameExecute(cpu, code, m, eip, d);
      var s := Execute(cpu, code, eip, d).value;
      RunsPartWhereUnlike(cpu, code, m, s.eip, s.data, n - 1);
    }
  }

  // The event and whether control is transferred are the same in any case.
  lemma {:induction false} StepsShowAlike<D>(cpu: Processor<D>, code: Memory, m: Memory, eip: Word, d: D)
    requires DecodeAt(code, eip).Some? && SameBytes(code, eip, m, eip, DecodeAt(code, eip).value.length)
    requires Execute(cpu, code, eip, d).Some? && Execute(cpu, m, eip, d).Some?
    ensures
      var s, t := Execute(cpu, code, eip, d).value, Execute(cpu, m, eip, d).value;
      t == s <==> t.eip == s.eip && t.data == s.data
  {
    hide Decode;
    var i := DecodeAt(code, eip).value;
    DecodeIsLocal(code, eip, m, eip, NO_PREFIXES, i);
    assert m[eip..eip + i.length] == code[eip..eip + i.length];
  }

  /**
   Where the original goes on into bytes that were changed, the hooked program runs what stands there now. If it goes
   back to the target's first byte, that is the jump to the detour, and the runs part there unless the original's
   instruction there has no effect and goes to the detour itself.
   */
  lemma {:induction false} RunsPartInTarget<D>(cpu: Processor<D>, code: Memory, m: Memory, eip: Word, d: D, n: nat, t: Word, detour: Word)
    requires Untouched(cpu, code, m, eip, d, n) && Holds(m, t, JumpBytes(t, detour))
    ensures Steps(cpu, code, eip, d, n).Some?
    ensures
      var (e, x) := Steps(cpu, code, eip, d, n).value;
      && Steps(cpu, m, eip, d, n + 1) == Steps(cpu, m, e, x, 1) && Steps(cpu, code, eip, d, n + 1) == Steps(cpu, code, e, x, 1)
      && (e == t ==>
            && Steps(cpu, m, eip, d, n + 1) == Some((detour, x))
            && (Steps(cpu, code, eip, d, n + 1) == Steps(cpu, m, eip, d, n + 1) <==> Steps(cpu, code, t, x, 1) == Some((detour, x))))
  {
    hide Execute, AlikeAt, Decode, DecodeAt, SameBytes, JumpBytes, Holds, Steps;
    RunsPartWhereUnlike(cpu, code, m, eip, d, n);
    UntouchedRunsAlike(cpu, code, m, eip, d, n);
    var (e, x) := Steps(cpu, code, eip, d, n).value;
    StepsCompose(cpu, code, eip, d, n, 1);
    StepsCompose(cpu, m, eip, d, n, 1);
    if e == t {
      JumpGoes(cpu, m, t, detour, x);
      OneStep(cpu, m, t, x);
      WordIsWrapped(detour);
    }
  }

  lemma {:induction false} WordIsWrapped(w: Word)
    ensures Wrap(w) == w
  {
  }

  // Calling a jump is calling where it goes.
  ghost predicate FollowsJump<D>(cpu: Processor<D>, m: Memory, a: Word, d: D)
  {
    DecodeAt(m, a).Some? && DecodeAt(m, a).value.control.Relative? && DecodeAt(m, a).value.control.flow.Jump? ==>
      cpu.call(m, a, d) == cpu.call(m, Target(DecodeAt(m, a).value, a), d)
  }

  /**
   The exception: a call of the hooked target itself, from anywhere, runs the detour instead. It acts the
   same if and only if the detour has the effect that the target had.
   */
  lemma {:induction false} RecursionRunsDetour<D>(cpu: Processor<D>, code: Memory, m: Memory, a: nat, t: Word, detour: Word, d: D)
    requires DecodeAt(code, a).Some? && DecodeAt(code, a).value.control.Relative? && DecodeAt(code, a).value.control.flow.Call?
    requires Target(DecodeAt(code, a).value, a) == t
    requires Holds(m, t, JumpBytes(t, detour)) && FollowsJump(cpu, m, t, d)
    ensures AlikeAt(cpu, code, m, a, d) <==> cpu.call(m, detour, d) == cpu.call(code, t, d)
  {
    hide Decode, DecodeAt, Target, JumpBytes, Holds;
    var j := JumpDecodes(m, t, detour);
    assert Wrap(detour) == detour;
  }

  /**
   A call through the trampoline is a call of the unhooked target, for as long as the run stays out of
   the bytes that were changed and what it executes acts the same with them changed: every run of the
   original from target is met, step for step, by the run from the trampoline in the hooked program.
   */
  lemma {:induction false} TrampolineIsOriginal<D>(cpu: Processor<D>, code: Memory, target: nat, m: Memory, tramp: nat,
                                                   plan: seq<Insn>, cbTarget: nat, d: D, n: nat)
    requires CodeOf(code, target, m, tramp, plan, cbTarget) && PrologueAlike(cpu, code, m, target, plan, 0, d, |plan|)
    requires
      var x := PrologueExit(cpu, code, target, plan, d);
      x.Some? ==> Untouched(cpu, code, m, x.value.eip, x.value.data, n)
    ensures PrologueExit(cpu, code, target, plan, d).Some?
    ensures
      var x := PrologueExit(cpu, code, target, plan, d).value;
      Steps(cpu, m, tramp, d, |x.events| + (if x.away then 0 else 1) + n) == Steps(cpu, code, target, d, |x.events| + n)
  {
    hide Execute, Steps, Run, CodeOf, Untouched, PrologueExit, PrologueAlike;
    StartsInMemory(code, target, m, tramp, plan, cbTarget);
    TrampolineIsPrologue(cpu, code, target, m, tramp, plan, cbTarget, d);
    var x := PrologueExit(cpu, code, target, plan, d).value;
    StepsCompose(cpu, code, target, d, |x.events|, n);
    StepsCompose(cpu, m, tramp, d, |x.events| + (if x.away then 0 else 1), n);
    UntouchedRunsAlike(cpu, code, m, x.eip, x.data, n);
  }

  lemma {:induction false} StartsInMemory(code: Memory, target: nat, m: Memory, tramp: nat, plan: seq<Insn>, cbTarget: nat)
    requires CodeOf(code, target, m, tramp, plan, cbTarget)
    ensures target < TWO32 && tramp < TWO32
  {
  }
}
