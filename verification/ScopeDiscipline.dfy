/** What every run of the rewritten body does: Begin at most once, nothing but payload until
    the single Commit or Abort, and no return while the transaction is open. */
module ScopeDiscipline {
  import opened Wrappers
  import opened Bytes
  import opened Cil
  import opened Splicing
  import opened TransactionScope
  import opened ScopeSplice
  import opened CompactionRuns
  import opened ScopeRuns
  import opened ScopeMeaning

  datatype Phase = Ahead | Begin | Payload | Close | Behind

  function Rank(phase: Phase): nat {
    match phase case Ahead => 0 case Begin => 1 case Payload => 2 case Close => 3 case Behind => 4
  }

  function PhaseOf(region: Region, s: Scope, pc: int): Phase {
    if pc < s.ctor.offset then Ahead
    else if pc == s.ctor.offset then Phase.Begin
    else if pc < CloseAt(region, s) then Payload
    else if pc == CloseAt(region, s) then Close
    else Behind
  }

  /** The offsets a run can reach: never inside an inserted call. */
  predicate Reachable(region: Region, s: Scope, pc: int) {
    match PhaseOf(region, s, pc)
    case Ahead => pc >= 0
    case Begin => true
    case Payload => pc >= s.ctor.offset + 5
    case Close => pc >= s.ctor.offset + 5
    case Behind => pc >= CloseAt(region, s) + 5
  }

  predicate Advances(a: Phase, b: Phase) {
    Rank(a) <= Rank(b) && ((a.Begin? || a.Close?) ==> Rank(a) < Rank(b))
  }

  lemma AdvancesTransitive(a: Phase, b: Phase, c: Phase)
    requires Advances(a, b) && Advances(b, c)
    ensures Advances(a, c)
  {
  }

  /** The phases that can follow one instruction of a phase. */
  function After(phase: Phase): set<Phase> {
    match phase
    case Ahead => {Ahead, Phase.Begin}
    case Begin => {Payload, Close}
    case Payload => {Payload, Close}
    case Close => {Behind}
    case Behind => {Behind}
  }

  lemma AfterAdvances(phase: Phase, next: Phase)
    requires next in After(phase)
    ensures Advances(phase, next)
  {
  }

  // ---- Where the instruction at a reachable offset comes from, phase by phase ----

  ghost predicate Recognised(controls: Controls, projected: set<int>, code: seq<Byte>, region: Region, s: Scope) {
    IsScope(controls, |code|, region, s) && Partition(code, region, s) && Movable(region, s) && Projects(projected, s)
  }

  /** Branches stay in their phase and falling through goes on. */
  predicate Confined(region: Region, s: Scope, phase: Phase, i: Instruction) {
    && (forall t :: t in i.targets ==> PhaseOf(region, s, t) == phase && Reachable(region, s, t))
    && Reachable(region, s, i.End()) && PhaseOf(region, s, i.End()) in After(phase)
  }

  lemma AheadAt(controls: Controls, projected: set<int>, code: seq<Byte>, region: Region, s: Scope, pc: int)
    requires Recognised(controls, projected, code, region, s) && Reachable(region, s, pc)
             && PhaseOf(region, s, pc) == Ahead
    requires Lookup(Rewritten(region, s), pc).Some?
    ensures var i := Lookup(Rewritten(region, s), pc).value;
            Confined(region, s, Ahead, i) &&
            (NoneProjected(controls, projected, s.prefix) ==> !CallsProjected(controls, projected, i))
  {
    hide Decodes, LocalIndex, IsDisposal, IsCompletion, ArePayload, Lookup, Rewritten, Scope.PayloadEnd;
    NewLookup(code, region, s, pc);
    var i := Lookup(s.prefix, pc).value;
    var k := FindIn(code, 0, s.ctor.offset, s.prefix, i);
    assert BranchesWithin(s.prefix[k], 0, s.ctor.offset);
  }

  lemma PayloadAt(controls: Controls, projected: set<int>, code: seq<Byte>, region: Region, s: Scope, pc: int)
    requires Recognised(controls, projected, code, region, s) && Reachable(region, s, pc)
             && PhaseOf(region, s, pc) == Payload
    requires Lookup(Rewritten(region, s), pc).Some?
    ensures var i := Lookup(Rewritten(region, s), pc).value;
            Confined(region, s, Payload, i) && !CallsProjected(controls, projected, i) && i.opcode != RET
  {
    hide Decodes, LocalIndex, IsDisposal, IsCompletion, AllWithin, Lookup, Rewritten, Scope.PayloadEnd;
    var d := PayloadShift(region, s);
    NewLookup(code, region, s, pc - d);
    LookupShifted(s.payload, d, pc - d);
    var i := Lookup(s.payload, pc - d).value;
    var k := FindIn(code, region.tryOffset, s.PayloadEnd(region), s.payload, i);
    assert IsPayload(controls, s.payload[k], LocalIndex(s.store, true).value, region.tryOffset, s.PayloadEnd(region));
    ShiftedFacts(i, d);
  }

  lemma BehindAt(controls: Controls, projected: set<int>, code: seq<Byte>, region: Region, s: Scope, pc: int)
    requires Recognised(controls, projected, code, region, s) && Reachable(region, s, pc)
             && PhaseOf(region, s, pc) == Behind
    requires Lookup(Rewritten(region, s), pc).Some?
    ensures var i := Lookup(Rewritten(region, s), pc).value;
            Confined(region, s, Behind, i) &&
            (NoneProjected(controls, projected, s.tail) ==> !CallsProjected(controls, projected, i))
  {
    hide Decodes, LocalIndex, IsDisposal, IsCompletion, ArePayload, Lookup, Rewritten, Scope.PayloadEnd;
    var e := TailShift(region, s);
    NewLookup(code, region, s, pc - e);
    LookupShifted(s.tail, e, pc - e);
    var i := Lookup(s.tail, pc - e).value;
    var k := FindIn(code, region.HandlerEnd(), |code|, s.tail, i);
    assert BranchesWithin(s.tail[k], region.HandlerEnd(), |code|);
    ShiftedFacts(i, e);
  }

  lemma CallsAt(controls: Controls, projected: set<int>, code: seq<Byte>, region: Region, s: Scope)
    requires Recognised(controls, projected, code, region, s)
    ensures CloseAt(region, s) >= s.ctor.offset + 5
    ensures Lookup(Rewritten(region, s), s.ctor.offset) == Some(CallAt(s.ctor.offset, s.ctor.token))
    ensures Lookup(Rewritten(region, s), CloseAt(region, s)) == Some(CallAt(CloseAt(region, s), s.Closing()))
    ensures Confined(region, s, Phase.Begin, CallAt(s.ctor.offset, s.ctor.token))
    ensures Confined(region, s, Close, CallAt(CloseAt(region, s), s.Closing()))
  {
    hide Decodes, IsScope, Lookup, Rewritten, Scope.PayloadEnd;
    NewLookup(code, region, s, s.ctor.offset);
  }

  /** Where the instruction at a reachable offset comes from. */
  lemma InstructionAt(controls: Controls, projected: set<int>, code: seq<Byte>, region: Region, s: Scope, pc: int)
    requires Recognised(controls, projected, code, region, s) && Reachable(region, s, pc)
             && Lookup(Rewritten(region, s), pc).Some?
    ensures var i, phase := Lookup(Rewritten(region, s), pc).value, PhaseOf(region, s, pc);
            && Confined(region, s, phase, i)
            && (phase.Payload? ==> i.opcode != RET)
            && (phase.Begin? ==> i == CallAt(s.ctor.offset, s.ctor.token))
            && (phase.Close? ==> i == CallAt(CloseAt(region, s), s.Closing()))
            && (NoneProjected(controls, projected, s.prefix) && NoneProjected(controls, projected, s.tail) ==>
                  phase.Begin? || phase.Close? || !CallsProjected(controls, projected, i))
  {
    hide Recognised, Reachable, Confined, Lookup, Rewritten, NoneProjected, CallsProjected;
    match PhaseOf(region, s, pc) {
      case Ahead => AheadAt(controls, projected, code, region, s, pc);
      case Begin => CallsAt(controls, projected, code, region, s);
      case Payload => PayloadAt(controls, projected, code, region, s, pc);
      case Close => CallsAt(controls, projected, code, region, s);
      case Behind => BehindAt(controls, projected, code, region, s, pc);
    }
  }

  lemma ShiftedFacts(i: Instruction, d: int)
    requires i.offset + d >= 0
    ensures Shift(i, d).End() == i.End() + d && Shift(i, d).opcode == i.opcode && Shift(i, d).token == i.token
    ensures forall t :: t in Shift(i, d).targets ==> t - d in i.targets
  {
    forall t | t in Shift(i, d).targets
      ensures t - d in i.targets
    {
      var j :| 0 <= j < |i.targets| && Shift(i, d).targets[j] == t;
      assert i.targets[j] == t - d;
    }
  }

  lemma StepAdvances<S>(controls: Controls, projected: set<int>, code: seq<Byte>, region: Region, s: Scope,
                        world: World<S>, c: Config<Machine<S>>)
    requires Recognised(controls, projected, code, region, s) && Movable(region, s)
    requires c.At? && Reachable(region, s, c.pc)
    ensures var d := Step(NewProgram(controls, projected, region, s), world, c);
            d.At? ==> Reachable(region, s, d.pc) && Advances(PhaseOf(region, s, c.pc), PhaseOf(region, s, d.pc))
  {
    hide Recognised, Movable, Exec, Reachable, PhaseOf, Lookup, Rewritten, Advances, After;
    var p := NewProgram(controls, projected, region, s);
    if Lookup(p.instrs, c.pc).Some? {
      InstructionAt(controls, projected, code, region, s, c.pc);
      var i, phase := Lookup(p.instrs, c.pc).value, PhaseOf(region, s, c.pc);
      Successors(p, world, i, c.state);
      AfterAdvances(phase, PhaseOf(region, s, i.End()));
      if !phase.Begin? && !phase.Close? { StaysAdvances(phase); }
    }
  }

  lemma StaysAdvances(phase: Phase)
    requires !phase.Begin? && !phase.Close?
    ensures Advances(phase, phase)
  {
  }

  /** Phases only go forward along a run, and past Begin and Close strictly: the inserted
      Begin and the inserted Commit or Abort each execute at most once, and between them a
      run only visits payload instructions. */
  lemma {:induction false} PhasesAdvance<S>(controls: Controls, projected: set<int>, code: seq<Byte>, region: Region,
                                            s: Scope, world: World<S>, c: Config<Machine<S>>, n: nat)
    requires Recognised(controls, projected, code, region, s) && Movable(region, s)
    requires c.At? && Reachable(region, s, c.pc)
    ensures var d := Run(NewProgram(controls, projected, region, s), world, c, n);
            d.At? ==> Reachable(region, s, d.pc) &&
                      (n > 0 ==> Advances(PhaseOf(region, s, c.pc), PhaseOf(region, s, d.pc)))
    decreases n
  {
    hide Recognised, Movable, Step, Reachable, PhaseOf, Advances;
    if n > 0 {
      var p := NewProgram(controls, projected, region, s);
      var next := Step(p, world, c);
      StepAdvances(controls, projected, code, region, s, world, c);
      if next.At? {
        PhasesAdvance(controls, projected, code, region, s, world, next, n - 1);
        var d := Run(p, world, next, n - 1);
        if d.At? && n > 1 {
          AdvancesTransitive(PhaseOf(region, s, c.pc), PhaseOf(region, s, next.pc), PhaseOf(region, s, d.pc));
        }
      } else {
        StoppedRun(p, world, next, n - 1);
      }
    }
  }

  lemma VisitsOrdered<S>(controls: Controls, projected: set<int>, code: seq<Byte>, region: Region, s: Scope,
                         world: World<S>, state: S, i: nat, j: nat)
    requires Recognised(controls, projected, code, region, s) && Movable(region, s) && i < j
    ensures var p := NewProgram(controls, projected, region, s);
            var c, d := Run(p, world, Start(state), i), Run(p, world, Start(state), j);
            c.At? && d.At? ==> Advances(PhaseOf(region, s, c.pc), PhaseOf(region, s, d.pc))
  {
    hide Recognised, Movable, Step, PhaseOf, Advances, NewProgram, Run;
    var p := NewProgram(controls, projected, region, s);
    StartReachable(region, s);
    PhasesAdvance(controls, projected, code, region, s, world, Start(state), i);
    RunSplit(p, world, Start(state), i, j - i);
    var c := Run(p, world, Start(state), i);
    if c.At? {
      PhasesAdvance(controls, projected, code, region, s, world, c, j - i);
    } else {
      StoppedRun(p, world, c, j - i);
    }
  }

  /** In every run of the rewritten octets, any two visits are phase-ordered, strictly when
      the earlier one is an inserted call. */
  lemma InsertedCallsRunOnce<S>(controls: Controls, projected: set<int>, code: seq<Byte>, region: Region, s: Scope,
                                world: World<S>, state: S, i: nat, j: nat)
    requires IsScopeOf(controls, code, region, s) && Projects(projected, s) && i < j
    ensures Partition(code, region, s) && DecodeFrom(Spliced(code, region, s), 0).Some?
    ensures var p := Program(DecodeFrom(Spliced(code, region, s), 0).value, controls, None, projected);
            var c, d := Run(p, world, Start(state), i), Run(p, world, Start(state), j);
            c.At? && d.At? ==> Advances(PhaseOf(region, s, c.pc), PhaseOf(region, s, d.pc))
  {
    SpliceDecodes(code, controls, region, s);
    hide IsScope, Partition, Movable, Step, PhaseOf, Advances, DecodeFrom, Spliced, Scope.Whole, Rewritten, Run;
    VisitsOrdered(controls, projected, code, region, s, world, state, i, j);
  }

  lemma StartReachable(region: Region, s: Scope)
    ensures Reachable(region, s, 0)
  {
  }

  // ---- The transaction state ----

  function Outcome(s: Scope): Tx { if s.Completed() then Committed else Aborted }

  /** The transaction state a phase must see. */
  function Expected(s: Scope, phase: Phase): Tx {
    match phase
    case Ahead => Idle
    case Begin => Idle
    case Payload => Active
    case Close => Active
    case Behind => Outcome(s)
  }

  predicate TxOk<S>(region: Region, s: Scope, c: Config<Machine<S>>) {
    c.At? ==> Reachable(region, s, c.pc) && c.state.tx == Expected(s, PhaseOf(region, s, c.pc))
  }

  /** A recognised scope in a body whose other code calls no projected member. */
  ghost predicate Uncontrolled(controls: Controls, projected: set<int>, code: seq<Byte>, region: Region, s: Scope) {
    && Recognised(controls, projected, code, region, s)
    && NoneProjected(controls, projected, s.prefix) && NoneProjected(controls, projected, s.tail)
  }

  lemma TxStep<S>(controls: Controls, projected: set<int>, code: seq<Byte>, region: Region, s: Scope, world: World<S>,
                  c: Config<Machine<S>>)
    requires Uncontrolled(controls, projected, code, region, s) && Movable(region, s) && c.At? && TxOk(region, s, c)
    ensures TxOk(region, s, Step(NewProgram(controls, projected, region, s), world, c))
  {
    hide Recognised, Movable, Exec, Lookup, Rewritten, NoneProjected, CallsProjected, Confined, Reachable, PhaseOf,
         Expected;
    var p := NewProgram(controls, projected, region, s);
    if Lookup(p.instrs, c.pc).Some? {
      var i, phase := Lookup(p.instrs, c.pc).value, PhaseOf(region, s, c.pc);
      InstructionAt(controls, projected, code, region, s, c.pc);
      if phase.Begin? || phase.Close? {
        CallStep(controls, projected, code, region, s, world, c.state, phase);
      } else {
        OrdinaryExec(p, world, i, c.state);
        var (state, flow) := world(InAct(i.opcode, i.immediate, i.token), c.state.state, c.state.tx);
        KeptFlow(region, s, i, phase, c.state.(state := state), flow);
      }
    }
  }

  ghost function InsertedCall(region: Region, s: Scope, phase: Phase): Instruction
    requires Movable(region, s)
  {
    if phase.Begin? then CallAt(s.ctor.offset, s.ctor.token) else CallAt(CloseAt(region, s), s.Closing())
  }

  /** The inserted calls open and close the transaction. */
  lemma CallStep<S>(controls: Controls, projected: set<int>, code: seq<Byte>, region: Region, s: Scope, world: World<S>,
                    m: Machine<S>, phase: Phase)
    requires Recognised(controls, projected, code, region, s) && Movable(region, s) && (phase.Begin? || phase.Close?)
    ensures TxOk(region, s, Exec(NewProgram(controls, projected, region, s), world, InsertedCall(region, s, phase), m))
  {
    hide Movable, Partition, Lookup, Rewritten, Exec, PhaseOf, Reachable, LocalIndex, IsPayload, AllWithin;
    CallsAt(controls, projected, code, region, s);
    IsScopeControls(controls, |code|, region, s);
    var p := NewProgram(controls, projected, region, s);
    ExecCall(p, world, InsertedCall(region, s, phase), m);
  }

  /** A kept instruction passes its own transaction state on, whichever successor it takes. */
  lemma KeptFlow<S>(region: Region, s: Scope, i: Instruction, phase: Phase, m: Machine<S>, flow: Flow)
    requires !phase.Begin? && !phase.Close? && m.tx == Expected(s, phase) && Confined(region, s, phase, i)
    ensures TxOk(region, s, Go(m, flow, i.End(), i.targets))
  {
    hide PhaseOf, Reachable;
  }

  lemma {:induction false} TxRun<S>(controls: Controls, projected: set<int>, code: seq<Byte>, region: Region, s: Scope,
                                    world: World<S>, c: Config<Machine<S>>, n: nat)
    requires Uncontrolled(controls, projected, code, region, s) && Movable(region, s) && TxOk(region, s, c)
    ensures TxOk(region, s, Run(NewProgram(controls, projected, region, s), world, c, n))
    decreases n
  {
    hide Uncontrolled, Step, Movable, TxOk;
    if n > 0 {
      var p := NewProgram(controls, projected, region, s);
      if c.At? {
        TxStep(controls, projected, code, region, s, world, c);
      } else {
        StoppedStays(p, world, c);
      }
      TxRun(controls, projected, code, region, s, world, Step(p, world, c), n - 1);
    }
  }

  /** The transaction is open exactly in the payload and at the closing call; behind it the scope
      has its outcome; and no return instruction stands where it is open. */
  predicate Disciplined<S>(region: Region, s: Scope, instrs: seq<Instruction>, pc: int, m: Machine<S>) {
    && (m.tx == Active <==> PhaseOf(region, s, pc) in {Payload, Close})
    && (PhaseOf(region, s, pc) == Behind ==> m.tx == Outcome(s))
    && (Lookup(instrs, pc).Some? && Lookup(instrs, pc).value.opcode == RET ==> m.tx != Active)
  }

  /** Every point of every run of the rewritten octets keeps the discipline, for every accepted
      body that calls no projected member before the constructor or behind the handler. */
  lemma TransactionOpenOnlyInPayload<S>(controls: Controls, projected: set<int>, code: seq<Byte>, region: Region,
                                        s: Scope, world: World<S>, state: S, n: nat)
    requires IsScopeOf(controls, code, region, s) && Projects(projected, s)
    requires NoneProjected(controls, projected, s.prefix) && NoneProjected(controls, projected, s.tail)
    ensures Partition(code, region, s) && DecodeFrom(Spliced(code, region, s), 0).Some?
    ensures var instrs := DecodeFrom(Spliced(code, region, s), 0).value;
            var c := Run(Program(instrs, controls, None, projected), world, Start(state), n);
            c.At? ==> Disciplined(region, s, instrs, c.pc, c.state)
  {
    SpliceDecodes(code, controls, region, s);
    hide IsScope, Partition, Movable, Step, DecodeFrom, Spliced, Scope.Whole, Rewritten, Run, NoneProjected, Lookup,
         PhaseOf, TxOk, Reachable, Disciplined;
    StartsOk(region, s, state);
    TxRun(controls, projected, code, region, s, world, Start(state), n);
    var c := Run(NewProgram(controls, projected, region, s), world, Start(state), n);
    if c.At? { OkIsDisciplined(controls, projected, code, region, s, c); }
  }

  lemma OkIsDisciplined<S>(controls: Controls, projected: set<int>, code: seq<Byte>, region: Region, s: Scope,
                           c: Config<Machine<S>>)
    requires Recognised(controls, projected, code, region, s) && Movable(region, s) && c.At? && TxOk(region, s, c)
    ensures Disciplined(region, s, Rewritten(region, s), c.pc, c.state)
  {
    hide Recognised, Movable, Reachable, Lookup, Rewritten, PhaseOf, Confined;
    if Lookup(Rewritten(region, s), c.pc).Some? { InstructionAt(controls, projected, code, region, s, c.pc); }
  }

  lemma StartsOk<S>(region: Region, s: Scope, state: S)
    ensures TxOk(region, s, Start(state))
  {
  }

  // ---- Which control tokens remain ----

  /** The rewritten body names transaction members nowhere but in its two inserted calls
      exactly when the code around the scope did not: the source never looks there. */
  lemma OnlyInsertedControls(controls: Controls, code: seq<Byte>, region: Region, s: Scope)
    requires IsScopeOf(controls, code, region, s)
    ensures Movable(region, s)
    ensures (forall k :: 0 <= k < |Rewritten(region, s)| && k != |s.prefix| && k != |s.prefix| + 1 + |s.payload| ==>
               controls(Rewritten(region, s)[k].token) == NoControl)
            <==> NoControls(controls, s.prefix) && NoControls(controls, s.tail)
  {
    SpliceDecodes(code, controls, region, s);
    PayloadUncontrolled(controls, |code|, region, s);
    RewrittenControls(controls, region, s);
  }

  lemma RewrittenControls(controls: Controls, region: Region, s: Scope)
    requires Movable(region, s) && NoControls(controls, s.payload)
    ensures (forall k :: 0 <= k < |Rewritten(region, s)| && k != |s.prefix| && k != |s.prefix| + 1 + |s.payload| ==>
               controls(Rewritten(region, s)[k].token) == NoControl)
            <==> NoControls(controls, s.prefix) && NoControls(controls, s.tail)
  {
    hide Scope.PayloadEnd, Scope.Closing, ShiftAll, NoControls;
    var body, rest := ShiftAll(s.payload, PayloadShift(region, s)), ShiftAll(s.tail, TailShift(region, s));
    ShiftedControls(controls, s.payload, PayloadShift(region, s));
    ShiftedControls(controls, s.tail, TailShift(region, s));
    var one, two := CallAt(s.ctor.offset, s.ctor.token),
      CallAt(s.PayloadEnd(region) + PayloadShift(region, s), s.Closing());
    assert Rewritten(region, s) == s.prefix + [one] + body + [two] + rest && |body| == |s.payload|;
    OthersIn(controls, s.prefix, one, body, two, rest);
  }

  lemma PayloadUncontrolled(controls: Controls, length: nat, region: Region, s: Scope)
    requires IsScope(controls, length, region, s)
    ensures NoControls(controls, s.payload)
  {
    hide LocalIndex, IsDisposal, IsCompletion, AllWithin;
    forall k | 0 <= k < |s.payload|
      ensures controls(s.payload[k].token) == NoControl
    {
      assert IsPayload(controls, s.payload[k], LocalIndex(s.store, true).value, region.tryOffset, s.PayloadEnd(region));
    }
  }

  lemma ShiftedControls(controls: Controls, instrs: seq<Instruction>, d: int)
    requires forall k :: 0 <= k < |instrs| ==> instrs[k].offset + d >= 0
    ensures NoControls(controls, ShiftAll(instrs, d)) <==> NoControls(controls, instrs)
  {
    forall k | 0 <= k < |instrs| ensures ShiftAll(instrs, d)[k].token == instrs[k].token {}
  }

  lemma OthersIn(controls: Controls, a: seq<Instruction>, one: Instruction, b: seq<Instruction>, two: Instruction,
                 c: seq<Instruction>)
    requires NoControls(controls, b)
    ensures var w := a + [one] + b + [two] + c;
            (forall k :: 0 <= k < |w| && k != |a| && k != |a| + 1 + |b| ==> controls(w[k].token) == NoControl)
            <==> NoControls(controls, a) && NoControls(controls, c)
  {
    var w := a + [one] + b + [two] + c;
    forall k | 0 <= k < |a| ensures w[k] == a[k] {}
    forall k | 0 <= k < |c| ensures w[|a| + |b| + 2 + k] == c[k] {}
    forall k | |a| < k <= |a| + |b| ensures w[k] == b[k - |a| - 1] {}
    forall k | |a| + |b| + 2 <= k < |w| ensures w[k] == c[k - |a| - |b| - 2] {}
  }
}
