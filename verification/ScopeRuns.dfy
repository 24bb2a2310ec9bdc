/** Runs of the original and of the rewritten body. The machine interprets the transaction
    scaffolding itself: the scope local, the references it pushes, the finally block and the
    projected calls. Every other instruction has an arbitrary effect given by a `World`,
    which sees whether a transaction is open but cannot open or close one. */
module ScopeRuns {
  import opened Wrappers
  import opened Bytes
  import opened Cil
  import opened Splicing
  import opened TransactionScope
  import opened ScopeSplice
  import opened CompactionRuns

  datatype Tx = Idle | Active | Completed | Committed | Aborted

  /** `stack` holds the scope references pushed by the scaffolding: true for the scope, false
      for null; `scopeLocal` is one of these, or None once other code has stored to the local.
      `pending` is where a leave continues after its finally block. */
  datatype Machine<S> = Machine(state: S, scopeLocal: Option<bool>, stack: seq<bool>, tx: Tx, pending: int)

  type World<!S> = (InAct, S, Tx) -> (S, Flow)

  /** What the original body keeps of its scope: the local that holds the reference from its store
      on, and the exception region. */
  datatype Frame = Frame(local: int, region: Region)
  {
    predicate InTry(pc: int) { region.tryOffset <= pc < region.TryEnd() }
    predicate InHandler(pc: int) { region.handlerOffset <= pc < region.HandlerEnd() }
    predicate Loads(i: Instruction) { region.tryOffset <= i.End() && LocalIndex(i, false) == Some(local) }
    predicate Stores(i: Instruction) { region.tryOffset <= i.End() && LocalIndex(i, true) == Some(local) }
  }

  /** A rewritten body has no frame: no scope local and no exception region. `projected` are the member
      tokens the finished assembly projects; an original body has none. */
  datatype Program = Program(instrs: seq<Instruction>, controls: Controls, frame: Option<Frame>, projected: set<int>)

  /** A call of a member that was projected is a call of its projection. No constructor is left behind a
      projected one, so what newobj makes of it is open, as for any other member. */
  predicate CallsProjected(controls: Controls, projected: set<int>, i: Instruction) {
    i.opcode in {CALL, CALLVIRT} && i.token in projected && controls(i.token) != NoControl
  }

  function Lookup(instrs: seq<Instruction>, pc: int): (r: Option<Instruction>)
    ensures r.Some? ==> r.value in instrs && r.value.offset == pc
  {
    if instrs == [] then None else if instrs[0].offset == pc then Some(instrs[0]) else Lookup(instrs[1..], pc)
  }

  function Pop(stack: seq<bool>): seq<bool>
    requires stack != []
  {
    stack[..|stack| - 1]
  }

  function Top(stack: seq<bool>): bool
    requires stack != []
  {
    stack[|stack| - 1]
  }

  /** The scaffolding, or None for an instruction left to the world. */
  function Scaffold<S>(p: Program, i: Instruction, m: Machine<S>): Option<Config<Machine<S>>> {
    match p.frame
    case Some(frame) => Scoped(frame, p.controls(i.token), i, m)
    case None =>
      if CallsProjected(p.controls, p.projected, i) then Some(At(i.End(), m.(tx := Projected(p.controls(i.token)))))
      else None
  }

  /** Disposing of or completing anything but a scope reference, storing anything else to the local, and
      loading what was stored so, are left to the world. */
  function Scoped<S>(frame: Frame, control: Control, i: Instruction, m: Machine<S>): Option<Config<Machine<S>>> {
    if i.opcode == NEWOBJ && control == Constructor then
      Some(At(i.End(), m.(stack := m.stack + [true], tx := Active)))
    else if frame.Stores(i) && m.stack != [] then
      Some(At(i.End(), m.(scopeLocal := Some(Top(m.stack)), stack := Pop(m.stack))))
    else if frame.Loads(i) && m.scopeLocal.Some? then
      Some(At(i.End(), m.(stack := m.stack + [m.scopeLocal.value])))
    else if i.opcode == CALLVIRT && control in {Complete, Dispose} && m.stack != [] then
      Some(if !Top(m.stack) then Stuck else At(i.End(), m.(stack := Pop(m.stack), tx := Virtual(control, m.tx))))
    else if i.opcode in {0x2c, 0x39} && m.stack != [] && |i.targets| == 1 then
      Some(At(if Top(m.stack) then i.End() else i.targets[0], m.(stack := Pop(m.stack))))
    else if i.opcode in {LEAVE, LEAVE_S} && frame.InTry(i.offset) && |i.targets| == 1 then
      Some(At(frame.region.handlerOffset, m.(pending := i.targets[0])))
    else if i.opcode == ENDFINALLY && frame.InHandler(i.offset) then
      Some(At(m.pending, m))
    else None
  }

  /** Complete() marks the scope; Dispose() commits a marked scope and aborts any other. */
  function Virtual(control: Control, tx: Tx): Tx {
    if control == Complete then Tx.Completed else if tx == Tx.Completed then Committed else Aborted
  }

  /** The static Begin, Commit and Abort calls. */
  function Projected(control: Control): Tx
    requires control != NoControl
  {
    match control
    case Constructor => Active
    case Complete => Committed
    case Dispose => Aborted
  }

  function Exec<S>(p: Program, world: World<S>, i: Instruction, m: Machine<S>): Config<Machine<S>> {
    match Scaffold(p, i, m)
    case Some(c) => c
    case None =>
      var (state, flow) := world(InAct(i.opcode, i.immediate, i.token), m.state, m.tx);
      Go(AfterWorld(p, i, m, state), flow, i.End(), i.targets)
  }

  /** The world's state, and a local the world has stored to. */
  function AfterWorld<S>(p: Program, i: Instruction, m: Machine<S>, state: S): Machine<S> {
    m.(state := state, scopeLocal := if p.frame.Some? && p.frame.value.Stores(i) then None else m.scopeLocal)
  }

  function Step<S>(p: Program, world: World<S>, c: Config<Machine<S>>): Config<Machine<S>> {
    if !c.At? then c
    else match Lookup(p.instrs, c.pc)
      case None => Stuck
      case Some(i) => Exec(p, world, i, c.state)
  }

  function Run<S>(p: Program, world: World<S>, c: Config<Machine<S>>, n: nat): Config<Machine<S>>
    decreases n
  {
    if n == 0 then c else Run(p, world, Step(p, world, c), n - 1)
  }

  lemma {:induction false} RunSplit<S>(p: Program, world: World<S>, c: Config<Machine<S>>, m: nat, n: nat)
    ensures Run(p, world, c, m + n) == Run(p, world, Run(p, world, c, m), n)
    decreases m
  {
    hide Step;
    if m > 0 { RunSplit(p, world, Step(p, world, c), m - 1, n); }
  }

  lemma {:induction false} StoppedRun<S>(p: Program, world: World<S>, c: Config<Machine<S>>, n: nat)
    requires !c.At?
    ensures Run(p, world, c, n) == c
    decreases n
  {
    if n > 0 { StoppedRun(p, world, c, n - 1); }
  }

  /** Without an exception region every successor is the next instruction or a branch target. */
  lemma Successors<S>(p: Program, world: World<S>, i: Instruction, m: Machine<S>)
    requires p.frame.None?
    ensures var c := Exec(p, world, i, m);
            c.At? ==> c.pc == i.End() || c.pc in i.targets
  {
    var flow := world(InAct(i.opcode, i.immediate, i.token), m.state, m.tx).1;
    if flow.Jump? && flow.n < |i.targets| { assert i.targets[flow.n] in i.targets; }
  }

  // ---- Ways through a body ----

  /** Where a choice of successors leads: the next instruction or a branch target each time. */
  function Follow(instrs: seq<Instruction>, pc: int, path: seq<Flow>): Option<int>
    decreases |path|
  {
    if path == [] then Some(pc)
    else
      match Lookup(instrs, pc)
      case None => None
      case Some(i) =>
        match path[0]
        case Next => Follow(instrs, i.End(), path[1..])
        case Jump(n) => if n < |i.targets| then Follow(instrs, i.targets[n], path[1..]) else None
        case Stop => None
  }

  lemma {:induction false} FollowMore(instrs: seq<Instruction>, pc: int, path: seq<Flow>, more: seq<Flow>)
    requires Follow(instrs, pc, path).Some?
    ensures Follow(instrs, pc, path + more) == Follow(instrs, Follow(instrs, pc, path).value, more)
    decreases |path|
  {
    hide Lookup;
    if path == [] {
      assert path + more == more;
    } else {
      assert (path + more)[1..] == path[1..] + more;
      var i := Lookup(instrs, pc).value;
      FollowMore(instrs, if path[0].Next? then i.End() else i.targets[path[0].n], path[1..], more);
    }
  }

  /** A choice that leads to a successor. */
  function Choice(i: Instruction, next: int): (flow: Flow)
    requires next == i.End() || next in i.targets
    ensures if flow.Next? then next == i.End() else flow.Jump? && flow.n < |i.targets| && i.targets[flow.n] == next
  {
    if next == i.End() then Next
    else
      assert exists n: nat :: n < |i.targets| && i.targets[n] == next;
      Jump(FirstIndex(i.targets, next))
  }

  function FirstIndex(targets: seq<int>, next: int): (n: nat)
    requires next in targets
    ensures n < |targets| && targets[n] == next
  {
    if targets[0] == next then 0 else FirstIndex(targets[1..], next) + 1
  }

  /** Without an exception region every run takes a way through the body. */
  lemma {:induction false} RunPath<S>(p: Program, world: World<S>, c: Config<Machine<S>>, n: nat)
    returns (path: seq<Flow>)
    requires p.frame.None? && c.At? && Run(p, world, c, n).At?
    ensures |path| == n
    ensures forall j: nat | j <= n ::
              Run(p, world, c, j).At? && Follow(p.instrs, c.pc, path[..j]) == Some(Run(p, world, c, j).pc)
    decreases n
  {
    hide Exec, Lookup;
    path := [];
    if n > 0 {
      var next := Step(p, world, c);
      if !next.At? { StoppedRun(p, world, next, n - 1); }
      var i := Lookup(p.instrs, c.pc).value;
      Successors(p, world, i, c.state);
      var rest := RunPath(p, world, next, n - 1);
      path := [Choice(i, next.pc)] + rest;
      forall j: nat | j <= n
        ensures Run(p, world, c, j).At? && Follow(p.instrs, c.pc, path[..j]) == Some(Run(p, world, c, j).pc)
      {
        if j > 0 {
          assert Run(p, world, c, j) == Run(p, world, next, j - 1);
          assert path[..j][1..] == rest[..j - 1];
        }
      }
    }
  }

  // ---- The two programs ----

  function Local(s: Scope): int {
    if LocalIndex(s.store, true).Some? then LocalIndex(s.store, true).value else -1
  }

  function OldProgram(controls: Controls, region: Region, s: Scope): Program {
    Program(s.Whole(), controls, Some(Frame(Local(s), region)), {})
  }

  ghost function NewProgram(controls: Controls, projected: set<int>, region: Region, s: Scope): Program
    requires Movable(region, s)
  {
    Program(Rewritten(region, s), controls, None, projected)
  }

  /** The members the rewrite projects are among those the assembly projects. */
  predicate Projects(projected: set<int>, s: Scope) {
    |s.completion| in {0, 2} && |s.handler| == 5 && s.ctor.token in projected && s.Closing() in projected
  }

  /** Around the scope the two programs part where another scope is made, which to the original is
      scaffolding, and where a projected member is called, which is so to the rewritten body. */
  predicate Diverges(controls: Controls, projected: set<int>, i: Instruction) {
    (i.opcode == NEWOBJ && controls(i.token) == Constructor) || CallsProjected(controls, projected, i)
  }

  predicate NoControls(controls: Controls, instrs: seq<Instruction>) {
    forall k :: 0 <= k < |instrs| ==> controls(instrs[k].token) == NoControl
  }

  predicate NoneProjected(controls: Controls, projected: set<int>, instrs: seq<Instruction>) {
    forall k :: 0 <= k < |instrs| ==> !CallsProjected(controls, projected, instrs[k])
  }

  /** Nothing about the instruction is scaffolding in this state. */
  predicate Ordinary<S>(p: Program, i: Instruction, m: Machine<S>) {
    match p.frame
    case None => !CallsProjected(p.controls, p.projected, i)
    case Some(frame) =>
      && m.stack == [] && !(i.opcode == NEWOBJ && p.controls(i.token) == Constructor)
      && (frame.Loads(i) ==> m.scopeLocal.None?)
      && (i.opcode in {LEAVE, LEAVE_S} ==> !frame.InTry(i.offset))
      && (i.opcode == ENDFINALLY ==> !frame.InHandler(i.offset))
  }

  lemma OrdinaryExec<S>(p: Program, world: World<S>, i: Instruction, m: Machine<S>)
    requires Ordinary(p, i, m)
    ensures var (state, flow) := world(InAct(i.opcode, i.immediate, i.token), m.state, m.tx);
            Exec(p, world, i, m) == Go(AfterWorld(p, i, m, state), flow, i.End(), i.targets)
  {
    hide LocalIndex;
  }

  // ---- Finding instructions in segments ----

  predicate Outside(instrs: seq<Instruction>, pc: int) {
    forall k :: 0 <= k < |instrs| ==> instrs[k].offset != pc
  }

  lemma {:induction false} LookupSegment(a: seq<Instruction>, b: seq<Instruction>, c: seq<Instruction>, pc: int)
    requires Outside(a, pc) && Outside(c, pc)
    ensures Lookup(a + b + c, pc) == Lookup(b, pc)
    decreases |a| + |b| + |c|
  {
    if a != [] {
      assert (a + b + c)[1..] == a[1..] + b + c;
      LookupSegment(a[1..], b, c, pc);
    } else if b != [] {
      assert (a + b + c)[0] == b[0];
      if b[0].offset != pc {
        assert (a + b + c)[1..] == a + b[1..] + c;
        LookupSegment(a, b[1..], c, pc);
      }
    } else if c != [] {
      assert a + b + c == c;
      assert (a + b + c)[1..] == a + b + c[1..];
      LookupSegment(a, b, c[1..], pc);
    }
  }

  lemma {:induction false} LookupShifted(instrs: seq<Instruction>, d: int, pc: int)
    requires forall k :: 0 <= k < |instrs| ==> instrs[k].offset + d >= 0
    ensures Lookup(ShiftAll(instrs, d), pc + d) ==
            if Lookup(instrs, pc).None? then None
            else if Lookup(instrs, pc).value.offset + d >= 0 then Some(Shift(Lookup(instrs, pc).value, d)) else None
    decreases |instrs|
  {
    if instrs != [] {
      assert ShiftAll(instrs, d)[1..] == ShiftAll(instrs[1..], d);
      LookupShifted(instrs[1..], d, pc);
    }
  }

  /** Every instruction of a segment lies in the segment. */
  lemma SegmentOutside(code: seq<Byte>, lo: nat, hi: nat, instrs: seq<Instruction>, pc: int)
    requires Decodes(code, lo, hi, instrs)
    ensures !(lo <= pc < hi) ==> Outside(instrs, pc)
  {
    hide DecodeAt;
    DecodesBounds(code, lo, hi, instrs);
  }

  /** The original body at the points where the two programs are compared. */
  lemma OldLookup(code: seq<Byte>, region: Region, s: Scope, pc: int)
    requires Partition(code, region, s)
    ensures 0 <= pc < s.ctor.offset ==> Lookup(s.Whole(), pc) == Lookup(s.prefix, pc)
    ensures region.tryOffset <= pc < s.PayloadEnd(region) ==> Lookup(s.Whole(), pc) == Lookup(s.payload, pc)
    ensures region.HandlerEnd() <= pc ==> Lookup(s.Whole(), pc) == Lookup(s.tail, pc)
    ensures s.ctor.offset <= pc < region.tryOffset ==> Lookup(s.Whole(), pc) == Lookup([s.ctor, s.store], pc)
    ensures s.PayloadEnd(region) <= pc < region.TryEnd() ==>
              Lookup(s.Whole(), pc) == Lookup(s.completion + [s.exit], pc)
    ensures region.TryEnd() <= pc < region.HandlerEnd() ==> Lookup(s.Whole(), pc) == Lookup(s.handler, pc)
  {
    hide DecodeAt, Decodes, Lookup, Outside, Scope.PayloadEnd;
    var open, part := [s.ctor, s.store], s.completion + [s.exit];
    var w := s.Whole();
    assert w == s.prefix + open + s.payload + part + s.handler + s.tail;
    if 0 <= pc < s.ctor.offset {
      OutsideRest(code, region, s, pc);
      LookupSegment([], s.prefix, open + s.payload + part + s.handler + s.tail, pc);
      assert [] + s.prefix + (open + s.payload + part + s.handler + s.tail) == w;
    } else if s.ctor.offset <= pc < region.tryOffset {
      OutsideRest(code, region, s, pc);
      LookupSegment(s.prefix, open, s.payload + part + s.handler + s.tail, pc);
      assert s.prefix + open + (s.payload + part + s.handler + s.tail) == w;
    } else if region.tryOffset <= pc < s.PayloadEnd(region) {
      OutsideRest(code, region, s, pc);
      LookupSegment(s.prefix + open, s.payload, part + s.handler + s.tail, pc);
      assert s.prefix + open + s.payload + (part + s.handler + s.tail) == w;
    } else if s.PayloadEnd(region) <= pc < region.TryEnd() {
      OutsideRest(code, region, s, pc);
      LookupSegment(s.prefix + open + s.payload, part, s.handler + s.tail, pc);
      assert s.prefix + open + s.payload + part + (s.handler + s.tail) == w;
    } else if region.TryEnd() <= pc < region.HandlerEnd() {
      OutsideRest(code, region, s, pc);
      LookupSegment(s.prefix + open + s.payload + part, s.handler, s.tail, pc);
    } else if region.HandlerEnd() <= pc {
      OutsideRest(code, region, s, pc);
      LookupSegment(s.prefix + open + s.payload + part + s.handler, s.tail, [], pc);
      assert w + [] == w;
    }
  }

  /** `pc` lies in one part of the body and so outside the concatenation of the others. */
  lemma OutsideRest(code: seq<Byte>, region: Region, s: Scope, pc: int)
    requires Partition(code, region, s)
    ensures Outside([], pc)
    ensures var open, part := [s.ctor, s.store], s.completion + [s.exit];
            && (0 <= pc < s.ctor.offset ==> Outside(open + s.payload + part + s.handler + s.tail, pc))
            && (s.ctor.offset <= pc < region.tryOffset ==>
                  Outside(s.prefix, pc) && Outside(s.payload + part + s.handler + s.tail, pc))
            && (region.tryOffset <= pc < s.PayloadEnd(region) ==>
                  Outside(s.prefix + open, pc) && Outside(part + s.handler + s.tail, pc))
            && (s.PayloadEnd(region) <= pc < region.TryEnd() ==>
                  Outside(s.prefix + open + s.payload, pc) && Outside(s.handler + s.tail, pc))
            && (region.TryEnd() <= pc < region.HandlerEnd() ==>
                  Outside(s.prefix + open + s.payload + part, pc) && Outside(s.tail, pc))
            && (region.HandlerEnd() <= pc ==> Outside(s.prefix + open + s.payload + part + s.handler, pc))
  {
    hide DecodeAt, Decodes, Scope.PayloadEnd, Outside;
    var open, part := [s.ctor, s.store], s.completion + [s.exit];
    SegmentOutside(code, 0, s.ctor.offset, s.prefix, pc);
    SegmentOutside(code, s.ctor.offset, region.tryOffset, open, pc);
    SegmentOutside(code, region.tryOffset, s.PayloadEnd(region), s.payload, pc);
    SegmentOutside(code, s.PayloadEnd(region), region.TryEnd(), part, pc);
    SegmentOutside(code, region.TryEnd(), region.HandlerEnd(), s.handler, pc);
    SegmentOutside(code, region.HandlerEnd(), |code|, s.tail, pc);
    OutsideNothing(pc);
    OutsideJoin(s.prefix, open, pc);
    OutsideJoin(s.prefix + open, s.payload, pc);
    OutsideJoin(s.prefix + open + s.payload, part, pc);
    OutsideJoin(s.prefix + open + s.payload + part, s.handler, pc);
    OutsideJoin(s.handler, s.tail, pc);
    OutsideJoin(part, s.handler, pc);
    OutsideJoin(part + s.handler, s.tail, pc);
    OutsideJoin(s.payload, part, pc);
    OutsideJoin(s.payload + part, s.handler, pc);
    OutsideJoin(s.payload + part + s.handler, s.tail, pc);
    OutsideJoin(open, s.payload, pc);
    OutsideJoin(open + s.payload, part, pc);
    OutsideJoin(open + s.payload + part, s.handler, pc);
    OutsideJoin(open + s.payload + part + s.handler, s.tail, pc);
  }

  lemma OutsideJoin(a: seq<Instruction>, b: seq<Instruction>, pc: int)
    ensures Outside(a, pc) && Outside(b, pc) ==> Outside(a + b, pc)
  {
  }

  /** The rewritten body at the same points, moved. */
  lemma NewLookup(code: seq<Byte>, region: Region, s: Scope, pc: int)
    requires Partition(code, region, s) && Movable(region, s)
    ensures var w, d, e := Rewritten(region, s), PayloadShift(region, s), TailShift(region, s);
            && (0 <= pc < s.ctor.offset ==> Lookup(w, pc) == Lookup(s.prefix, pc))
            && Lookup(w, s.ctor.offset) == Some(CallAt(s.ctor.offset, s.ctor.token))
            && (region.tryOffset <= pc < s.PayloadEnd(region) ==>
                  Lookup(w, pc + d) == Lookup(ShiftAll(s.payload, d), pc + d))
            && Lookup(w, s.PayloadEnd(region) + d) == Some(CallAt(s.PayloadEnd(region) + d, s.Closing()))
            && (region.HandlerEnd() <= pc ==> Lookup(w, pc + e) == Lookup(ShiftAll(s.tail, e), pc + e))
  {
    hide DecodeAt, Decodes, Lookup, ShiftAll, Scope.PayloadEnd, Scope.Closing;
    var d, e := PayloadShift(region, s), TailShift(region, s);
    var one, two := [CallAt(s.ctor.offset, s.ctor.token)], [CallAt(s.PayloadEnd(region) + d, s.Closing())];
    var body, rest := ShiftAll(s.payload, d), ShiftAll(s.tail, e);
    NewOutside(code, region, s, pc);
    var w := Rewritten(region, s);
    assert w == s.prefix + one + body + two + rest;
    LookupOnly(one[0]);
    LookupOnly(two[0]);
    if 0 <= pc < s.ctor.offset {
      LookupSegment([], s.prefix, one + body + two + rest, pc);
      assert [] + s.prefix + (one + body + two + rest) == w;
    }
    LookupSegment(s.prefix, one, body + two + rest, s.ctor.offset);
    assert s.prefix + one + (body + two + rest) == w;
    if region.tryOffset <= pc < s.PayloadEnd(region) {
      LookupSegment(s.prefix + one, body, two + rest, pc + d);
      assert s.prefix + one + body + (two + rest) == w;
    }
    LookupSegment(s.prefix + one + body, two, rest, s.PayloadEnd(region) + d);
    if region.HandlerEnd() <= pc {
      LookupSegment(s.prefix + one + body + two, rest, [], pc + e);
      assert w + [] == w;
    }
  }

  lemma LookupOnly(i: Instruction)
    ensures Lookup([i], i.offset) == Some(i)
  {
  }

  predicate Within(instrs: seq<Instruction>, lo: int, hi: int) {
    forall k :: 0 <= k < |instrs| ==> lo <= instrs[k].offset < hi
  }

  lemma JoinWithin(a: seq<Instruction>, b: seq<Instruction>, lo: int, mid: int, hi: int)
    requires Within(a, lo, mid) && Within(b, mid, hi) && lo <= mid <= hi
    ensures Within(a + b, lo, hi)
  {
  }

  lemma NewOutside(code: seq<Byte>, region: Region, s: Scope, pc: int)
    requires Partition(code, region, s) && Movable(region, s)
    ensures var d, e := PayloadShift(region, s), TailShift(region, s);
            var one, two := [CallAt(s.ctor.offset, s.ctor.token)], [CallAt(s.PayloadEnd(region) + d, s.Closing())];
            var body, rest := ShiftAll(s.payload, d), ShiftAll(s.tail, e);
            && (0 <= pc < s.ctor.offset ==> Outside(one + body + two + rest, pc))
            && Outside(s.prefix, s.ctor.offset) && Outside(body + two + rest, s.ctor.offset)
            && (region.tryOffset <= pc < s.PayloadEnd(region) ==>
                  Outside(s.prefix + one, pc + d) && Outside(two + rest, pc + d))
            && Outside(s.prefix + one + body, s.PayloadEnd(region) + d) && Outside(rest, s.PayloadEnd(region) + d)
            && (region.HandlerEnd() <= pc ==> Outside(s.prefix + one + body + two, pc + e))
            && Outside([], pc)
  {
    hide DecodeAt, Decodes, Scope.PayloadEnd, Scope.Closing, ShiftAll, Outside;
    DecodesBounds(code, 0, s.ctor.offset, s.prefix);
    DecodesBounds(code, region.tryOffset, s.PayloadEnd(region), s.payload);
    DecodesBounds(code, region.HandlerEnd(), |code|, s.tail);
    OutsideNothing(pc);
    var d, e := PayloadShift(region, s), TailShift(region, s);
    ShiftedOffsets(s.payload, d);
    ShiftedOffsets(s.tail, e);
    var a, b := s.ctor.offset, s.PayloadEnd(region) + d;
    var t, end := b + 5, |code| + e;
    var one, two := [CallAt(a, s.ctor.token)], [CallAt(b, s.Closing())];
    var body, rest := ShiftAll(s.payload, d), ShiftAll(s.tail, e);
    assert Within(s.prefix, 0, a) && Within(body, a + 5, b) && Within(rest, t, end);
    OutsideParts(s.prefix, one, body, two, rest, a, b, end, pc, pc + d, pc + e);
  }

  lemma OutsideParts(prefix: seq<Instruction>, one: seq<Instruction>, body: seq<Instruction>, two: seq<Instruction>,
                     rest: seq<Instruction>, a: int, b: int, end: int, x: int, y: int, z: int)
    requires 0 <= a < a + 5 <= b < b + 5 <= end
    requires Within(prefix, 0, a) && Within(one, a, a + 5) && Within(body, a + 5, b) && Within(two, b, b + 5)
             && Within(rest, b + 5, end)
    ensures 0 <= x < a ==> Outside(one + body + two + rest, x)
    ensures Outside(prefix, a) && Outside(body + two + rest, a)
    ensures a + 5 <= y < b ==> Outside(prefix + one, y) && Outside(two + rest, y)
    ensures Outside(prefix + one + body, b) && Outside(rest, b)
    ensures b + 5 <= z ==> Outside(prefix + one + body + two, z)
  {
    NewOutsideParts(prefix, one, body, two, rest, a, b, end);
  }

  lemma NewOutsideParts(prefix: seq<Instruction>, one: seq<Instruction>, body: seq<Instruction>, two: seq<Instruction>,
                        rest: seq<Instruction>, a: int, b: int, end: int)
    requires 0 <= a < a + 5 <= b < b + 5 <= end
    requires Within(prefix, 0, a) && Within(one, a, a + 5) && Within(body, a + 5, b) && Within(two, b, b + 5)
             && Within(rest, b + 5, end)
    ensures Within(one + body + two + rest, a, end) && Within(body + two + rest, a + 5, end)
    ensures Within(prefix + one, 0, a + 5) && Within(two + rest, b, end)
    ensures Within(prefix + one + body, 0, b) && Within(prefix + one + body + two, 0, b + 5)
  {
    hide Within;
    JoinWithin(prefix, one, 0, a, a + 5);
    JoinWithin(prefix + one, body, 0, a + 5, b);
    JoinWithin(prefix + one + body, two, 0, b, b + 5);
    JoinWithin(two, rest, b, b + 5, end);
    JoinWithin(body, two, a + 5, b, b + 5);
    JoinWithin(body + two, rest, a + 5, b + 5, end);
    JoinWithin(one, body, a, a + 5, b);
    JoinWithin(one + body, two, a, b, b + 5);
    JoinWithin(one + body + two, rest, a, b + 5, end);
  }

  lemma OutsideNothing(pc: int)
    ensures Outside([], pc)
  {
  }

  lemma ShiftedOffsets(instrs: seq<Instruction>, d: int)
    requires forall k :: 0 <= k < |instrs| ==> instrs[k].offset + d >= 0
    ensures forall k :: 0 <= k < |instrs| ==> ShiftAll(instrs, d)[k].offset == instrs[k].offset + d
  {
  }
}
