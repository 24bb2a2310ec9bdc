/** The rewrite preserves meaning: the original and the rewritten body run in step, with the
    same state, the same open transaction and the same outcome. */
module ScopeMeaning {
  import opened Wrappers
  import opened Bytes
  import opened Cil
  import opened Splicing
  import opened TransactionScope
  import opened ScopeSplice
  import opened CompactionRuns
  import opened ScopeRuns

  datatype Place = Before | Inside | After

  /** The kept segments with their closing points: the constructor ends the first, the
      completion or exit ends the second. */
  predicate InPlace(region: Region, s: Scope, place: Place, pc: int) {
    match place
    case Before => 0 <= pc <= s.ctor.offset
    case Inside => region.tryOffset <= pc <= s.PayloadEnd(region)
    case After => region.HandlerEnd() <= pc
  }

  function Moved(region: Region, s: Scope, place: Place): int {
    match place
    case Before => 0
    case Inside => PayloadShift(region, s)
    case After => TailShift(region, s)
  }

  predicate SamePlace(region: Region, s: Scope, place: Place, p: int, q: int) {
    InPlace(region, s, place, p) && q == p + Moved(region, s, place)
  }

  /** Same state and transaction, no scope reference in flight; inside the scope the original
      holds it in its local and a transaction is active in both. */
  predicate Agreeing<S(==)>(place: Place, m: Machine<S>, n: Machine<S>) {
    m.state == n.state && m.tx == n.tx && m.stack == [] && n.stack == [] &&
    (!place.After? ==> m.scopeLocal.Some?) && (place.Inside? ==> m.scopeLocal == Some(true) && m.tx == Active)
  }

  ghost predicate Synced<S>(region: Region, s: Scope, c: Config<Machine<S>>, d: Config<Machine<S>>) {
    if c.At? && d.At? then
      exists place :: SamePlace(region, s, place, c.pc, d.pc) && Agreeing(place, c.state, d.state)
    else if c.Done? && d.Done? then c.state.state == d.state.state && c.state.tx == d.state.tx
    else c.Stuck? && d.Stuck?
  }

  ghost predicate Setting(controls: Controls, projected: set<int>, code: seq<Byte>, region: Region, s: Scope) {
    IsScope(controls, |code|, region, s) && Partition(code, region, s) && Movable(region, s) && Projects(projected, s)
  }

  // ---- Where the two programs part ----

  /** The rewritten body has at `pc` an instruction from around the scope that diverges. */
  ghost predicate DivergesAt(controls: Controls, projected: set<int>, region: Region, s: Scope, pc: int)
    requires Movable(region, s)
  {
    var found := Lookup(Rewritten(region, s), pc);
    found.Some? && (pc < s.ctor.offset || pc > CloseAt(region, s)) && Diverges(controls, projected, found.value)
  }

  /** It has one from behind the handler that loads the scope's local. */
  ghost predicate LoadsAt(region: Region, s: Scope, pc: int)
    requires Movable(region, s)
  {
    var found := Lookup(Rewritten(region, s), pc);
    found.Some? && pc > CloseAt(region, s) && LocalIndex(found.value, false) == Some(Local(s))
  }

  /** It has one from behind the handler that stores to it. */
  ghost predicate StoresAt(region: Region, s: Scope, pc: int)
    requires Movable(region, s)
  {
    var found := Lookup(Rewritten(region, s), pc);
    found.Some? && pc > CloseAt(region, s) && LocalIndex(found.value, true) == Some(Local(s))
  }

  /** A way that comes to an instruction that diverges, or to a load of the scope's local behind the handler
      without a store to it on that way. */
  ghost predicate StraysAlong(controls: Controls, projected: set<int>, region: Region, s: Scope, path: seq<Flow>)
    requires Movable(region, s)
  {
    var pc := Follow(Rewritten(region, s), 0, path);
    pc.Some? && (DivergesAt(controls, projected, region, s, pc.value) ||
                 (LoadsAt(region, s, pc.value) && !StoresAlong(region, s, path)))
  }

  ghost predicate StoresAlong(region: Region, s: Scope, path: seq<Flow>)
    requires Movable(region, s)
  {
    exists j: nat :: j < |path| && var pc := Follow(Rewritten(region, s), 0, path[..j]);
                                   pc.Some? && StoresAt(region, s, pc.value)
  }

  /** Some way through the rewritten body does. */
  ghost predicate Strays(controls: Controls, projected: set<int>, region: Region, s: Scope)
    requires Movable(region, s)
  {
    exists path :: StraysAlong(controls, projected, region, s, path)
  }

  // ---- One instruction outside the scaffolding ----

  /** It does the same in both programs. */
  lemma OrdinarySync<S>(controls: Controls, projected: set<int>, region: Region, s: Scope, world: World<S>,
                        place: Place, i: Instruction, m: Machine<S>, n: Machine<S>)
    requires Movable(region, s) && Agreeing(place, m, n)
    requires Kept(OldProgram(controls, region, s), projected, region, s, place, i, m)
    ensures var c := Exec(OldProgram(controls, region, s), world, i, m);
            && Synced(region, s, c, Exec(NewProgram(controls, projected, region, s), world,
                                         Shift(i, Moved(region, s, place)), n))
            && (c.At? ==> (c.state.scopeLocal.None? <==>
                             m.scopeLocal.None? || (place.After? && LocalIndex(i, true) == Some(Local(s)))))
  {
    hide LocalIndex, Moved, Rewritten, Movable, Scaffold;
    var delta := Moved(region, s, place);
    var old', new' := OldProgram(controls, region, s), NewProgram(controls, projected, region, s);
    OrdinaryExec(old', world, i, m);
    ShiftKeeps(i, delta);
    OrdinaryExec(new', world, Shift(i, delta), n);
    var (state, flow) := world(InAct(i.opcode, i.immediate, i.token), m.state, m.tx);
    var after := AfterWorld(old', i, m, state);
    assert Agreeing(place, after, n.(state := state));
    if flow.Next? {
      assert SamePlace(region, s, place, i.End(), i.End() + delta);
    } else if flow.Jump? && flow.n < |i.targets| {
      assert SamePlace(region, s, place, i.targets[flow.n], i.targets[flow.n] + delta);
    }
  }

  lemma ShiftKeeps(i: Instruction, d: int)
    requires i.offset + d >= 0
    ensures Shift(i, d).token == i.token && Shift(i, d).opcode == i.opcode && Shift(i, d).immediate == i.immediate
    ensures Shift(i, d).End() == i.End() + d && |Shift(i, d).targets| == |i.targets|
    ensures forall j :: 0 <= j < |i.targets| ==> Shift(i, d).targets[j] == i.targets[j] + d
  {
  }

  // ---- The kept segments, instruction by instruction ----

  /** A kept instruction is ordinary in the original, calls nothing projected, stores to the scope's local
      behind the handler alone, and stays in its place. */
  predicate Kept<S>(p: Program, projected: set<int>, region: Region, s: Scope, place: Place, i: Instruction,
                    m: Machine<S>)
    requires p.frame.Some?
  {
    && Ordinary(p, i, m) && !CallsProjected(p.controls, projected, i)
    && (p.frame.value.Stores(i) <==> place.After? && LocalIndex(i, true) == Some(Local(s)))
    && InPlace(region, s, place, i.End()) && i.offset + Moved(region, s, place) >= 0
    && forall j :: 0 <= j < |i.targets| ==> InPlace(region, s, place, i.targets[j])
  }

  lemma BeforeKept<S>(controls: Controls, projected: set<int>, code: seq<Byte>, region: Region, s: Scope, pc: int,
                      m: Machine<S>)
    requires Setting(controls, projected, code, region, s) && Lookup(s.prefix, pc).Some? && m.stack == []
    requires !Diverges(controls, projected, Lookup(s.prefix, pc).value)
    ensures Kept(OldProgram(controls, region, s), projected, region, s, Before, Lookup(s.prefix, pc).value, m)
  {
    hide LocalIndex, Decodes, Scope.PayloadEnd, IsDisposal, IsCompletion, ArePayload, Lookup, Scope.Whole, Movable;
    var i := Lookup(s.prefix, pc).value;
    var k := FindIn(code, 0, s.ctor.offset, s.prefix, i);
    assert BranchesWithin(s.prefix[k], 0, s.ctor.offset);
    DecodesBounds(code, s.ctor.offset, region.tryOffset, [s.ctor, s.store]);
    assert [s.ctor, s.store][0].End() <= region.tryOffset;
  }

  lemma InsideKept<S>(controls: Controls, projected: set<int>, code: seq<Byte>, region: Region, s: Scope, pc: int,
                      m: Machine<S>)
    requires Setting(controls, projected, code, region, s) && Lookup(s.payload, pc).Some? && m.stack == []
    ensures Kept(OldProgram(controls, region, s), projected, region, s, Inside, Lookup(s.payload, pc).value, m)
  {
    hide LocalIndex, Decodes, Scope.PayloadEnd, IsDisposal, IsCompletion, AllWithin, Lookup, Scope.Whole;
    var i := Lookup(s.payload, pc).value;
    var k := FindIn(code, region.tryOffset, s.PayloadEnd(region), s.payload, i);
    assert IsPayload(controls, s.payload[k], LocalIndex(s.store, true).value, region.tryOffset, s.PayloadEnd(region));
  }

  lemma AfterKept<S>(controls: Controls, projected: set<int>, code: seq<Byte>, region: Region, s: Scope, pc: int,
                     m: Machine<S>)
    requires Setting(controls, projected, code, region, s) && Lookup(s.tail, pc).Some? && m.stack == []
    requires !Diverges(controls, projected, Lookup(s.tail, pc).value)
    requires LocalIndex(Lookup(s.tail, pc).value, false) == Some(Local(s)) ==> m.scopeLocal.None?
    ensures Kept(OldProgram(controls, region, s), projected, region, s, After, Lookup(s.tail, pc).value, m)
  {
    hide LocalIndex, Decodes, Scope.PayloadEnd, IsDisposal, IsCompletion, ArePayload, Lookup, Scope.Whole;
    var i := Lookup(s.tail, pc).value;
    var k := FindIn(code, region.HandlerEnd(), |code|, s.tail, i);
    assert BranchesWithin(s.tail[k], region.HandlerEnd(), |code|);
  }

  /** A step gives the local away exactly when it stores to it behind the handler. */
  predicate Tracks<S>(c: Config<Machine<S>>, after: Config<Machine<S>>, stores: bool) {
    c.At? && after.At? ==> (after.state.scopeLocal.None? <==> c.state.scopeLocal.None? || stores)
  }

  lemma BeforeStep<S>(controls: Controls, projected: set<int>, code: seq<Byte>, region: Region, s: Scope,
                      world: World<S>, c: Config<Machine<S>>, d: Config<Machine<S>>)
    requires Setting(controls, projected, code, region, s) && c.At? && d.At? && c.pc != s.ctor.offset
    requires SamePlace(region, s, Before, c.pc, d.pc) && Agreeing(Before, c.state, d.state)
    requires !DivergesAt(controls, projected, region, s, d.pc)
    ensures var after := Step(OldProgram(controls, region, s), world, c);
            && Synced(region, s, after, Step(NewProgram(controls, projected, region, s), world, d))
            && Tracks(c, after, false)
  {
    hide Exec, IsScope, Partition, Movable, Scope.PayloadEnd, Rewritten, Lookup, Scope.Whole, Ordinary, Diverges;
    OldLookup(code, region, s, c.pc);
    NewLookup(code, region, s, c.pc);
    if Lookup(s.prefix, c.pc).Some? {
      var i := Lookup(s.prefix, c.pc).value;
      BeforeKept(controls, projected, code, region, s, c.pc, c.state);
      NoMove(i);
      OrdinarySync(controls, projected, region, s, world, Before, i, c.state, d.state);
    }
  }

  lemma InsideStep<S>(controls: Controls, projected: set<int>, code: seq<Byte>, region: Region, s: Scope,
                      world: World<S>, c: Config<Machine<S>>, d: Config<Machine<S>>)
    requires Setting(controls, projected, code, region, s) && c.At? && d.At? && c.pc != s.PayloadEnd(region)
    requires SamePlace(region, s, Inside, c.pc, d.pc) && Agreeing(Inside, c.state, d.state)
    ensures var after := Step(OldProgram(controls, region, s), world, c);
            && Synced(region, s, after, Step(NewProgram(controls, projected, region, s), world, d))
            && Tracks(c, after, false)
  {
    hide Exec, IsScope, Partition, Scope.PayloadEnd, Rewritten, Lookup, Scope.Whole, Ordinary, Diverges;
    OldLookup(code, region, s, c.pc);
    NewLookup(code, region, s, c.pc);
    LookupShifted(s.payload, PayloadShift(region, s), c.pc);
    if Lookup(s.payload, c.pc).Some? {
      InsideKept(controls, projected, code, region, s, c.pc, c.state);
      OrdinarySync(controls, projected, region, s, world, Inside, Lookup(s.payload, c.pc).value, c.state, d.state);
    }
  }

  lemma AfterStep<S>(controls: Controls, projected: set<int>, code: seq<Byte>, region: Region, s: Scope,
                     world: World<S>, c: Config<Machine<S>>, d: Config<Machine<S>>)
    requires Setting(controls, projected, code, region, s) && c.At? && d.At?
    requires SamePlace(region, s, After, c.pc, d.pc) && Agreeing(After, c.state, d.state)
    requires !DivergesAt(controls, projected, region, s, d.pc)
    requires LoadsAt(region, s, d.pc) ==> c.state.scopeLocal.None?
    ensures var after := Step(OldProgram(controls, region, s), world, c);
            && Synced(region, s, after, Step(NewProgram(controls, projected, region, s), world, d))
            && Tracks(c, after, StoresAt(region, s, d.pc))
  {
    hide Exec, IsScope, Partition, Scope.PayloadEnd, Rewritten, Lookup, Scope.Whole, Ordinary, Diverges, LocalIndex;
    OldLookup(code, region, s, c.pc);
    NewLookup(code, region, s, c.pc);
    LookupShifted(s.tail, TailShift(region, s), c.pc);
    if Lookup(s.tail, c.pc).Some? {
      var i := Lookup(s.tail, c.pc).value;
      ShiftKinds(controls, projected, i, TailShift(region, s));
      AfterKept(controls, projected, code, region, s, c.pc, c.state);
      OrdinarySync(controls, projected, region, s, world, After, i, c.state, d.state);
    }
  }

  lemma ShiftKinds(controls: Controls, projected: set<int>, i: Instruction, d: int)
    requires i.offset + d >= 0
    ensures Diverges(controls, projected, Shift(i, d)) <==> Diverges(controls, projected, i)
    ensures forall store :: LocalIndex(Shift(i, d), store) == LocalIndex(i, store)
  {
  }

  lemma FindIn(code: seq<Byte>, lo: nat, hi: nat, instrs: seq<Instruction>, i: Instruction) returns (k: nat)
    requires Decodes(code, lo, hi, instrs) && i in instrs
    ensures k < |instrs| && instrs[k] == i && lo <= i.offset < i.End() <= hi
  {
    hide DecodeAt, Decodes;
    DecodesBounds(code, lo, hi, instrs);
    k :| 0 <= k < |instrs| && instrs[k] == i;
  }

  lemma NoMove(i: Instruction)
    ensures Shift(i, 0) == i
  {
    assert Shift(i, 0).targets == i.targets;
  }

  // ---- The scaffolding ----

  /** An instruction of a segment is found at its offset, and the next one follows it. */
  lemma {:induction false} LookupAt(code: seq<Byte>, lo: nat, hi: nat, instrs: seq<Instruction>, k: nat)
    requires Decodes(code, lo, hi, instrs) && k < |instrs|
    ensures Lookup(instrs, instrs[k].offset) == Some(instrs[k])
    ensures instrs[k].End() == (if k + 1 < |instrs| then instrs[k + 1].offset else hi)
    ensures k == 0 ==> instrs[k].offset == lo
    ensures lo <= instrs[k].offset < hi && instrs[k].offset < instrs[k].End()
    decreases k
  {
    hide DecodeAt;
    DecodesBounds(code, lo, hi, instrs);
    if k > 0 {
      DecodesBounds(code, instrs[0].End(), hi, instrs[1..]);
      LookupAt(code, instrs[0].End(), hi, instrs[1..], k - 1);
      assert instrs[k] == instrs[1..][k - 1];
      if k + 1 < |instrs| { assert instrs[k + 1] == instrs[1..][k]; }
    } else if |instrs| > 1 {
      DecodesBounds(code, instrs[0].End(), hi, instrs[1..]);
      assert instrs[1] == instrs[1..][0];
    }
  }

  lemma ExecNew<S>(p: Program, world: World<S>, i: Instruction, m: Machine<S>)
    requires p.frame.Some? && i.opcode == NEWOBJ && p.controls(i.token) == Constructor && m.stack == []
    ensures Exec(p, world, i, m) == At(i.End(), m.(stack := [true], tx := Active))
  {
    assert [] + [true] == [true];
  }

  lemma ExecStore<S>(p: Program, world: World<S>, i: Instruction, m: Machine<S>)
    requires p.frame.Some? && p.frame.value.Stores(i) && m.stack == [true]
    ensures Exec(p, world, i, m) == At(i.End(), m.(scopeLocal := Some(true), stack := []))
  {
    assert Pop([true]) == [];
  }

  lemma ExecLoad<S>(p: Program, world: World<S>, i: Instruction, m: Machine<S>)
    requires p.frame.Some? && p.frame.value.Loads(i) && m.stack == [] && m.scopeLocal == Some(true)
    ensures Exec(p, world, i, m) == At(i.End(), m.(stack := [true]))
  {
    assert [] + [true] == [true];
  }

  lemma ExecVirtual<S>(p: Program, world: World<S>, i: Instruction, m: Machine<S>)
    requires p.frame.Some? && i.opcode == CALLVIRT && p.controls(i.token) in {Complete, Dispose} && m.stack == [true]
    ensures Exec(p, world, i, m) == At(i.End(), m.(stack := [], tx := Virtual(p.controls(i.token), m.tx)))
  {
    hide Virtual;
    assert Pop([true]) == [];
  }

  /** brfalse on a live scope falls through. */
  lemma ExecNullTest<S>(p: Program, world: World<S>, i: Instruction, m: Machine<S>)
    requires p.frame.Some? && i.opcode in {0x2c, 0x39} && |i.targets| == 1 && m.stack == [true]
    ensures Exec(p, world, i, m) == At(i.End(), m.(stack := []))
  {
    assert Pop([true]) == [];
  }

  lemma ExecLeave<S>(p: Program, world: World<S>, i: Instruction, m: Machine<S>)
    requires p.frame.Some? && i.opcode in {LEAVE, LEAVE_S} && p.frame.value.InTry(i.offset) && |i.targets| == 1
    ensures Exec(p, world, i, m) == At(p.frame.value.region.handlerOffset, m.(pending := i.targets[0]))
  {
  }

  lemma ExecEndfinally<S>(p: Program, world: World<S>, i: Instruction, m: Machine<S>)
    requires p.frame.Some? && i.opcode == ENDFINALLY && p.frame.value.InHandler(i.offset)
    ensures Exec(p, world, i, m) == At(m.pending, m)
  {
  }

  lemma ExecCall<S>(p: Program, world: World<S>, i: Instruction, m: Machine<S>)
    requires p.frame.None? && i.opcode == CALL && i.token in p.projected && p.controls(i.token) != NoControl
    ensures Exec(p, world, i, m) == At(i.End(), m.(tx := Projected(p.controls(i.token))))
  {
  }

  /** The k-th instruction of a part is found in the original body, and the next follows it. */
  predicate Placed(code: seq<Byte>, p: Program, part: seq<Instruction>, k: nat, lo: nat, hi: nat)
    requires k < |part|
  {
    && Lookup(p.instrs, part[k].offset) == Some(part[k])
    && part[k].End() == (if k + 1 < |part| then part[k + 1].offset else hi)
    && (k == 0 ==> part[0].offset == lo) && lo <= part[k].offset < hi && part[k].offset < part[k].End()
  }

  /** newobj; stloc against the call to Begin. */
  lemma BeginStep<S>(controls: Controls, projected: set<int>, code: seq<Byte>, region: Region, s: Scope,
                     world: World<S>, c: Config<Machine<S>>, d: Config<Machine<S>>)
    requires Setting(controls, projected, code, region, s) && c.At? && d.At? && c.pc == s.ctor.offset
    requires SamePlace(region, s, Before, c.pc, d.pc) && Agreeing(Before, c.state, d.state)
    ensures var after := Run(OldProgram(controls, region, s), world, c, 2);
            && Synced(region, s, after, Step(NewProgram(controls, projected, region, s), world, d))
            && Tracks(c, after, false)
  {
    hide Decodes, Scope.PayloadEnd, IsDisposal, IsCompletion, ArePayload, Rewritten, Lookup, AllWithin, Scope.Whole,
         Exec, LocalIndex;
    var open := [s.ctor, s.store];
    var p, q := OldProgram(controls, region, s), NewProgram(controls, projected, region, s);
    LookupAt(code, s.ctor.offset, region.tryOffset, open, 0);
    LookupAt(code, s.ctor.offset, region.tryOffset, open, 1);
    OldLookup(code, region, s, s.ctor.offset);
    OldLookup(code, region, s, s.store.offset);
    NewLookup(code, region, s, s.ctor.offset);
    var begun := c.state.(stack := [true], tx := Active);
    var stored := begun.(scopeLocal := Some(true), stack := []);
    ExecNew(p, world, s.ctor, c.state);
    ExecStore(p, world, s.store, begun);
    var c1 := Step(p, world, c);
    assert c1 == At(s.store.offset, begun);
    var c2 := Step(p, world, c1);
    assert c2 == At(region.tryOffset, stored);
    assert Run(p, world, c, 2) == Run(p, world, c1, 1) == Run(p, world, c2, 0) == c2;
    ExecCall(q, world, CallAt(s.ctor.offset, s.ctor.token), d.state);
    var d1 := Step(q, world, d);
    assert d1 == At(s.ctor.offset + 5, d.state.(tx := Active));
    assert InPlace(region, s, Inside, region.tryOffset);
    assert SamePlace(region, s, Inside, c2.pc, d1.pc);
    assert Agreeing(Inside, stored, d1.state);
  }

  lemma HandlerPlaced(controls: Controls, code: seq<Byte>, region: Region, s: Scope, k: nat)
    requires Partition(code, region, s) && k < 5
    ensures Placed(code, OldProgram(controls, region, s), s.handler, k, region.TryEnd(), region.HandlerEnd())
  {
    hide Decodes, Scope.PayloadEnd, Lookup, Scope.Whole;
    LookupAt(code, region.TryEnd(), region.HandlerEnd(), s.handler, k);
    OldLookup(code, region, s, s.handler[k].offset);
  }

  /** The finally block disposes the scope and continues where leave pointed. */
  lemma HandlerRuns<S>(controls: Controls, projected: set<int>, code: seq<Byte>, region: Region, s: Scope,
                       world: World<S>, m: Machine<S>)
    requires Setting(controls, projected, code, region, s)
    requires m.stack == [] && m.scopeLocal == Some(true) && m.pending == region.HandlerEnd()
    ensures Run(OldProgram(controls, region, s), world, At(region.TryEnd(), m), 5) ==
            At(region.HandlerEnd(), m.(tx := Virtual(Dispose, m.tx)))
  {
    hide Decodes, Scope.PayloadEnd, IsCompletion, ArePayload, Lookup, AllWithin, Movable, Scope.Whole, Virtual, Exec,
         LocalIndex, Run;
    var h, p := s.handler, OldProgram(controls, region, s);
    HandlerPlaced(controls, code, region, s, 0);
    HandlerPlaced(controls, code, region, s, 1);
    HandlerPlaced(controls, code, region, s, 2);
    HandlerPlaced(controls, code, region, s, 3);
    HandlerPlaced(controls, code, region, s, 4);
    var pushed, disposed := m.(stack := [true]), m.(tx := Virtual(Dispose, m.tx));
    ExecLoad(p, world, h[0], m);
    ExecNullTest(p, world, h[1], pushed);
    ExecLoad(p, world, h[2], m);
    ExecVirtual(p, world, h[3], pushed);
    ExecEndfinally(p, world, h[4], disposed);
    assert Step(p, world, At(h[0].offset, m)) == At(h[1].offset, pushed);
    assert Step(p, world, At(h[1].offset, pushed)) == At(h[2].offset, m);
    assert Step(p, world, At(h[2].offset, m)) == At(h[3].offset, pushed);
    assert Step(p, world, At(h[3].offset, pushed)) == At(h[4].offset, disposed);
    assert Step(p, world, At(h[4].offset, disposed)) == At(region.HandlerEnd(), disposed);
    RunFive(p, world, At(region.TryEnd(), m));
  }

  lemma RunFive<S>(p: Program, world: World<S>, c: Config<Machine<S>>)
    ensures Run(p, world, c, 5) ==
            Step(p, world, Step(p, world, Step(p, world, Step(p, world, Step(p, world, c)))))
  {
    hide Step;
    var c1 := Step(p, world, c);
    var c2 := Step(p, world, c1);
    var c3 := Step(p, world, c2);
    assert Run(p, world, c, 5) == Run(p, world, c1, 4) == Run(p, world, c2, 3) == Run(p, world, c3, 2);
    assert Run(p, world, c3, 2) == Run(p, world, Step(p, world, c3), 1);
  }

  lemma ExitPlaced(controls: Controls, code: seq<Byte>, region: Region, s: Scope, k: nat)
    requires Partition(code, region, s) && k < |s.completion| + 1
    ensures Placed(code, OldProgram(controls, region, s), s.completion + [s.exit], k, s.PayloadEnd(region),
                   region.TryEnd())
  {
    hide Decodes, Scope.PayloadEnd, Lookup, Scope.Whole;
    var part := s.completion + [s.exit];
    LookupAt(code, s.PayloadEnd(region), region.TryEnd(), part, k);
    OldLookup(code, region, s, part[k].offset);
  }

  lemma ExitLeaves<S>(controls: Controls, projected: set<int>, code: seq<Byte>, region: Region, s: Scope,
                      world: World<S>, m: Machine<S>)
    requires Setting(controls, projected, code, region, s)
    ensures Step(OldProgram(controls, region, s), world, At(s.exit.offset, m)) ==
            At(region.TryEnd(), m.(pending := region.HandlerEnd()))
  {
    hide Decodes, Scope.PayloadEnd, IsCompletion, IsDisposal, ArePayload, Lookup, AllWithin, Movable, Scope.Whole,
         Exec, LocalIndex;
    var part, p := s.completion + [s.exit], OldProgram(controls, region, s);
    ExitPlaced(controls, code, region, s, |s.completion|);
    assert part[|s.completion|] == s.exit;
    ExecLeave(p, world, s.exit, m);
  }

  /** The optional Complete call and the leave instruction, up to the finally block. */
  lemma ExitRuns<S>(controls: Controls, projected: set<int>, code: seq<Byte>, region: Region, s: Scope, world: World<S>,
                    m: Machine<S>)
    requires Setting(controls, projected, code, region, s)
    requires m.stack == [] && m.scopeLocal == Some(true)
    ensures Run(OldProgram(controls, region, s), world, At(s.PayloadEnd(region), m), |s.completion| + 1) ==
            At(region.TryEnd(), m.(tx := if s.Completed() then Tx.Completed else m.tx, pending := region.HandlerEnd()))
  {
    hide Decodes, Scope.PayloadEnd, IsDisposal, ArePayload, Lookup, AllWithin, Movable, Scope.Whole, Exec, LocalIndex,
         Step;
    var part, p := s.completion + [s.exit], OldProgram(controls, region, s);
    var c0 := At(s.PayloadEnd(region), m);
    ExitPlaced(controls, code, region, s, 0);
    if s.Completed() {
      assert part[0] == s.completion[0] && part[1] == s.completion[1] && part[2] == s.exit;
      var pushed, completed := m.(stack := [true]), m.(tx := Tx.Completed);
      ExitPlaced(controls, code, region, s, 1);
      ExecLoad(p, world, part[0], m);
      ExecVirtual(p, world, part[1], pushed);
      StepIs(p, world, part[0], m);
      StepIs(p, world, part[1], pushed);
      ExitLeaves(controls, projected, code, region, s, world, completed);
      var c1, c2 := At(part[1].offset, pushed), At(part[2].offset, completed);
      assert Run(p, world, c0, 3) == Run(p, world, c1, 2) == Run(p, world, c2, 1)
             == Run(p, world, Step(p, world, c2), 0);
    } else {
      assert part[0] == s.exit;
      ExitLeaves(controls, projected, code, region, s, world, m);
      assert Run(p, world, c0, 1) == Run(p, world, Step(p, world, c0), 0);
    }
  }

  lemma StepIs<S>(p: Program, world: World<S>, i: Instruction, m: Machine<S>)
    requires Lookup(p.instrs, i.offset) == Some(i)
    ensures Step(p, world, At(i.offset, m)) == Exec(p, world, i, m)
  {
  }

  /** Leaving the scope against the call to Commit or Abort. */
  lemma CloseStep<S>(controls: Controls, projected: set<int>, code: seq<Byte>, region: Region, s: Scope,
                     world: World<S>, c: Config<Machine<S>>, d: Config<Machine<S>>)
    requires Setting(controls, projected, code, region, s) && c.At? && d.At? && c.pc == s.PayloadEnd(region)
    requires SamePlace(region, s, Inside, c.pc, d.pc) && Agreeing(Inside, c.state, d.state)
    ensures var after := Run(OldProgram(controls, region, s), world, c, |s.completion| + 1 + 5);
            && Synced(region, s, after, Step(NewProgram(controls, projected, region, s), world, d))
            && Tracks(c, after, false)
  {
    hide Decodes, Scope.PayloadEnd, IsScope, Lookup, Scope.Whole, Rewritten, Run, Scope.Closing, Exec, Movable;
    SettingMovable(controls, projected, code, region, s);
    ExitRuns(controls, projected, code, region, s, world, c.state);
    IsScopeControls(controls, |code|, region, s);
    NewLookup(code, region, s, c.pc);
    var p, q := OldProgram(controls, region, s), NewProgram(controls, projected, region, s);
    var m := c.state.(tx := if s.Completed() then Tx.Completed else c.state.tx, pending := region.HandlerEnd());
    HandlerRuns(controls, projected, code, region, s, world, m);
    RunSplit(p, world, c, |s.completion| + 1, 5);
    var after := m.(tx := Virtual(Dispose, m.tx));
    ExecCall(q, world, CallAt(d.pc, s.Closing()), d.state);
    StepIs(q, world, CallAt(d.pc, s.Closing()), d.state);
    var d1 := Step(q, world, d);
    assert d1 == At(d.pc + 5, d.state.(tx := if s.Completed() then Committed else Aborted));
    assert SamePlace(region, s, After, region.HandlerEnd(), d1.pc);
    assert Agreeing(After, after, d1.state);
  }

  /** Nothing there parts the programs: only what the original still has in its local. */
  ghost predicate Untrapped<S>(controls: Controls, projected: set<int>, region: Region, s: Scope, d: Config<Machine<S>>,
                               stored: bool)
    requires Movable(region, s)
  {
    d.At? ==> !DivergesAt(controls, projected, region, s, d.pc) && (LoadsAt(region, s, d.pc) ==> stored)
  }

  /** One step of the rewritten body is at least one step of the original. */
  lemma SyncedStep<S>(controls: Controls, projected: set<int>, code: seq<Byte>, region: Region, s: Scope,
                      world: World<S>, c: Config<Machine<S>>, d: Config<Machine<S>>) returns (n: nat)
    requires Setting(controls, projected, code, region, s) && Synced(region, s, c, d)
    requires c.At? ==> Untrapped(controls, projected, region, s, d, c.state.scopeLocal.None?)
    ensures n >= 1
    ensures var after := Run(OldProgram(controls, region, s), world, c, n);
            && Synced(region, s, after, Step(NewProgram(controls, projected, region, s), world, d))
            && (d.At? ==> Tracks(c, after, StoresAt(region, s, d.pc)))
            && (!c.At? ==> !after.At?)
  {
    hide Setting, Step, Scope.PayloadEnd, Tracks, DivergesAt, LoadsAt;
    n := 1;
    OneRun(OldProgram(controls, region, s), world, c);
    SettingMovable(controls, projected, code, region, s);
    if c.At? {
      var place :| SamePlace(region, s, place, c.pc, d.pc) && Agreeing(place, c.state, d.state);
      EarlyPlace(region, s, place, c.pc, d.pc);
      match place {
        case Before =>
          if c.pc == s.ctor.offset {
            n := 2;
            BeginStep(controls, projected, code, region, s, world, c, d);
          } else {
            BeforeStep(controls, projected, code, region, s, world, c, d);
          }
        case Inside =>
          if c.pc == s.PayloadEnd(region) {
            n := |s.completion| + 1 + 5;
            CloseStep(controls, projected, code, region, s, world, c, d);
          } else {
            InsideStep(controls, projected, code, region, s, world, c, d);
          }
        case After => AfterStep(controls, projected, code, region, s, world, c, d);
      }
    } else {
      StoppedStays(OldProgram(controls, region, s), world, c);
      StoppedStays(NewProgram(controls, projected, region, s), world, d);
    }
  }

  lemma EarlyPlace(region: Region, s: Scope, place: Place, p: int, q: int)
    requires Movable(region, s) && SamePlace(region, s, place, p, q)
    ensures !place.After? ==> !StoresAt(region, s, q)
  {
    hide Scope.PayloadEnd, Lookup, Rewritten;
  }

  lemma SettingMovable(controls: Controls, projected: set<int>, code: seq<Byte>, region: Region, s: Scope)
    requires Setting(controls, projected, code, region, s)
    ensures Movable(region, s)
  {
  }

  lemma OneRun<S>(p: Program, world: World<S>, c: Config<Machine<S>>)
    ensures Run(p, world, c, 1) == Step(p, world, c)
  {
    hide Step;
    assert Run(p, world, c, 1) == Run(p, world, Step(p, world, c), 0);
  }

  lemma StoppedStays<S>(p: Program, world: World<S>, c: Config<Machine<S>>)
    requires !c.At?
    ensures Step(p, world, c) == c
  {
  }

  /** The first k steps of a run pass a store to the scope's local behind the handler. */
  ghost predicate Stored<S>(region: Region, s: Scope, q: Program, world: World<S>, d: Config<Machine<S>>, k: nat)
    requires Movable(region, s)
  {
    exists j: nat :: j < k && StoresIn(region, s, Run(q, world, d, j))
  }

  ghost predicate StoresIn<S>(region: Region, s: Scope, d: Config<Machine<S>>)
    requires Movable(region, s)
  {
    d.At? && StoresAt(region, s, d.pc)
  }

  /** As long as nothing parts them, the original runs in step. */
  lemma {:induction false} SyncedRun<S>(controls: Controls, projected: set<int>, code: seq<Byte>, region: Region,
                                        s: Scope, world: World<S>, c: Config<Machine<S>>, d: Config<Machine<S>>, m: nat)
    returns (n: nat)
    requires Setting(controls, projected, code, region, s) && Movable(region, s) && Synced(region, s, c, d)
    requires c.At? ==> c.state.scopeLocal.Some?
    requires var q := NewProgram(controls, projected, region, s);
             forall k: nat :: k < m ==>
               Untrapped(controls, projected, region, s, Run(q, world, d, k), Stored(region, s, q, world, d, k))
    ensures n >= m
    ensures var q := NewProgram(controls, projected, region, s);
            var after := Run(OldProgram(controls, region, s), world, c, n);
            && Synced(region, s, after, Run(q, world, d, m))
            && (after.At? ==> (after.state.scopeLocal.None? <==> Stored(region, s, q, world, d, m)))
    decreases m
  {
    hide Setting, Step, Run, Synced, Movable, OldProgram, NewProgram, DivergesAt, LoadsAt, StoresAt;
    var p, q := OldProgram(controls, region, s), NewProgram(controls, projected, region, s);
    n := 0;
    NoRun(p, world, c);
    NoRun(q, world, d);
    if m > 0 {
      n := SyncedRun(controls, projected, code, region, s, world, c, d, m - 1);
      var c1, d1 := Run(p, world, c, n), Run(q, world, d, m - 1);
      SyncedAt(region, s, c1, d1);
      assert Untrapped(controls, projected, region, s, d1, Stored(region, s, q, world, d, m - 1));
      var last := SyncedStep(controls, projected, code, region, s, world, c1, d1);
      RunSplit(p, world, c, n, last);
      RunSplit(q, world, d, m - 1, 1);
      OneRun(q, world, d1);
      StoredMore(region, s, q, world, d, m);
      n := n + last;
    }
  }

  lemma StoredMore<S>(region: Region, s: Scope, q: Program, world: World<S>, d: Config<Machine<S>>, m: nat)
    requires Movable(region, s) && m > 0
    ensures Stored(region, s, q, world, d, m) <==>
            Stored(region, s, q, world, d, m - 1) || StoresIn(region, s, Run(q, world, d, m - 1))
  {
    hide Run, StoresIn;
  }

  lemma NoRun<S>(p: Program, world: World<S>, c: Config<Machine<S>>)
    ensures Run(p, world, c, 0) == c
  {
  }

  lemma SyncedAt<S>(region: Region, s: Scope, c: Config<Machine<S>>, d: Config<Machine<S>>)
    requires Synced(region, s, c, d)
    ensures c.At? <==> d.At?
  {
  }

  function Start<S>(state: S): Config<Machine<S>> { At(0, Machine(state, Some(false), [], Idle, 0)) }

  lemma StartsSynced<S>(region: Region, s: Scope, state: S)
    ensures Synced(region, s, Start(state), Start(state))
  {
    assert SamePlace(region, s, Before, 0, 0) && Agreeing(Before, Start(state).state, Start(state).state);
  }

  /** When no way through the rewritten octets strays, every run of them, from any state, is matched by a run
      of the original that is at least as long and ends in the same state, at the same kept instruction, with
      the same transaction outcome. */
  lemma RewritePreservesMeaning<S>(controls: Controls, projected: set<int>, code: seq<Byte>, region: Region, s: Scope,
                                   world: World<S>, state: S, m: nat) returns (n: nat)
    requires IsScopeOf(controls, code, region, s) && Projects(projected, s)
    requires Movable(region, s) && !Strays(controls, projected, region, s)
    ensures Partition(code, region, s) && n >= m
    ensures var rewritten := DecodeFrom(Spliced(code, region, s), 0);
            var original := DecodeFrom(code, 0);
            && rewritten.Some? && original.Some?
            && Synced(region, s, Run(Program(original.value, controls, Some(Frame(Local(s), region)), {}), world,
                                     Start(state), n),
                      Run(Program(rewritten.value, controls, None, projected), world, Start(state), m))
  {
    SpliceDecodes(code, controls, region, s);
    hide DecodeFrom, IsScope, Scope.Whole, Rewritten, Run, Scope.PayloadEnd, DivergesAt, LoadsAt, Synced, Movable,
         Stored, Strays;
    StartsSynced(region, s, state);
    var q := NewProgram(controls, projected, region, s);
    forall k: nat | k < m
      ensures Untrapped(controls, projected, region, s, Run(q, world, Start(state), k),
                        Stored(region, s, q, world, Start(state), k))
    {
      if Run(q, world, Start(state), k).At? { NothingTraps(controls, projected, region, s, world, state, k); }
    }
    n := SyncedRun(controls, projected, code, region, s, world, Start(state), Start(state), m);
  }

  /** A run at a trap has taken a way that strays. */
  lemma NothingTraps<S>(controls: Controls, projected: set<int>, region: Region, s: Scope, world: World<S>, state: S,
                        k: nat)
    requires Movable(region, s) && !Strays(controls, projected, region, s)
    requires Run(NewProgram(controls, projected, region, s), world, Start(state), k).At?
    ensures var q := NewProgram(controls, projected, region, s);
            Untrapped(controls, projected, region, s, Run(q, world, Start(state), k),
                      Stored(region, s, q, world, Start(state), k))
  {
    hide Rewritten, Run, DivergesAt, LoadsAt, StoresAt, Movable, Follow;
    var q := NewProgram(controls, projected, region, s);
    var path := RunPath(q, world, Start(state), k);
    assert path[..k] == path && Follow(q.instrs, 0, path[..k]) == Some(Run(q, world, Start(state), k).pc);
    PathStores(region, s, q, world, Start(state), path);
    assert !StraysAlong(controls, projected, region, s, path);
  }

  /** A run along a way stores where the way does. */
  lemma PathStores<S>(region: Region, s: Scope, q: Program, world: World<S>, d: Config<Machine<S>>, path: seq<Flow>)
    requires Movable(region, s) && q.instrs == Rewritten(region, s)
    requires forall j: nat | j <= |path| ::
               Run(q, world, d, j).At? && Follow(q.instrs, 0, path[..j]) == Some(Run(q, world, d, j).pc)
    ensures StoresAlong(region, s, path) <==> Stored(region, s, q, world, d, |path|)
  {
    hide Rewritten, Run, StoresAt, Movable, Follow;
    if StoresAlong(region, s, path) {
      var j: nat :| j < |path| && var pc := Follow(q.instrs, 0, path[..j]); pc.Some? && StoresAt(region, s, pc.value);
      assert StoresIn(region, s, Run(q, world, d, j));
    }
    if Stored(region, s, q, world, d, |path|) {
      var j: nat :| j < |path| && StoresIn(region, s, Run(q, world, d, j));
      assert Follow(q.instrs, 0, path[..j]).Some?;
    }
  }
}
