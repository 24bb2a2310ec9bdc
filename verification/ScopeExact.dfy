/** Exactly when the rewrite preserves meaning: a body in which some way comes to an instruction
    that diverges has a world and a run of its rewritten octets that no run of the original
    matches. The world follows the way, and then flags the instruction. */
module ScopeExact {
  import opened Wrappers
  import opened Bytes
  import opened Cil
  import CilEncoding
  import opened Compaction
  import opened Splicing
  import opened TransactionScope
  import opened ScopeSplice
  import opened CompactionRuns
  import opened ScopeRuns
  import opened ScopeMeaning

  /** The successors still to choose, and whether the marked instruction was handed to the world. */
  datatype Guide = Guide(path: seq<Flow>, flagged: bool)

  function ActOf(i: Instruction): InAct { InAct(i.opcode, i.immediate, i.token) }

  /** Follows the path, and stops at the first instruction behind it. It asks no choice for ldc.i4.0, which
      compaction puts in front of a newarr. */
  function Follower(marked: InAct): World<Guide> {
    (act: InAct, g: Guide, tx: Tx) =>
      if act.opcode == LDC_I4_0 then (g, Next)
      else if g.path == [] then (Guide([], act == marked), Stop)
      else (Guide(g.path[1..], g.flagged), g.path[0])
  }

  const SPENT := Guide([], false)

  // ---- Following a path ----

  /** Calls and ldc.i4.0 have one successor. */
  predicate Straight(instrs: seq<Instruction>) {
    forall k :: 0 <= k < |instrs| && instrs[k].opcode in {CALL, CALLVIRT, LDC_I4_0} ==> instrs[k].targets == []
  }

  /** Nothing to choose: ldc.i4.0, and what the rewritten body does not leave to the world. */
  predicate Unasked(q: Program, i: Instruction) {
    i.opcode == LDC_I4_0 || CallsProjected(q.controls, q.projected, i)
  }

  /** The choices the world is asked for along a path. */
  function Choices(q: Program, pc: int, path: seq<Flow>): seq<Flow>
    requires Follow(q.instrs, pc, path).Some?
    decreases |path|
  {
    if path == [] then []
    else
      var i := Lookup(q.instrs, pc).value;
      var rest := Choices(q, if path[0].Next? then i.End() else i.targets[path[0].n], path[1..]);
      if Unasked(q, i) then rest else [path[0]] + rest
  }

  /** The machine behind the first choice of a path. */
  function Onward(q: Program, i: Instruction, m: Machine<Guide>, rest: seq<Flow>): Machine<Guide> {
    (if CallsProjected(q.controls, q.projected, i) then m.(tx := Projected(q.controls(i.token))) else m)
    .(state := Guide(rest, false))
  }

  /** After j steps the rewritten body stands where the first j choices lead. */
  lemma {:induction false} Followed(q: Program, marked: InAct, pc: int, m: Machine<Guide>, path: seq<Flow>, j: nat)
    requires q.frame.None? && Straight(q.instrs) && Follow(q.instrs, pc, path).Some? && j <= |path|
    requires m.state == Guide(Choices(q, pc, path), false)
    ensures Follow(q.instrs, pc, path[..j]).Some?
    ensures var d := Run(q, Follower(marked), At(pc, m), j);
            && d.At? && d.pc == Follow(q.instrs, pc, path[..j]).value
            && (j == |path| ==> d.state.state == SPENT)
    decreases |path|
  {
    hide Lookup, CallsProjected;
    if j > 0 {
      var i := Lookup(q.instrs, pc).value;
      var next := if path[0].Next? then i.End() else i.targets[path[0].n];
      assert path[..j][1..] == path[1..][..j - 1];
      var after := Onward(q, i, m, Choices(q, next, path[1..]));
      FollowedStep(q, marked, pc, m, path);
      assert Run(q, Follower(marked), At(pc, m), j) == Run(q, Follower(marked), At(next, after), j - 1);
      Followed(q, marked, next, after, path[1..], j - 1);
    }
  }

  lemma FollowedStep(q: Program, marked: InAct, pc: int, m: Machine<Guide>, path: seq<Flow>)
    requires q.frame.None? && Straight(q.instrs) && path != [] && Follow(q.instrs, pc, path).Some?
    requires m.state == Guide(Choices(q, pc, path), false)
    ensures var i := Lookup(q.instrs, pc).value;
            var next := if path[0].Next? then i.End() else i.targets[path[0].n];
            Step(q, Follower(marked), At(pc, m)) == At(next, Onward(q, i, m, Choices(q, next, path[1..])))
  {
    hide Lookup;
    var i := Lookup(q.instrs, pc).value;
    var next := if path[0].Next? then i.End() else i.targets[path[0].n];
    var rest := Choices(q, next, path[1..]);
    if Unasked(q, i) {
      assert i.targets == [];
    } else {
      assert m.state.path[1..] == rest;
    }
  }

  /** The shortest way that strays does not do so before its end. */
  lemma {:induction false} FirstStray(controls: Controls, projected: set<int>, region: Region, s: Scope,
                                      path: seq<Flow>)
    returns (first: seq<Flow>)
    requires Movable(region, s)
    requires StraysAlong(controls, projected, region, s, path)
    ensures StraysAlong(controls, projected, region, s, first)
    ensures forall j :: 0 <= j < |first| ==> !StraysAlong(controls, projected, region, s, first[..j])
    decreases |path|
  {
    hide StraysAlong;
    if j :| 0 <= j < |path| && StraysAlong(controls, projected, region, s, path[..j]) {
      first := FirstStray(controls, projected, region, s, path[..j]);
    } else {
      first := path;
    }
  }

  // ---- What the original does behind the path ----

  /** Stopped or not, nothing was flagged and no choice is left. */
  predicate Unflagged(c: Config<Machine<Guide>>) { !c.Stuck? ==> c.state.state == SPENT }

  /** Scaffolding never touches the world's state. */
  lemma ScaffoldKeeps<S>(p: Program, i: Instruction, m: Machine<S>)
    ensures Scaffold(p, i, m).Some? ==>
              var c := Scaffold(p, i, m).value; c.Stuck? || (c.At? && c.state.state == m.state)
  {
    hide LocalIndex, Virtual, Projected;
  }

  /** The original takes every newobj of a scope for scaffolding, wherever it stands. */
  lemma ScopeIsScaffold<S>(p: Program, i: Instruction, m: Machine<S>)
    requires p.frame.Some? && i.opcode == NEWOBJ && p.controls(i.token) == Constructor
    ensures Scaffold(p, i, m).Some?
  {
  }

  /** Either scaffolding, or ldc.i4.0, or the end. */
  lemma UnflaggedStep(p: Program, i: Instruction, j: Instruction, m: Machine<Guide>)
    requires m.state == SPENT && (ActOf(j) == ActOf(i) ==> Scaffold(p, j, m).Some?)
    ensures var c := Exec(p, Follower(ActOf(i)), j, m);
            Unflagged(c) && (c.At? ==> Scaffold(p, j, m) == Some(c) || c == At(j.End(), m))
  {
    hide Scaffold;
    ScaffoldKeeps(p, j, m);
    if j.opcode == LDC_I4_0 { assert AfterWorld(p, j, m, SPENT) == m; }
  }

  lemma {:induction false} ScopesUnflagged(p: Program, i: Instruction, c: Config<Machine<Guide>>, n: nat)
    requires p.frame.Some? && Unflagged(c) && i.opcode == NEWOBJ && p.controls(i.token) == Constructor
    ensures Unflagged(Run(p, Follower(ActOf(i)), c, n))
    decreases n
  {
    hide Scaffold, Exec, Lookup, Follower;
    if n > 0 {
      if c.At? && Lookup(p.instrs, c.pc).Some? {
        var j := Lookup(p.instrs, c.pc).value;
        if ActOf(j) == ActOf(i) { ScopeIsScaffold(p, j, c.state); }
        UnflaggedStep(p, i, j, c.state);
      }
      ScopesUnflagged(p, i, Step(p, Follower(ActOf(i)), c), n - 1);
    }
  }

  /** The operand octets of an instruction determine its local. */
  lemma {:induction false} VariablesRead(code: seq<Byte>, lo: nat, hi: nat, instrs: seq<Instruction>, k: nat)
    requires Decodes(code, lo, hi, instrs) && k < |instrs|
    ensures instrs[k].variable == CilEncoding.VariableIn(instrs[k].opcode, instrs[k].immediate)
    decreases |instrs|
  {
    hide DecodeAt, CilEncoding.VariableIn, CilEncoding.Encoding;
    if k == 0 {
      CilEncoding.DecodeIffEncoding(code, lo, instrs[0]);
    } else {
      VariablesRead(code, instrs[0].End(), hi, instrs[1..], k - 1);
      assert instrs[k] == instrs[1..][k - 1];
    }
  }

  lemma SameLocal(code: seq<Byte>, region: Region, s: Scope, i: Instruction, j: Instruction)
    requires Partition(code, region, s) && i in s.tail && j in s.tail && ActOf(i) == ActOf(j)
    ensures forall store :: LocalIndex(i, store) == LocalIndex(j, store)
  {
    hide Decodes, CilEncoding.VariableIn;
    var a :| 0 <= a < |s.tail| && s.tail[a] == i;
    var b :| 0 <= b < |s.tail| && s.tail[b] == j;
    VariablesRead(code, region.HandlerEnd(), |code|, s.tail, a);
    VariablesRead(code, region.HandlerEnd(), |code|, s.tail, b);
  }

  /** Behind the handler only the instruction itself says where scaffolding goes on, and no scaffolding gives
      the local away. */
  lemma ScaffoldSuccessors<S>(p: Program, i: Instruction, m: Machine<S>)
    requires p.frame.Some? && !p.frame.value.InTry(i.offset) && !p.frame.value.InHandler(i.offset)
    requires m.scopeLocal.Some?
    ensures Scaffold(p, i, m).Some? && Scaffold(p, i, m).value.At? ==>
              var c := Scaffold(p, i, m).value;
              (c.pc == i.End() || c.pc in i.targets) && c.state.scopeLocal.Some?
  {
    hide LocalIndex, Virtual;
  }

  lemma LoadIsScaffold<S>(p: Program, i: Instruction, m: Machine<S>)
    requires p.frame.Some? && p.frame.value.Loads(i) && m.scopeLocal.Some?
    ensures Scaffold(p, i, m).Some?
  {
  }

  /** Behind the handler, with a scope reference in the local. */
  predicate BehindUnflagged(region: Region, c: Config<Machine<Guide>>) {
    Unflagged(c) && (c.At? ==> c.pc >= region.HandlerEnd() && c.state.scopeLocal.Some?)
  }

  lemma LocalStep(controls: Controls, projected: set<int>, code: seq<Byte>, region: Region, s: Scope, i: Instruction,
                  c: Config<Machine<Guide>>)
    requires Setting(controls, projected, code, region, s) && i in s.tail && BehindUnflagged(region, c)
    requires LocalIndex(i, false) == Some(Local(s))
    ensures BehindUnflagged(region, Step(OldProgram(controls, region, s), Follower(ActOf(i)), c))
  {
    hide Decodes, Scope.PayloadEnd, IsDisposal, IsCompletion, ArePayload, Lookup, Scope.Whole, Movable, LocalIndex,
         Exec, Scaffold, Follower, Projects;
    var p := OldProgram(controls, region, s);
    if c.At? {
      OldLookup(code, region, s, c.pc);
      if Lookup(p.instrs, c.pc).Some? {
        var j := Lookup(s.tail, c.pc).value;
        var k := FindIn(code, region.HandlerEnd(), |code|, s.tail, j);
        assert BranchesWithin(s.tail[k], region.HandlerEnd(), |code|);
        if ActOf(j) == ActOf(i) {
          SameLocal(code, region, s, i, j);
          LoadIsScaffold(p, j, c.state);
        }
        UnflaggedStep(p, i, j, c.state);
        ScaffoldSuccessors(p, j, c.state);
      }
    }
  }

  lemma {:induction false} LocalUnflagged(controls: Controls, projected: set<int>, code: seq<Byte>, region: Region,
                                          s: Scope, i: Instruction, c: Config<Machine<Guide>>, n: nat)
    requires Setting(controls, projected, code, region, s) && i in s.tail && BehindUnflagged(region, c)
    requires LocalIndex(i, false) == Some(Local(s))
    ensures Unflagged(Run(OldProgram(controls, region, s), Follower(ActOf(i)), c, n))
    decreases n
  {
    hide Setting, Step, OldProgram, LocalIndex;
    if n > 0 {
      LocalStep(controls, projected, code, region, s, i, c);
      LocalUnflagged(controls, projected, code, region, s, i,
                     Step(OldProgram(controls, region, s), Follower(ActOf(i)), c),
                     n - 1);
    }
  }

  // ---- What the rewritten body does behind the path ----

  /** Behind a call of a projected member the rewritten body ends unflagged: every such call goes on. */
  lemma {:induction false} CallsEnd(q: Program, i: Instruction, pc: int, m: Machine<Guide>, length: nat)
    returns (k: nat)
    requires q.frame.None? && CallsProjected(q.controls, q.projected, i) && pc <= length && m.state == SPENT
    requires Bounded(q.instrs, length)
    ensures var d := Run(q, Follower(ActOf(i)), At(pc, m), k); d.Stuck? || (d.Done? && d.state.state == SPENT)
    decreases length - pc
  {
    hide Lookup;
    k := 1;
    var d := Step(q, Follower(ActOf(i)), At(pc, m));
    OneRun(q, Follower(ActOf(i)), At(pc, m));
    if Lookup(q.instrs, pc).Some? {
      var j := Lookup(q.instrs, pc).value;
      assert j in q.instrs;
      if Unasked(q, j) {
        assert d.At? && d.pc == j.End() && d.state.state == SPENT;
        var rest := CallsEnd(q, i, j.End(), d.state, length);
        k := rest + 1;
      }
    }
  }

  lemma PlaceHere(region: Region, s: Scope, place: Place, p: int, q: int)
    requires Movable(region, s) && SamePlace(region, s, place, p, q)
    ensures q < s.ctor.offset ==> place.Before?
    ensures q > CloseAt(region, s) ==> place.After?
  {
    hide Scope.PayloadEnd;
  }

  /** The instruction at which the programs part, as the original has it. */
  lemma KeptHere(controls: Controls, projected: set<int>, code: seq<Byte>, region: Region, s: Scope, place: Place,
                 p: int, q: int) returns (j: Instruction)
    requires Setting(controls, projected, code, region, s) && Movable(region, s) && SamePlace(region, s, place, p, q)
    requires DivergesAt(controls, projected, region, s, q) || LoadsAt(region, s, q)
    ensures var i := Lookup(Rewritten(region, s), q).value;
            && Lookup(s.Whole(), p) == Some(j) && ActOf(j) == ActOf(i)
            && (LoadsAt(region, s, q) ==>
                  j in s.tail && p >= region.HandlerEnd() && LocalIndex(j, false) == Some(Local(s)))
  {
    hide IsScope, Decodes, Lookup, Rewritten, Scope.Whole, Diverges, Scope.PayloadEnd, Local, Projects;
    PlaceHere(region, s, place, p, q);
    OldLookup(code, region, s, p);
    NewLookup(code, region, s, p);
    if q < s.ctor.offset {
      j := Lookup(s.prefix, p).value;
    } else {
      LookupShifted(s.tail, TailShift(region, s), p);
      j := Lookup(s.tail, p).value;
      ShiftKinds(controls, projected, j, TailShift(region, s));
    }
  }

  /** Matching points at which the programs part. */
  ghost predicate Parting(controls: Controls, projected: set<int>, region: Region, s: Scope, i: Instruction,
                          c: Config<Machine<Guide>>, d: Config<Machine<Guide>>)
    requires Movable(region, s)
  {
    && c.At? && d.At? && d.state.state == SPENT && Synced(region, s, c, d)
    && Lookup(Rewritten(region, s), d.pc) == Some(i)
    && (DivergesAt(controls, projected, region, s, d.pc) || (LoadsAt(region, s, d.pc) && c.state.scopeLocal.Some?))
  }

  /** From there the rewritten body comes to an end that no number of steps brings the original to. */
  lemma PartsHere(controls: Controls, projected: set<int>, code: seq<Byte>, region: Region, s: Scope, i: Instruction,
                  c: Config<Machine<Guide>>, d: Config<Machine<Guide>>, length: nat) returns (k: nat)
    requires Setting(controls, projected, code, region, s) && Movable(region, s)
    requires Bounded(Rewritten(region, s), length) && Parting(controls, projected, region, s, i, c, d)
    ensures var world := Follower(ActOf(i));
            var e := Run(NewProgram(controls, projected, region, s), world, d, k);
            && !e.At?
            && forall n: nat :: !Synced(region, s, Run(OldProgram(controls, region, s), world, c, n), e)
  {
    hide Setting, Movable, Lookup, Rewritten, Exec, LocalIndex, Bounded, CallsProjected;
    var p, q := OldProgram(controls, region, s), NewProgram(controls, projected, region, s);
    var place :| SamePlace(region, s, place, c.pc, d.pc) && Agreeing(place, c.state, d.state);
    var j := KeptHere(controls, projected, code, region, s, place, c.pc, d.pc);
    var world := Follower(ActOf(i));
    if CallsProjected(controls, projected, i) {
      k := CallParts(q, i, d, length);
      StopsFlagged(p, projected, i, j, c);
      var e := Run(q, world, d, k);
      forall n: nat
        ensures !Synced(region, s, Run(p, world, c, n), e)
      {
        if n > 0 { StoppedRun(p, world, Step(p, world, c), n - 1); }
      }
    } else {
      k := 1;
      OneRun(q, world, d);
      NotLdc(controls, projected, region, s, i, c, d);
      HandedOver(q, i, d);
      forall n: nat
        ensures Unflagged(Run(p, world, c, n))
      {
        if Diverges(controls, projected, i) {
          ScopesUnflagged(p, i, c, n);
        } else {
          LocalUnflagged(controls, projected, code, region, s, j, c, n);
        }
      }
    }
  }

  lemma NotLdc(controls: Controls, projected: set<int>, region: Region, s: Scope, i: Instruction,
               c: Config<Machine<Guide>>, d: Config<Machine<Guide>>)
    requires Movable(region, s) && Parting(controls, projected, region, s, i, c, d)
    ensures i.opcode != LDC_I4_0 && i.opcode != NEWARR
  {
    hide Lookup, Rewritten, Synced;
  }

  predicate Bounded(instrs: seq<Instruction>, length: nat) {
    forall x :: 0 <= x < |instrs| ==> instrs[x].offset < instrs[x].End() <= length
  }

  /** The rewritten body leaves every other instruction to the world, which flags it and stops. */
  lemma HandedOver(q: Program, i: Instruction, d: Config<Machine<Guide>>)
    requires q.frame.None? && d.At? && d.state.state == SPENT && Lookup(q.instrs, d.pc) == Some(i)
    requires !CallsProjected(q.controls, q.projected, i) && i.opcode != LDC_I4_0
    ensures Step(q, Follower(ActOf(i)), d) == Done(d.state.(state := Guide([], true)))
  {
    hide Lookup;
  }

  /** The original leaves a call to the world when no scope reference is in flight. */
  lemma StopsFlagged(p: Program, projected: set<int>, i: Instruction, j: Instruction, c: Config<Machine<Guide>>)
    requires p.frame.Some? && c.At? && c.state.state == SPENT && c.state.stack == []
    requires Lookup(p.instrs, c.pc) == Some(j) && CallsProjected(p.controls, projected, i) && ActOf(j) == ActOf(i)
    ensures Step(p, Follower(ActOf(i)), c) == Done(c.state.(state := Guide([], true)))
  {
    hide Lookup;
  }

  lemma CallParts(q: Program, i: Instruction, d: Config<Machine<Guide>>, length: nat) returns (k: nat)
    requires q.frame.None? && Bounded(q.instrs, length) && CallsProjected(q.controls, q.projected, i)
    requires d.At? && d.state.state == SPENT && Lookup(q.instrs, d.pc) == Some(i)
    ensures var e := Run(q, Follower(ActOf(i)), d, k); e.Stuck? || (e.Done? && e.state.state == SPENT)
  {
    hide Lookup;
    assert i in q.instrs;
    k := CallsEnd(q, i, d.pc, d.state, length);
  }

  // ---- Main result ----

  lemma RewrittenShape(controls: Controls, projected: set<int>, code: seq<Byte>, region: Region, s: Scope)
    returns (length: nat)
    requires IsScopeOf(controls, code, region, s) && Projects(projected, s)
    ensures Setting(controls, projected, code, region, s) && Movable(region, s)
    ensures Straight(Rewritten(region, s)) && Bounded(Rewritten(region, s), length)
  {
    hide IsScope, DecodeFrom, Scope.Whole;
    SpliceDecodes(code, controls, region, s);
    var out := Spliced(code, region, s);
    length := |out|;
    DecodedShape(out, Rewritten(region, s));
  }

  lemma DecodedShape(code: seq<Byte>, instrs: seq<Instruction>)
    requires DecodeFrom(code, 0) == Some(instrs)
    ensures Straight(instrs) && Bounded(instrs, |code|)
  {
    hide DecodeAt, OperandOf, DecodeFrom;
    DecodeFills(code, 0);
    DecodesConsecutive(code, 0, |code|, instrs);
    DecodesBounds(code, 0, |code|, instrs);
    CallsTakeTokens();
    forall k | 0 <= k < |instrs| && instrs[k].opcode in {CALL, CALLVIRT, LDC_I4_0}
      ensures instrs[k].targets == []
    {
      assert WellFormed(instrs[k]);
    }
  }

  lemma CallsTakeTokens()
    ensures OperandOf(CALL) == OperandOf(CALLVIRT) == Some(InlineMethod) && OperandOf(LDC_I4_0) == Some(InlineNone)
  {
  }

  /** A world and a state that take the rewritten body along a way that strays, in step with the original all
      the way. */
  lemma LeadsAstray(controls: Controls, projected: set<int>, code: seq<Byte>, region: Region, s: Scope)
    returns (i: Instruction, state: Guide, n: nat, m: nat)
    requires Setting(controls, projected, code, region, s) && Movable(region, s)
    requires Strays(controls, projected, region, s) && Straight(Rewritten(region, s))
    ensures var world := Follower(ActOf(i));
            Parting(controls, projected, region, s, i, Run(OldProgram(controls, region, s), world, Start(state), n),
                    Run(NewProgram(controls, projected, region, s), world, Start(state), m))
  {
    hide Setting, Movable, Rewritten, DivergesAt, LoadsAt, StoresAt, Straight, Lookup, Follower, Synced, Run, Follow,
         Choices, Stored;
    var q := NewProgram(controls, projected, region, s);
    var stray :| StraysAlong(controls, projected, region, s, stray);
    var path := FirstStray(controls, projected, region, s, stray);
    var pc := Follow(q.instrs, 0, path).value;
    FoundThere(controls, projected, region, s, pc);
    i := Lookup(q.instrs, pc).value;
    state, m := Guide(Choices(q, 0, path), false), |path|;
    var world, start := Follower(ActOf(i)), Start(state);
    forall j: nat | j <= |path|
      ensures Run(q, world, start, j).At? && Follow(q.instrs, 0, path[..j]) == Some(Run(q, world, start, j).pc)
    {
      Followed(q, ActOf(i), 0, start.state, path, j);
    }
    forall j: nat | j < |path|
      ensures Untrapped(controls, projected, region, s, Run(q, world, start, j), Stored(region, s, q, world, start, j))
    {
      PrefixStores(region, s, q, world, start, path, j);
      assert !StraysAlong(controls, projected, region, s, path[..j]);
    }
    assert path[..|path|] == path;
    PathStores(region, s, q, world, start, path);
    Followed(q, ActOf(i), 0, start.state, path, |path|);
    StartsSynced(region, s, state);
    n := SyncedRun(controls, projected, code, region, s, world, start, start, |path|);
    SyncedAt(region, s, Run(OldProgram(controls, region, s), world, start, n), Run(q, world, start, m));
  }

  lemma FoundThere(controls: Controls, projected: set<int>, region: Region, s: Scope, pc: int)
    requires Movable(region, s) && (DivergesAt(controls, projected, region, s, pc) || LoadsAt(region, s, pc))
    ensures Lookup(Rewritten(region, s), pc).Some?
  {
  }

  lemma PrefixStores<S>(region: Region, s: Scope, q: Program, world: World<S>, d: Config<Machine<S>>, path: seq<Flow>,
                        k: nat)
    requires Movable(region, s) && q.instrs == Rewritten(region, s) && k <= |path|
    requires forall j: nat | j <= |path| ::
               Run(q, world, d, j).At? && Follow(q.instrs, 0, path[..j]) == Some(Run(q, world, d, j).pc)
    ensures StoresAlong(region, s, path[..k]) <==> Stored(region, s, q, world, d, k)
  {
    hide Rewritten, Run, Follow, Movable, Stored, StoresAlong;
    forall j: nat | j <= k
      ensures Run(q, world, d, j).At? && Follow(q.instrs, 0, path[..k][..j]) == Some(Run(q, world, d, j).pc)
    {
      assert path[..k][..j] == path[..j];
    }
    PathStores(region, s, q, world, d, path[..k]);
  }

  /** Some run of the original matches the rewritten body's first m steps. */
  ghost predicate Matched<S>(controls: Controls, projected: set<int>, region: Region, s: Scope, world: World<S>,
                             state: S, m: nat)
    requires Movable(region, s)
  {
    exists n: nat :: Synced(region, s, Run(OldProgram(controls, region, s), world, Start(state), n),
                            Run(NewProgram(controls, projected, region, s), world, Start(state), m))
  }

  /** Every run of the rewritten body is matched by one of the original. */
  ghost predicate Preserved<S(!new)>(controls: Controls, projected: set<int>, region: Region, s: Scope)
    requires Movable(region, s)
  {
    forall world: World<S>, state: S, m: nat :: Matched(controls, projected, region, s, world, state, m)
  }

  /** Where some way strays, the rewritten body has a run that no run of the original matches. */
  lemma StrayChangesMeaning(controls: Controls, projected: set<int>, code: seq<Byte>, region: Region, s: Scope)
    returns (i: Instruction, state: Guide, m: nat)
    requires IsScopeOf(controls, code, region, s) && Projects(projected, s)
    requires Movable(region, s) && Strays(controls, projected, region, s)
    ensures Markable(controls, projected, region, s, i)
    ensures !Run(NewProgram(controls, projected, region, s), Follower(ActOf(i)), Start(state), m).At?
    ensures !Matched(controls, projected, region, s, Follower(ActOf(i)), state, m)
  {
    hide Setting, Movable, Rewritten, DivergesAt, IsScopeOf, Strays, Straight, Bounded, Lookup, Follower, Synced, Run,
         Matched, OldProgram, NewProgram, Start, Parting, Markable, Projects;
    var length := RewrittenShape(controls, projected, code, region, s);
    var first, astray;
    i, state, first, astray := LeadsAstray(controls, projected, code, region, s);
    var k := EndsApart(controls, projected, code, region, s, i, state, first, astray, length);
    m := astray + k;
  }

  /** An instruction of the rewritten body at which it parts from the original. */
  ghost predicate Markable(controls: Controls, projected: set<int>, region: Region, s: Scope, i: Instruction)
    requires Movable(region, s)
  {
    && i in Rewritten(region, s) && i.opcode != LDC_I4_0 && i.opcode != NEWARR
    && (i.opcode == CALL ==> CallsProjected(controls, projected, i))
  }

  lemma PartingMarks(controls: Controls, projected: set<int>, region: Region, s: Scope, i: Instruction,
                     c: Config<Machine<Guide>>, d: Config<Machine<Guide>>)
    requires Movable(region, s) && Parting(controls, projected, region, s, i, c, d)
    ensures Markable(controls, projected, region, s, i)
  {
    hide Synced, Rewritten, Lookup;
    assert i in Rewritten(region, s);
  }

  lemma EndsApart(controls: Controls, projected: set<int>, code: seq<Byte>, region: Region, s: Scope, i: Instruction,
                  state: Guide, first: nat, astray: nat, length: nat) returns (k: nat)
    requires Setting(controls, projected, code, region, s) && Movable(region, s)
    requires Bounded(Rewritten(region, s), length)
    requires var world := Follower(ActOf(i));
             Parting(controls, projected, region, s, i,
                     Run(OldProgram(controls, region, s), world, Start(state), first),
                     Run(NewProgram(controls, projected, region, s), world, Start(state), astray))
    ensures Markable(controls, projected, region, s, i)
    ensures !Run(NewProgram(controls, projected, region, s), Follower(ActOf(i)), Start(state), astray + k).At?
    ensures !Matched(controls, projected, region, s, Follower(ActOf(i)), state, astray + k)
  {
    hide Setting, Movable, Rewritten, DivergesAt, LoadsAt, Bounded, Lookup, Follower, Synced, Run, Start, Markable;
    var p, q := OldProgram(controls, region, s), NewProgram(controls, projected, region, s);
    var world, start := Follower(ActOf(i)), Start(state);
    var c, d := Run(p, world, start, first), Run(q, world, start, astray);
    PartingMarks(controls, projected, region, s, i, c, d);
    k := PartsHere(controls, projected, code, region, s, i, c, d, length);
    RunSplit(q, world, start, astray, k);
    var e := Run(q, world, start, astray + k);
    forall n: nat
      ensures !Synced(region, s, Run(p, world, start, n), e)
    {
      if n < first {
        EarlierRuns(p, world, start, n, first);
        NotSynced(region, s, Run(p, world, start, n), e);
      } else {
        RunSplit(p, world, start, first, n - first);
      }
    }
  }

  lemma NotSynced<S>(region: Region, s: Scope, c: Config<Machine<S>>, d: Config<Machine<S>>)
    requires c.At? && !d.At?
    ensures !Synced(region, s, c, d)
  {
  }

  lemma EarlierRuns<S>(p: Program, world: World<S>, c: Config<Machine<S>>, n: nat, m: nat)
    requires n <= m && Run(p, world, c, m).At?
    ensures Run(p, world, c, n).At?
  {
    hide Step;
    RunSplit(p, world, c, n, m - n);
    if !Run(p, world, c, n).At? { StoppedRun(p, world, Run(p, world, c, n), m - n); }
  }

  /** The rewrite preserves meaning exactly when no way through the rewritten octets strays. */
  lemma MeaningPreservedIff(controls: Controls, projected: set<int>, code: seq<Byte>, region: Region, s: Scope)
    requires IsScopeOf(controls, code, region, s) && Projects(projected, s)
    ensures Partition(code, region, s) && Movable(region, s)
    ensures DecodeFrom(code, 0) == Some(OldProgram(controls, region, s).instrs)
    ensures DecodeFrom(Spliced(code, region, s), 0) == Some(NewProgram(controls, projected, region, s).instrs)
    ensures Preserved<Guide>(controls, projected, region, s) <==> !Strays(controls, projected, region, s)
  {
    hide Partition, Movable, Rewritten, Strays, IsScope, Matched, DecodeFrom, Spliced, Scope.Whole, Projects, Markable;
    SpliceDecodes(code, controls, region, s);
    if Strays(controls, projected, region, s) {
      var i, state, m := StrayChangesMeaning(controls, projected, code, region, s);
    } else {
      UnstrayedPreserved<Guide>(controls, projected, code, region, s);
    }
  }

  lemma UnstrayedPreserved<S(!new)>(controls: Controls, projected: set<int>, code: seq<Byte>, region: Region, s: Scope)
    requires IsScopeOf(controls, code, region, s) && Projects(projected, s)
    requires Movable(region, s) && !Strays(controls, projected, region, s)
    ensures Preserved<S>(controls, projected, region, s)
  {
    hide Movable, Strays, IsScopeOf, Matched;
    forall world: World<S>, state: S, m: nat
      ensures Matched(controls, projected, region, s, world, state, m)
    {
      UnstrayedMatched(controls, projected, code, region, s, world, state, m);
    }
  }

  lemma UnstrayedMatched<S>(controls: Controls, projected: set<int>, code: seq<Byte>, region: Region, s: Scope,
                            world: World<S>, state: S, m: nat)
    requires IsScopeOf(controls, code, region, s) && Projects(projected, s)
    requires Movable(region, s) && !Strays(controls, projected, region, s)
    ensures Matched(controls, projected, region, s, world, state, m)
  {
    hide Movable, Rewritten, Strays, IsScope, Synced, Run, Partition, Scope.Whole, DecodeFrom, Spliced;
    SpliceDecodes(code, controls, region, s);
    var n := RewritePreservesMeaning(controls, projected, code, region, s, world, state, m);
    assert Synced(region, s, Run(OldProgram(controls, region, s), world, Start(state), n),
                  Run(NewProgram(controls, projected, region, s), world, Start(state), m));
  }
}
