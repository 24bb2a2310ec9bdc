/** The two transformations one after the other: the rewritten body is compacted, and the compacted
    octets, as the independent reader lists them, still mean what the original body means and keep
    its transaction discipline. */
module ScopeCompiled {
  import opened Wrappers
  import opened Bytes
  import opened Cil
  import opened Compaction
  import opened Inspect
  import opened CompactionCorrect
  import opened Splicing
  import opened TransactionScope
  import opened ScopeSplice
  import opened CompactionRuns
  import opened ScopeRuns
  import opened ScopeMeaning
  import opened ScopeExact
  import opened ScopeDiscipline

  /** A recognised scope whose rewritten body goes on to compile. */
  ghost predicate Compiles(resolve: Resolver, controls: Controls, projected: set<int>, code: seq<Byte>, region: Region,
                           s: Scope) {
    && IsScopeOf(controls, code, region, s) && Projects(projected, s) && Partition(code, region, s)
    && Compactable(resolve, Spliced(code, region, s)) && |Spliced(code, region, s)| < 0x8000_0000
  }

  // ---- The profile has no instruction that takes an address ----

  /** No instruction takes the address of a local or of an argument. */
  predicate NoAddressTaken(instrs: seq<Instruction>) {
    forall k :: 0 <= k < |instrs| ==> instrs[k].opcode !in {0x0f, 0x12, 0xfe0a, 0xfe0d}
  }

  /** A body that goes on to compile has no other access to the scope's local than loads and stores. */
  lemma CompilesWithoutAddresses(resolve: Resolver, controls: Controls, projected: set<int>, code: seq<Byte>,
                                 region: Region, s: Scope)
    requires Compiles(resolve, controls, projected, code, region, s)
    ensures NoAddressTaken(s.prefix) && NoAddressTaken(s.payload) && NoAddressTaken(s.tail)
  {
    hide DecodeFrom, Spliced, Partition, Compactable, Accepted, IsScope, Rewritten;
    CompilesAccepted(resolve, controls, projected, code, region, s);
    KeptInProfile(resolve, region, s);
  }

  /** The kept instructions are in the profile, because they are in it where they were moved. */
  lemma KeptInProfile(resolve: Resolver, region: Region, s: Scope)
    requires Movable(region, s) && AllAccepted(resolve, Rewritten(region, s))
    ensures forall k :: 0 <= k < |s.prefix| ==> IsAllowed(s.prefix[k].opcode)
    ensures forall k :: 0 <= k < |s.payload| ==> IsAllowed(s.payload[k].opcode)
    ensures forall k :: 0 <= k < |s.tail| ==> IsAllowed(s.tail[k].opcode)
  {
    hide WellFormed, IsAllowed, Scope.PayloadEnd, Scope.Closing;
    var w := Rewritten(region, s);
    var p, q := |s.prefix| + 1, |s.prefix| + |s.payload| + 2;
    forall k | 0 <= k < |s.prefix|
      ensures IsAllowed(s.prefix[k].opcode)
    {
      assert w[k] == s.prefix[k] && Accepted(resolve, w[k]);
    }
    forall k | 0 <= k < |s.payload|
      ensures IsAllowed(s.payload[k].opcode)
    {
      assert w[p + k] == Shift(s.payload[k], PayloadShift(region, s)) && Accepted(resolve, w[p + k]);
    }
    forall k | 0 <= k < |s.tail|
      ensures IsAllowed(s.tail[k].opcode)
    {
      assert w[q + k] == Shift(s.tail[k], TailShift(region, s)) && Accepted(resolve, w[q + k]);
    }
  }

  lemma CompilesAccepted(resolve: Resolver, controls: Controls, projected: set<int>, code: seq<Byte>, region: Region,
                         s: Scope)
    requires Compiles(resolve, controls, projected, code, region, s)
    ensures Movable(region, s) && DecodeFrom(Spliced(code, region, s), 0) == Some(Rewritten(region, s))
    ensures Ready(resolve, Rewritten(region, s))
  {
    SpliceDecodes(code, controls, region, s);
    hide DecodeFrom, Spliced, Partition, IsScope, Rewritten, Movable, Scope.Whole, Offsets, Accepted;
    var out := Spliced(code, region, s);
    RewrittenFills(out, Rewritten(region, s));
  }

  lemma RewrittenFills(code: seq<Byte>, instrs: seq<Instruction>)
    requires DecodeFrom(code, 0) == Some(instrs)
    ensures Consecutive(instrs, 0)
  {
    hide DecodeAt;
    DecodeFills(code, 0);
    DecodesConsecutive(code, 0, |code|, instrs);
  }

  // ---- Worlds over the machine ----

  /** What a compact operand controls. */
  type Marks = Operand -> Control

  type Effect<!S> = (OutAct, S, Tx) -> (S, Flow)

  /** The rewritten body's machine without its program counter: calls of projected members open and
      close the transaction, everything else only sees it. */
  function Inner<S>(controls: Controls, projected: set<int>, world: World<S>): InWorld<Machine<S>> {
    (act: InAct, m: Machine<S>) =>
      if act.opcode in {CALL, CALLVIRT} && act.token in projected && controls(act.token) != NoControl then
        (m.(tx := Projected(controls(act.token))), Next)
      else
        var (state, flow) := world(act, m.state, m.tx);
        (m.(state := state), flow)
  }

  function Outer<S>(marks: Marks, effect: Effect<S>): OutWorld<Machine<S>> {
    (act: OutAct, m: Machine<S>) =>
      if act.opcode in {CALL, CALLVIRT} && marks(act.operand) != NoControl then
        (m.(tx := Projected(marks(act.operand))), Next)
      else
        var (state, flow) := effect(act, m.state, m.tx);
        (m.(state := state), flow)
  }

  lemma {:induction false} FetchIsLookup(instrs: seq<Instruction>, j: nat, pc: int)
    requires j <= |instrs|
    ensures var k := FetchIn(instrs, j, pc);
            Lookup(instrs[j..], pc) == if k.None? then None else Some(instrs[k.value])
    decreases |instrs| - j
  {
    if j < |instrs| {
      assert instrs[j..][1..] == instrs[j + 1..];
      FetchIsLookup(instrs, j + 1, pc);
    }
  }

  lemma StepIsStepIn<S>(instrs: seq<Instruction>, controls: Controls, projected: set<int>, world: World<S>,
                        c: Config<Machine<S>>)
    ensures Step(Program(instrs, controls, None, projected), world, c)
            == StepIn(instrs, Inner(controls, projected, world), c)
  {
    hide Lookup, FetchIn;
    if c.At? {
      FetchIsLookup(instrs, 0, c.pc);
      assert instrs[0..] == instrs;
    }
  }

  lemma {:induction false} RunIsRunIn<S>(instrs: seq<Instruction>, controls: Controls, projected: set<int>,
                                         world: World<S>, c: Config<Machine<S>>, n: nat)
    ensures Run(Program(instrs, controls, None, projected), world, c, n)
            == RunIn(instrs, Inner(controls, projected, world), c, n)
    decreases n
  {
    hide Step, StepIn;
    if n > 0 {
      StepIsStepIn(instrs, controls, projected, world, c);
      RunIsRunIn(instrs, controls, projected, world, Step(Program(instrs, controls, None, projected), world, c), n - 1);
    }
  }

  // ---- Meaning ----

  /** When no way strays, every run of the rewritten body has a run of the original and a run of the compiled
      octets with its state, its transaction and its place. */
  lemma CompiledScopePreservesMeaning<S(!new)>(
      rows: Rows, resolve: Resolver, controls: Controls, projected: set<int>, code: seq<Byte>, region: Region, s: Scope,
      world: World<S>, outer: OutWorld<Machine<S>>, state: S, m: nat)
    returns (n: nat, t: nat, middle: Config<Machine<S>>)
    requires Compiles(resolve, controls, projected, code, region, s)
    requires Movable(region, s) && !Strays(controls, projected, region, s)
    requires Agree(resolve, Inner(controls, projected, world), outer)
    requires Listing(rows, Compacted(resolve, Spliced(code, region, s))).Some?
    ensures n >= m && m <= t <= 2 * m
    ensures AllAccepted(resolve, Rewritten(region, s))
    ensures Synced(region, s, Run(OldProgram(controls, region, s), world, Start(state), n), middle)
    ensures Related(resolve, Rewritten(region, s), middle,
                    CompiledRun(rows, resolve, Spliced(code, region, s), outer, Start(state), t))
  {
    CompilesAccepted(resolve, controls, projected, code, region, s);
    hide Compactable, Compacted, DecodeFrom, Spliced, Listing, Agree, IsScope, Partition, Strays, Rewritten, Movable,
         Run, RunIn, RunOut, Related, Synced, Accepted;
    n := RewritePreservesMeaning(controls, projected, code, region, s, world, state, m);
    middle := Run(NewProgram(controls, projected, region, s), world, Start(state), m);
    RunIsRunIn(Rewritten(region, s), controls, projected, world, Start(state), m);
    t := CompactionPreservesRuns(rows, resolve, Spliced(code, region, s), Inner(controls, projected, world), outer,
                                 Machine(state, Some(false), [], Idle, 0), m);
  }

  /** A run of the compiled octets, as the inspector lists them. */
  function CompiledRun<S>(rows: Rows, resolve: Resolver, input: seq<Byte>, outer: OutWorld<S>, c: Config<S>, t: nat)
    : Config<S>
    requires Compactable(resolve, input) && Listing(rows, Compacted(resolve, input)).Some?
  {
    var compiled := Compacted(resolve, input);
    RunOut(Listing(rows, compiled).value, |compiled|, outer, c, t)
  }

  /** Between the ldc.i4.0 and the newarr of an expanded call. */
  ghost predicate Halfway(resolve: Resolver, instrs: seq<Instruction>, pc: int)
    requires AllAccepted(resolve, instrs)
  {
    AtExpanded(resolve, instrs, pc - 1)
  }

  /** Some run of the original has the state, the transaction and the place of the compiled one, unless that
      is halfway through an expanded call. */
  ghost predicate CompiledMatched<S(!new)>(resolve: Resolver, controls: Controls, region: Region, s: Scope,
                                           world: World<S>, state: S, e: Config<Machine<S>>)
    requires Movable(region, s) && AllAccepted(resolve, Rewritten(region, s))
  {
    || (e.At? && Halfway(resolve, Rewritten(region, s), e.pc))
    || exists n: nat, d: Config<Machine<S>> ::
         Synced(region, s, Run(OldProgram(controls, region, s), world, Start(state), n), d) &&
         Related(resolve, Rewritten(region, s), d, e)
  }

  /** Every run of the compiled octets is matched, for all interpreters that agree on the compact tokens. */
  ghost predicate CompiledPreserved<S(!new)>(rows: Rows, resolve: Resolver, controls: Controls, projected: set<int>,
                                             code: seq<Byte>, region: Region, s: Scope)
    requires Compiles(resolve, controls, projected, code, region, s)
    requires Movable(region, s) && AllAccepted(resolve, Rewritten(region, s))
    requires Listing(rows, Compacted(resolve, Spliced(code, region, s))).Some?
  {
    forall world: World<S>, outer: OutWorld<Machine<S>>, state: S, t: nat ::
      Agree(resolve, Inner(controls, projected, world), outer) ==>
        CompiledMatched(resolve, controls, region, s, world, state,
                        CompiledRun(rows, resolve, Spliced(code, region, s), outer, Start(state), t))
  }

  /** Every point of every compiled run is matched when no way strays. */
  lemma UnstrayedCompiledMatched<S(!new)>(
      rows: Rows, resolve: Resolver, controls: Controls, projected: set<int>, code: seq<Byte>, region: Region, s: Scope,
      world: World<S>, outer: OutWorld<Machine<S>>, state: S, t: nat)
    requires Compiles(resolve, controls, projected, code, region, s)
    requires Movable(region, s) && !Strays(controls, projected, region, s)
    requires AllAccepted(resolve, Rewritten(region, s))
    requires Agree(resolve, Inner(controls, projected, world), outer)
    requires Listing(rows, Compacted(resolve, Spliced(code, region, s))).Some?
    ensures CompiledMatched(resolve, controls, region, s, world, state,
                            CompiledRun(rows, resolve, Spliced(code, region, s), outer, Start(state), t))
  {
    CompilesAccepted(resolve, controls, projected, code, region, s);
    hide Compactable, Compacted, DecodeFrom, Spliced, Listing, Agree, IsScope, Partition, Strays, Rewritten, Ready,
         Movable, Run, Related, Synced, Halfway, OldProgram, NewProgram, Start, CompiledRun, Inner, Projects, Accepted;
    var m, d := CompiledStands(rows, resolve, controls, projected, code, region, s, world, outer, state, t);
    var n := UnstrayedRun(controls, projected, code, region, s, world, state, m);
  }

  lemma UnstrayedRun<S>(controls: Controls, projected: set<int>, code: seq<Byte>, region: Region, s: Scope,
                        world: World<S>, state: S, m: nat) returns (n: nat)
    requires IsScopeOf(controls, code, region, s) && Projects(projected, s)
    requires Movable(region, s) && !Strays(controls, projected, region, s)
    ensures Synced(region, s, Run(OldProgram(controls, region, s), world, Start(state), n),
                   Run(NewProgram(controls, projected, region, s), world, Start(state), m))
  {
    hide Movable, Strays, IsScopeOf, Synced, Run, OldProgram, NewProgram, Start;
    UnstrayedMatched(controls, projected, code, region, s, world, state, m);
    n :| Synced(region, s, Run(OldProgram(controls, region, s), world, Start(state), n),
                Run(NewProgram(controls, projected, region, s), world, Start(state), m));
  }

  /** Every compiled run stands where one of the rewritten body stands, or halfway. */
  lemma CompiledStands<S(!new)>(
      rows: Rows, resolve: Resolver, controls: Controls, projected: set<int>, code: seq<Byte>, region: Region, s: Scope,
      world: World<S>, outer: OutWorld<Machine<S>>, state: S, t: nat) returns (m: nat, d: Config<Machine<S>>)
    requires Compiles(resolve, controls, projected, code, region, s) && Movable(region, s)
    requires AllAccepted(resolve, Rewritten(region, s)) && Agree(resolve, Inner(controls, projected, world), outer)
    requires Listing(rows, Compacted(resolve, Spliced(code, region, s))).Some?
    ensures d == Run(NewProgram(controls, projected, region, s), world, Start(state), m)
    ensures var e := CompiledRun(rows, resolve, Spliced(code, region, s), outer, Start(state), t);
            Related(resolve, Rewritten(region, s), d, e) || (e.At? && Halfway(resolve, Rewritten(region, s), e.pc))
  {
    CompilesAccepted(resolve, controls, projected, code, region, s);
    CompiledListing(rows, resolve, Spliced(code, region, s), Rewritten(region, s));
    hide Compactable, Compacted, DecodeFrom, Spliced, Listing, Agree, IsScope, Partition, Rewritten, Ready, Movable,
         Run, RunOut, Related, Halfway, ListingFrom, Offsets, NewOffset, Start, Inner, Projects, Accepted;
    m := StandsIn(resolve, Rewritten(region, s), controls, projected, world, outer, state, t);
    d := Run(NewProgram(controls, projected, region, s), world, Start(state), m);
  }

  lemma StandsIn<S(!new)>(resolve: Resolver, w: seq<Instruction>, controls: Controls, projected: set<int>,
                          world: World<S>, outer: OutWorld<Machine<S>>, state: S, t: nat) returns (m: nat)
    requires Ready(resolve, w) && Agree(resolve, Inner(controls, projected, world), outer)
    ensures var lines := ListingFrom(resolve, w, 0, Offsets(resolve, w, |w|));
            var e := RunOut(lines, NewOffset(resolve, w, |w|), outer, Start(state), t);
            || Related(resolve, w, Run(Program(w, controls, None, projected), world, Start(state), m), e)
            || (e.At? && Halfway(resolve, w, e.pc))
  {
    hide Agree, Ready, Run, RunIn, RunOut, StepOut, Related, AtExpanded, ListingFrom, Offsets, NewOffset, Start, Inner,
         Accepted;
    ReadyAccepted(resolve, w);
    StartsRelated(resolve, w, state);
    var u;
    m, u := StepsCovered(resolve, w, Inner(controls, projected, world), outer, Start(state), Start(state), t);
    RunIsRunIn(w, controls, projected, world, Start(state), m);
    if t == u + 1 {
      var e := RunOut(ListingFrom(resolve, w, 0, Offsets(resolve, w, |w|)), NewOffset(resolve, w, |w|), outer,
                      Start(state), u);
      HalfwayNext(resolve, w, Inner(controls, projected, world), outer, e);
    }
  }

  /** The first half of an expanded call goes on to the second. */
  lemma HalfwayNext<S(!new)>(resolve: Resolver, instrs: seq<Instruction>, inner: InWorld<S>, outer: OutWorld<S>,
                             e: Config<S>)
    requires Ready(resolve, instrs) && Agree(resolve, inner, outer) && e.At? && AtExpanded(resolve, instrs, e.pc)
    ensures var lines := ListingFrom(resolve, instrs, 0, Offsets(resolve, instrs, |instrs|));
            var next := StepOut(lines, NewOffset(resolve, instrs, |instrs|), outer, e);
            && next.At? && next.pc == e.pc + 1
            && next.state == outer(OutAct(LDC_I4_0, Nothing), e.state).0
  {
    hide WellFormed, Accepted, OutSize, NewOffset, Offsets, ListingFrom, FetchOut, OperandOfLine;
    var k :| 0 <= k < |instrs| && IsEmptyArrayCall(resolve, instrs[k]) && e.pc == NewOffset(resolve, instrs, k);
    var i := instrs[k];
    assert Accepted(resolve, i);
    FetchOutAt(resolve, instrs, 0, k, Offsets(resolve, instrs, |instrs|));
    var (after, flow) := inner(InAct(i.opcode, i.immediate, i.token), e.state);
  }

  // ---- Interpreters that agree ----

  /** No two tokens get one row. */
  ghost predicate Injective(resolve: Resolver) {
    forall t, u :: resolve(t).Row? && resolve(t) == resolve(u) ==> t == u
  }

  /** Array.Empty is no member that controls transactions. */
  ghost predicate PlainArrays(resolve: Resolver, controls: Controls, projected: set<int>) {
    forall t :: resolve(t).EmptyArrayOf? ==> t !in projected || controls(t) == NoControl
  }

  ghost predicate Shows(resolve: Resolver, i: Instruction, act: OutAct) {
    Accepted(resolve, i) && !IsEmptyArrayCall(resolve, i) && act == OutAct(i.opcode, ActOperand(resolve, i))
  }

  /** The newarr an Array.Empty call was expanded to. */
  function ArrayAct(resolve: Resolver, i: Instruction): OutAct
    requires IsEmptyArrayCall(resolve, i)
  {
    OutAct(NEWARR, Inspect.CompactToken(TYPE_REF, resolve(i.token).elementRow))
  }

  ghost predicate ShowsArray(resolve: Resolver, i: Instruction, act: OutAct) {
    Accepted(resolve, i) && IsEmptyArrayCall(resolve, i) && act == ArrayAct(resolve, i)
  }

  /** What the compiled instruction was made of. */
  ghost function Source(resolve: Resolver, act: OutAct): InAct {
    if exists i :: Shows(resolve, i, act) then
      var i :| Shows(resolve, i, act);
      ActOf(i)
    else if exists i :: ShowsArray(resolve, i, act) then
      var i :| ShowsArray(resolve, i, act);
      ActOf(i)
    else InAct(0, [], 0)
  }

  lemma OctetsOfWord(a: seq<Byte>)
    requires |a| == 4
    ensures Le32(Int32At(a, 0)) == a
  {
    hide Le32;
    Int32Writes(a[0], a[1], a[2], a[3]);
    assert a == [a[0], a[1], a[2], a[3]];
  }

  lemma SameWordSameOctets(a: seq<Byte>, b: seq<Byte>)
    requires |a| == |b| == 4 && Int32At(a, 0) == Int32At(b, 0)
    ensures a == b
  {
    hide Int32At, Le32;
    OctetsOfWord(a);
    OctetsOfWord(b);
  }

  /** Compaction loses nothing an interpreter sees. */
  lemma ShownOnce(resolve: Resolver, i: Instruction, j: Instruction, act: OutAct)
    requires Injective(resolve) && Shows(resolve, i, act) && Shows(resolve, j, act)
    ensures ActOf(i) == ActOf(j)
  {
    hide OperandOf, IsAllowed, Int32At;
    CompactCil.AllowedKinds(i.opcode);
    if OperandOf(i.opcode).value.InlineI? { SameWordSameOctets(i.immediate, j.immediate); }
  }

  lemma SourceOfShown(resolve: Resolver, i: Instruction)
    requires Injective(resolve) && Accepted(resolve, i) && !IsEmptyArrayCall(resolve, i)
    ensures Source(resolve, OutAct(i.opcode, ActOperand(resolve, i))) == ActOf(i)
  {
    hide Accepted, ActOperand, Injective;
    var act := OutAct(i.opcode, ActOperand(resolve, i));
    assert Shows(resolve, i, act);
    var j :| Shows(resolve, j, act) && Source(resolve, act) == ActOf(j);
    ShownOnce(resolve, i, j, act);
  }

  lemma SourceOfArray(resolve: Resolver, i: Instruction)
    requires Accepted(resolve, i) && IsEmptyArrayCall(resolve, i)
    ensures var a := Source(resolve, ArrayAct(resolve, i));
            a.opcode == NEWARR || (a.opcode == CALL && resolve(a.token).EmptyArrayOf?)
  {
    hide Accepted, ActOperand;
    assert ShowsArray(resolve, i, ArrayAct(resolve, i));
  }

  const LDC := InAct(LDC_I4_0, [], 0)

  lemma SourceOfLdc(resolve: Resolver)
    ensures Source(resolve, OutAct(LDC_I4_0, Nothing)) == LDC
  {
    var i := Instruction(0, 1, LDC_I4_0, 0, -1, [], []);
    assert OperandOf(LDC_I4_0) == Some(InlineNone);
    assert Shows(resolve, i, OutAct(LDC_I4_0, Nothing));
  }

  /** The world takes an Array.Empty call as ldc.i4.0 and what the newarr was made of. */
  ghost predicate ArraysAlike<S(!new)>(resolve: Resolver, world: World<S>) {
    && (forall s: S, tx: Tx :: world(LDC, s, tx).1 == Next)
    && forall i: Instruction, s: S, tx: Tx {:trigger world(ActOf(i), s, tx)} ::
         Accepted(resolve, i) && IsEmptyArrayCall(resolve, i) ==>
           world(ActOf(i), s, tx) == world(Source(resolve, ArrayAct(resolve, i)), world(LDC, s, tx).0, tx)
  }

  /** What a compact token controls: what its projected metadata token does. */
  ghost function MarkOf(resolve: Resolver, controls: Controls, projected: set<int>, operand: Operand): Control {
    if exists t :: t in projected && IsRowOf(resolve, t, operand) then
      var t :| t in projected && IsRowOf(resolve, t, operand);
      controls(t)
    else NoControl
  }

  predicate IsRowOf(resolve: Resolver, t: int, operand: Operand) {
    resolve(t).Row? && operand == Inspect.CompactToken(resolve(t).table, resolve(t).row)
  }

  lemma MarkOfToken(resolve: Resolver, controls: Controls, projected: set<int>, t: int)
    requires Injective(resolve) && resolve(t).Row?
    ensures MarkOf(resolve, controls, projected, Inspect.CompactToken(resolve(t).table, resolve(t).row)) ==
            if t in projected then controls(t) else NoControl
  {
    var operand := Inspect.CompactToken(resolve(t).table, resolve(t).row);
    assert IsRowOf(resolve, t, operand);
    forall u | IsRowOf(resolve, u, operand)
      ensures u == t
    {
      assert resolve(u) == resolve(t);
    }
  }

  /** Every world that takes arrays so has an interpreter of the compiled octets that agrees with it. */
  lemma AgreeingInterpreter<S(!new)>(resolve: Resolver, controls: Controls, projected: set<int>, world: World<S>)
    returns (marks: Marks, effect: Effect<S>)
    requires Injective(resolve) && PlainArrays(resolve, controls, projected) && ArraysAlike(resolve, world)
    ensures Agree(resolve, Inner(controls, projected, world), Outer(marks, effect))
  {
    marks := (operand: Operand) => MarkOf(resolve, controls, projected, operand);
    effect := (act: OutAct, s: S, tx: Tx) => world(Source(resolve, act), s, tx);
    hide Accepted, ActOperand, Source, Injective, MarkOf, PlainArrays, ArraysAlike;
    forall i: Instruction, m: Machine<S> | Accepted(resolve, i) && !IsEmptyArrayCall(resolve, i)
      ensures Inner(controls, projected, world)(ActOf(i), m)
              == Outer(marks, effect)(OutAct(i.opcode, ActOperand(resolve, i)), m)
    {
      SourceOfShown(resolve, i);
      if i.opcode in {CALL, CALLVIRT} {
        ShownToken(resolve, i);
        MarkOfToken(resolve, controls, projected, i.token);
      }
    }
    forall i: Instruction, m: Machine<S> | Accepted(resolve, i) && IsEmptyArrayCall(resolve, i)
      ensures Outer(marks, effect)(OutAct(LDC_I4_0, Nothing), m).1 == Next
      ensures Inner(controls, projected, world)(ActOf(i), m)
              == Outer(marks, effect)(ArrayAct(resolve, i), Outer(marks, effect)(OutAct(LDC_I4_0, Nothing), m).0)
    {
      SourceOfLdc(resolve);
      ArrayTaken(resolve, controls, projected, world, i, m);
    }
  }

  lemma ShownToken(resolve: Resolver, i: Instruction)
    requires Accepted(resolve, i) && !IsEmptyArrayCall(resolve, i) && i.opcode in {CALL, CALLVIRT}
    ensures resolve(i.token).Row?
    ensures ActOperand(resolve, i) == Inspect.CompactToken(resolve(i.token).table, resolve(i.token).row)
  {
    hide IsAllowed;
    CallsTakeTokens();
  }

  lemma ArrayTaken<S(!new)>(resolve: Resolver, controls: Controls, projected: set<int>, world: World<S>, i: Instruction,
                            m: Machine<S>)
    requires PlainArrays(resolve, controls, projected) && ArraysAlike(resolve, world)
    requires Accepted(resolve, i) && IsEmptyArrayCall(resolve, i)
    ensures world(LDC, m.state, m.tx).1 == Next
    ensures Inner(controls, projected, world)(ActOf(i), m) ==
            var (state, flow) := world(Source(resolve, ArrayAct(resolve, i)), world(LDC, m.state, m.tx).0, m.tx);
            (m.(state := state), flow)
  {
    hide Accepted, Source;
    assert world(ActOf(i), m.state, m.tx)
        == world(Source(resolve, ArrayAct(resolve, i)), world(LDC, m.state, m.tx).0, m.tx);
  }

  /** The world that follows a way takes arrays so. */
  lemma FollowerTakesArrays(resolve: Resolver, controls: Controls, projected: set<int>, marked: InAct)
    requires PlainArrays(resolve, controls, projected) && marked.opcode != LDC_I4_0 && marked.opcode != NEWARR
    requires marked.opcode == CALL ==> marked.token in projected && controls(marked.token) != NoControl
    ensures ArraysAlike(resolve, Follower(marked))
  {
    hide Accepted, Source;
    forall i: Instruction, g: Guide, tx: Tx | Accepted(resolve, i) && IsEmptyArrayCall(resolve, i)
      ensures Follower(marked)(ActOf(i), g, tx)
              == Follower(marked)(Source(resolve, ArrayAct(resolve, i)), Follower(marked)(LDC, g, tx).0, tx)
    {
      SourceOfArray(resolve, i);
    }
  }

  /** Where some way strays, two interpreters that agree bring the compiled octets to an end that no run of the
      original matches. */
  lemma CompiledStrayChangesMeaning(
      rows: Rows, resolve: Resolver, controls: Controls, projected: set<int>, code: seq<Byte>, region: Region, s: Scope)
    returns (world: World<Guide>, outer: OutWorld<Machine<Guide>>, state: Guide, t: nat)
    requires Compiles(resolve, controls, projected, code, region, s)
    requires Movable(region, s) && Strays(controls, projected, region, s)
    requires AllAccepted(resolve, Rewritten(region, s))
    requires Injective(resolve) && PlainArrays(resolve, controls, projected)
    requires Listing(rows, Compacted(resolve, Spliced(code, region, s))).Some?
    ensures Agree(resolve, Inner(controls, projected, world), outer)
    ensures !CompiledMatched(resolve, controls, region, s, world, state,
                             CompiledRun(rows, resolve, Spliced(code, region, s), outer, Start(state), t))
  {
    hide IsScope, Compactable, Movable, Strays, Listing, Agree, CompiledMatched, Matched, Inner, Run, Compacted,
         Spliced, Rewritten, DecodeFrom, Injective, PlainArrays, ArraysAlike, Partition, Projects, Accepted, Follower,
         Outer;
    var i, guide, m := StrayChangesMeaning(controls, projected, code, region, s);
    world, state := Follower(ActOf(i)), guide;
    FollowerTakesArrays(resolve, controls, projected, ActOf(i));
    var marks, effect := AgreeingInterpreter(resolve, controls, projected, world);
    outer := Outer(marks, effect);
    t := UnmatchedCompiles(rows, resolve, controls, projected, code, region, s, world, outer, state, m);
  }

  lemma UnmatchedCompiles<S(!new)>(
      rows: Rows, resolve: Resolver, controls: Controls, projected: set<int>, code: seq<Byte>, region: Region, s: Scope,
      world: World<S>, outer: OutWorld<Machine<S>>, state: S, m: nat) returns (t: nat)
    requires Compiles(resolve, controls, projected, code, region, s) && Movable(region, s)
    requires AllAccepted(resolve, Rewritten(region, s))
    requires Listing(rows, Compacted(resolve, Spliced(code, region, s))).Some?
    requires Agree(resolve, Inner(controls, projected, world), outer)
    requires !Run(NewProgram(controls, projected, region, s), world, Start(state), m).At?
    requires !Matched(controls, projected, region, s, world, state, m)
    ensures !CompiledMatched(resolve, controls, region, s, world, state,
                             CompiledRun(rows, resolve, Spliced(code, region, s), outer, Start(state), t))
  {
    CompilesAccepted(resolve, controls, projected, code, region, s);
    hide Compactable, Compacted, DecodeFrom, Spliced, Listing, Agree, IsScope, Partition, Rewritten, Movable, Run,
         RunIn, RunOut, Synced, AtInstruction, AtExpanded, OldProgram;
    var d := Run(NewProgram(controls, projected, region, s), world, Start(state), m);
    RunIsRunIn(Rewritten(region, s), controls, projected, world, Start(state), m);
    t := CompactionPreservesRuns(rows, resolve, Spliced(code, region, s), Inner(controls, projected, world), outer,
                                 Start(state).state, m);
    assert Start(state) == At(0, Start(state).state);
    assert CompiledRun(rows, resolve, Spliced(code, region, s), outer, Start(state), t) == d;
  }

  /** Rewriting and compacting preserve meaning exactly when no way through the rewritten body strays. */
  lemma CompiledMeaningPreservedIff(
      rows: Rows, resolve: Resolver, controls: Controls, projected: set<int>, code: seq<Byte>, region: Region, s: Scope)
    requires Compiles(resolve, controls, projected, code, region, s)
    requires Injective(resolve) && PlainArrays(resolve, controls, projected)
    requires Listing(rows, Compacted(resolve, Spliced(code, region, s))).Some?
    ensures Movable(region, s) && AllAccepted(resolve, Rewritten(region, s))
    ensures CompiledPreserved<Guide>(rows, resolve, controls, projected, code, region, s)
            <==> !Strays(controls, projected, region, s)
  {
    CompilesAccepted(resolve, controls, projected, code, region, s);
    hide Compiles, Movable, Strays, Listing, Agree, CompiledMatched, CompiledRun, Inner, Compacted, Spliced, Rewritten,
         Injective, PlainArrays, Accepted, Start;
    if Strays(controls, projected, region, s) {
      var world, outer, state, t := CompiledStrayChangesMeaning(rows, resolve, controls, projected, code, region, s);
    } else {
      forall world: World<Guide>, outer: OutWorld<Machine<Guide>>, state: Guide, t: nat |
        Agree(resolve, Inner(controls, projected, world), outer)
        ensures CompiledMatched(resolve, controls, region, s, world, state,
                                CompiledRun(rows, resolve, Spliced(code, region, s), outer, Start(state), t))
      {
        UnstrayedCompiledMatched(rows, resolve, controls, projected, code, region, s, world, outer, state, t);
      }
    }
  }

  // ---- Discipline ----

  /** The inserted calls' places in the rewritten list. */
  function BeginIndex(s: Scope): nat { |s.prefix| }
  function CloseIndex(s: Scope): nat { |s.prefix| + 1 + |s.payload| }

  lemma CallsPlaced(region: Region, s: Scope)
    requires Movable(region, s)
    ensures var w := Rewritten(region, s);
            && CloseIndex(s) < |w|
            && w[BeginIndex(s)] == CallAt(s.ctor.offset, s.ctor.token)
            && w[CloseIndex(s)] == CallAt(CloseAt(region, s), s.Closing())
  {
    hide Scope.PayloadEnd, Scope.Closing;
  }

  lemma OutputOrder(resolve: Resolver, instrs: seq<Instruction>, j: nat, k: nat)
    requires Ready(resolve, instrs) && j <= |instrs| && k <= |instrs|
    ensures NewOffset(resolve, instrs, j) < NewOffset(resolve, instrs, k) <==> j < k
    ensures OldOffset(instrs, 0, j) < OldOffset(instrs, 0, k) <==> j < k
  {
    hide Accepted, OutSize, Offsets;
    if j < k {
      NextOffset(resolve, instrs, j);
      RelocationContracts(resolve, instrs, 0, j, j + 1);
      RelocationContracts(resolve, instrs, 0, j + 1, k);
    } else {
      RelocationContracts(resolve, instrs, 0, k, j);
    }
  }

  /** The phase of an instruction is its place among the five segments. */
  lemma PhaseOfIndex(resolve: Resolver, region: Region, s: Scope, k: nat)
    requires Movable(region, s) && Ready(resolve, Rewritten(region, s)) && k <= |Rewritten(region, s)|
    ensures var phase := PhaseOf(region, s, OldOffset(Rewritten(region, s), 0, k));
            && (phase in {Payload, Close} <==> BeginIndex(s) < k <= CloseIndex(s))
            && (phase == Behind <==> k > CloseIndex(s))
  {
    hide Movable, Rewritten, Accepted, OldOffset, NewOffset, Offsets;
    var w := Rewritten(region, s);
    CallsPlaced(region, s);
    OffsetIs(w, 0, BeginIndex(s));
    OffsetIs(w, 0, CloseIndex(s));
    OutputOrder(resolve, w, k, BeginIndex(s));
    OutputOrder(resolve, w, BeginIndex(s), k);
    OutputOrder(resolve, w, k, CloseIndex(s));
    OutputOrder(resolve, w, CloseIndex(s), k);
    OutputOrder(resolve, w, BeginIndex(s), CloseIndex(s));
  }

  /** Between the compiled calls, and nowhere else, the transaction is open; behind them it has its
      outcome; and no line that returns stands where it is open. */
  predicate CompiledDisciplined<S>(first: int, last: int, outcome: Tx, lines: seq<Line>, length: int, pc: int,
                                   m: Machine<S>) {
    && (m.tx == Active <==> first < pc <= last)
    && (pc > last ==> m.tx == outcome)
    && (FetchOut(lines, length, pc).Some? && FetchOut(lines, length, pc).value.line.opcode == RET ==> m.tx != Active)
  }

  /** A state seen at a line of the compiled body. */
  ghost predicate Keeps<S>(resolve: Resolver, region: Region, s: Scope, pc: int, m: Machine<S>)
    requires Movable(region, s) && Ready(resolve, Rewritten(region, s))
  {
    var w := Rewritten(region, s);
    CallsPlaced(region, s);
    CompiledDisciplined(NewOffset(resolve, w, BeginIndex(s)), NewOffset(resolve, w, CloseIndex(s)), Outcome(s),
                        ListingFrom(resolve, w, 0, Offsets(resolve, w, |w|)), NewOffset(resolve, w, |w|), pc, m)
  }

  lemma BoundaryKeeps<S>(resolve: Resolver, region: Region, s: Scope, k: nat, m: Machine<S>)
    requires Movable(region, s) && Ready(resolve, Rewritten(region, s)) && k <= |Rewritten(region, s)|
    requires Disciplined(region, s, Rewritten(region, s), OldOffset(Rewritten(region, s), 0, k), m)
    ensures Keeps(resolve, region, s, NewOffset(resolve, Rewritten(region, s), k), m)
  {
    hide Movable, Rewritten, Accepted, OldOffset, NewOffset, Offsets, PhaseOf, Lookup, FetchIn, FetchOut, ListingFrom,
         OutSize;
    var w := Rewritten(region, s);
    var image := Offsets(resolve, w, |w|);
    CallsPlaced(region, s);
    PhaseOfIndex(resolve, region, s, k);
    OutputOrder(resolve, w, BeginIndex(s), k);
    OutputOrder(resolve, w, CloseIndex(s), k);
    FetchOutAt(resolve, w, 0, k, image);
    FetchInAt(resolve, w, 0, k);
    FetchIsLookup(w, 0, OldOffset(w, 0, k));
    assert w[0..] == w;
    if k < |w| && w[k].opcode != RET { NotReturning(resolve, w, k, image); }
  }

  lemma NotReturning(resolve: Resolver, instrs: seq<Instruction>, k: nat, image: map<int, int>)
    requires AllAccepted(resolve, instrs) && TargetsIn(instrs, image) && k < |instrs| && instrs[k].opcode != RET
    ensures FirstLine(resolve, instrs, k, image).line.opcode != RET
  {
    hide Accepted, OperandOfLine;
  }

  /** Between ldc.i4.0 and newarr. */
  lemma MiddleKeeps<S>(resolve: Resolver, region: Region, s: Scope, k: nat, m: Machine<S>)
    requires Movable(region, s) && Ready(resolve, Rewritten(region, s)) && k < |Rewritten(region, s)|
    requires Keeps(resolve, region, s, NewOffset(resolve, Rewritten(region, s), k), m)
    requires IsEmptyArrayCall(resolve, Rewritten(region, s)[k]) && k != BeginIndex(s) && k != CloseIndex(s)
    ensures Keeps(resolve, region, s, NewOffset(resolve, Rewritten(region, s), k) + 1, m)
  {
    hide Movable, Rewritten, Accepted, OldOffset, NewOffset, Offsets, FetchOut, ListingFrom, LinesOf;
    var w := Rewritten(region, s);
    var image := Offsets(resolve, w, |w|);
    CallsPlaced(region, s);
    FetchSecond(resolve, w, 0, k, image);
    OutputOrder(resolve, w, k, BeginIndex(s));
    OutputOrder(resolve, w, BeginIndex(s), k);
    OutputOrder(resolve, w, k, CloseIndex(s));
    OutputOrder(resolve, w, CloseIndex(s), k);
    SecondIsInside(resolve, w, k, BeginIndex(s));
    SecondIsInside(resolve, w, k, CloseIndex(s));
  }

  lemma SecondIsInside(resolve: Resolver, instrs: seq<Instruction>, k: nat, j: nat)
    requires Ready(resolve, instrs) && k < |instrs| && j <= |instrs| && IsEmptyArrayCall(resolve, instrs[k])
    ensures k < j ==> NewOffset(resolve, instrs, k) + 1 < NewOffset(resolve, instrs, j)
  {
    hide Accepted, Offsets, NewOffset, OutSize;
    if k < j {
      LinesShape(resolve, instrs[k], 0, Offsets(resolve, instrs, |instrs|));
      NextOffset(resolve, instrs, k);
      RelocationContracts(resolve, instrs, 0, k + 1, j);
    }
  }

  /** A call of a control member is not expanded by interpreters that agree with the compact tokens. */
  lemma ControlNotExpanded<S(!new)>(resolve: Resolver, controls: Controls, projected: set<int>, world: World<S>,
                                    marks: Marks, effect: Effect<S>, i: Instruction, state: S)
    requires Agree(resolve, Inner(controls, projected, world), Outer(marks, effect)) && Accepted(resolve, i)
    requires i.opcode == CALL && i.token in projected && controls(i.token) != NoControl
    ensures !IsEmptyArrayCall(resolve, i)
  {
    hide Accepted;
    var m := Machine(state, Some(false), [], Idle, 0);
    var changed := m.(tx := Projected(controls(i.token)));
    assert Inner(controls, projected, world)(InAct(i.opcode, i.immediate, i.token), m) == (changed, Next);
  }

  /** The first half of an expanded call goes on to the second and leaves the transaction alone. */
  lemma HalfStep<S(!new)>(resolve: Resolver, instrs: seq<Instruction>, controls: Controls, projected: set<int>,
                          world: World<S>, marks: Marks, effect: Effect<S>, k: nat, m: Machine<S>)
    requires Ready(resolve, instrs) && Agree(resolve, Inner(controls, projected, world), Outer(marks, effect))
    requires k < |instrs| && IsEmptyArrayCall(resolve, instrs[k])
    ensures var lines := ListingFrom(resolve, instrs, 0, Offsets(resolve, instrs, |instrs|));
            var length, at := NewOffset(resolve, instrs, |instrs|), NewOffset(resolve, instrs, k);
            var next := StepOut(lines, length, Outer(marks, effect), At(at, m));
            next.At? && next.pc == at + 1 && next.state.tx == m.tx
  {
    hide WellFormed, Accepted, OutSize, NewOffset, Offsets, ListingFrom, FetchOut, OperandOfLine;
    var i := instrs[k];
    assert Accepted(resolve, i);
    FetchOutAt(resolve, instrs, 0, k, Offsets(resolve, instrs, |instrs|));
    var (after, flow) := Inner(controls, projected, world)(InAct(i.opcode, i.immediate, i.token), m);
  }

  ghost predicate KeepsAll<S>(resolve: Resolver, region: Region, s: Scope, d: Config<Machine<S>>)
    requires Movable(region, s) && Ready(resolve, Rewritten(region, s))
  {
    d.At? ==> Keeps(resolve, region, s, d.pc, d.state)
  }

  lemma RelatedKeeps<S>(resolve: Resolver, region: Region, s: Scope, c: Config<Machine<S>>, d: Config<Machine<S>>)
    requires Movable(region, s) && Ready(resolve, Rewritten(region, s)) && Related(resolve, Rewritten(region, s), c, d)
    requires c.At? ==> Disciplined(region, s, Rewritten(region, s), c.pc, c.state)
    ensures KeepsAll(resolve, region, s, d)
  {
    hide Movable, Rewritten, Ready, Disciplined, Keeps, OldOffset, NewOffset;
    ReadyAccepted(resolve, Rewritten(region, s));
    if d.At? {
      var k :| AtInstruction(resolve, Rewritten(region, s), c.pc, d.pc, k);
      BoundaryKeeps(resolve, region, s, k, d.state);
    }
  }

  /** Every point of every run of the compiled octets, as the inspector lists them, keeps the
      discipline of TransactionOpenOnlyInPayload. */
  lemma OpenOnlyInCompiledPayload<S(!new)>(
      rows: Rows, resolve: Resolver, controls: Controls, projected: set<int>, code: seq<Byte>, region: Region, s: Scope,
      world: World<S>, marks: Marks, effect: Effect<S>, state: S, t: nat)
    requires Compiles(resolve, controls, projected, code, region, s)
    requires NoneProjected(controls, projected, s.prefix) && NoneProjected(controls, projected, s.tail)
    requires Agree(resolve, Inner(controls, projected, world), Outer(marks, effect))
    requires Listing(rows, Compacted(resolve, Spliced(code, region, s))).Some?
    ensures Movable(region, s) && Ready(resolve, Rewritten(region, s))
    ensures var compiled := Compacted(resolve, Spliced(code, region, s));
            var lines := Listing(rows, compiled).value;
            var w := Rewritten(region, s);
            var d := RunOut(lines, |compiled|, Outer(marks, effect), Start(state), t);
            && CloseIndex(s) < |w|
            && (d.At? ==>
                  CompiledDisciplined(NewOffset(resolve, w, BeginIndex(s)), NewOffset(resolve, w, CloseIndex(s)),
                                              Outcome(s), lines, |compiled|, d.pc, d.state))
  {
    CompilesAccepted(resolve, controls, projected, code, region, s);
    CallsPlaced(region, s);
    CompiledListing(rows, resolve, Spliced(code, region, s), Rewritten(region, s));
    hide Compactable, Compacted, DecodeFrom, Spliced, Listing, IsScope, Partition, Rewritten, Movable, Ready, RunOut,
         CompiledDisciplined;
    EveryStepKeeps(resolve, controls, projected, code, region, s, world, marks, effect, state, t);
  }

  lemma CompiledListing(rows: Rows, resolve: Resolver, input: seq<Byte>, instrs: seq<Instruction>)
    requires |input| < 0x8000_0000 && Compactable(resolve, input) && DecodeFrom(input, 0) == Some(instrs)
    requires Listing(rows, Compacted(resolve, input)).Some?
    ensures var image := Offsets(resolve, instrs, |instrs|);
            && Listing(rows, Compacted(resolve, input)).value == ListingFrom(resolve, instrs, 0, image)
            && |Compacted(resolve, input)| == NewOffset(resolve, instrs, |instrs|)
  {
    hide DecodeFrom, Listing, ListingFrom, Offsets, NewOffset, Accepted;
    InspectorReadsCompactedCode(rows, resolve, input);
  }

  /** The rewritten list keeps its discipline as the machines of compaction run it. */
  lemma BoundaryDisciplined<S(!new)>(controls: Controls, projected: set<int>, code: seq<Byte>, region: Region, s: Scope,
                                     world: World<S>, state: S, n: nat)
    requires IsScopeOf(controls, code, region, s) && Projects(projected, s)
    requires NoneProjected(controls, projected, s.prefix) && NoneProjected(controls, projected, s.tail)
    requires Movable(region, s)
    ensures var c := RunIn(Rewritten(region, s), Inner(controls, projected, world), Start(state), n);
            c.At? ==> Disciplined(region, s, Rewritten(region, s), c.pc, c.state)
  {
    SpliceDecodes(code, controls, region, s);
    hide DecodeFrom, Spliced, IsScope, Partition, Rewritten, Movable, Run, RunIn, Disciplined, Inner, NoneProjected,
         Scope.Whole;
    TransactionOpenOnlyInPayload(controls, projected, code, region, s, world, state, n);
    RunIsRunIn(Rewritten(region, s), controls, projected, world, Start(state), n);
  }

  lemma EveryStepKeeps<S(!new)>(resolve: Resolver, controls: Controls, projected: set<int>, code: seq<Byte>,
                                region: Region, s: Scope, world: World<S>, marks: Marks, effect: Effect<S>, state: S,
                                t: nat)
    requires IsScopeOf(controls, code, region, s) && Projects(projected, s)
    requires NoneProjected(controls, projected, s.prefix) && NoneProjected(controls, projected, s.tail)
    requires Movable(region, s) && Ready(resolve, Rewritten(region, s))
    requires Agree(resolve, Inner(controls, projected, world), Outer(marks, effect))
    ensures var w := Rewritten(region, s);
            var lines := ListingFrom(resolve, w, 0, Offsets(resolve, w, |w|));
            KeepsAll(resolve, region, s,
                     RunOut(lines, NewOffset(resolve, w, |w|), Outer(marks, effect), Start(state), t))
  {
    hide IsScopeOf, Rewritten, Movable, Ready, Agree, RunIn, RunOut, StepOut, KeepsAll, ListingFrom, Offsets,
         NewOffset, Disciplined, Related, AtExpanded, Inner, Outer, NoneProjected;
    var w := Rewritten(region, s);
    ReadyAccepted(resolve, w);
    StartsRelated(resolve, w, state);
    var n, m := StepsCovered(resolve, w, Inner(controls, projected, world), Outer(marks, effect), Start(state),
                             Start(state), t);
    BoundaryDisciplined(controls, projected, code, region, s, world, state, n);
    var lines, length := ListingFrom(resolve, w, 0, Offsets(resolve, w, |w|)), NewOffset(resolve, w, |w|);
    var e := RunOut(lines, length, Outer(marks, effect), Start(state), m);
    RelatedKeeps(resolve, region, s, RunIn(w, Inner(controls, projected, world), Start(state), n), e);
    if t == m + 1 { HalfKeeps(resolve, controls, projected, code, region, s, world, marks, effect, state, e); }
  }

  lemma StartsRelated<S>(resolve: Resolver, instrs: seq<Instruction>, state: S)
    requires AllAccepted(resolve, instrs)
    ensures Related(resolve, instrs, Start(state), Start(state))
  {
    assert AtInstruction(resolve, instrs, 0, 0, 0);
  }

  lemma HalfKeeps<S(!new)>(resolve: Resolver, controls: Controls, projected: set<int>, code: seq<Byte>, region: Region,
                           s: Scope, world: World<S>, marks: Marks, effect: Effect<S>, state: S, e: Config<Machine<S>>)
    requires IsScopeOf(controls, code, region, s) && Projects(projected, s)
    requires Movable(region, s) && Ready(resolve, Rewritten(region, s)) && KeepsAll(resolve, region, s, e)
    requires Agree(resolve, Inner(controls, projected, world), Outer(marks, effect))
    requires e.At? && AtExpanded(resolve, Rewritten(region, s), e.pc)
    ensures var w := Rewritten(region, s);
            var lines := ListingFrom(resolve, w, 0, Offsets(resolve, w, |w|));
            KeepsAll(resolve, region, s, StepOut(lines, NewOffset(resolve, w, |w|), Outer(marks, effect), e))
  {
    hide DecodeFrom, IsScope, Rewritten, Movable, Agree, StepOut, Keeps, ListingFrom, Offsets, NewOffset, Accepted,
         Inner, Outer;
    var w := Rewritten(region, s);
    var k :| 0 <= k < |w| && IsEmptyArrayCall(resolve, w[k]) && e.pc == NewOffset(resolve, w, k);
    CallsPlaced(region, s);
    IsScopeControls(controls, |code|, region, s);
    assert Accepted(resolve, w[BeginIndex(s)]) && Accepted(resolve, w[CloseIndex(s)]);
    ControlNotExpanded(resolve, controls, projected, world, marks, effect, w[BeginIndex(s)], state);
    ControlNotExpanded(resolve, controls, projected, world, marks, effect, w[CloseIndex(s)], state);
    HalfStep(resolve, w, controls, projected, world, marks, effect, k, e.state);
    var lines := ListingFrom(resolve, w, 0, Offsets(resolve, w, |w|));
    var next := StepOut(lines, NewOffset(resolve, w, |w|), Outer(marks, effect), e);
    MiddleKeeps(resolve, region, s, k, e.state);
    SameTransaction(resolve, region, s, NewOffset(resolve, w, k) + 1, e.state, next.state);
  }

  lemma SameTransaction<S>(resolve: Resolver, region: Region, s: Scope, pc: int, m: Machine<S>, n: Machine<S>)
    requires Movable(region, s) && Ready(resolve, Rewritten(region, s)) && Keeps(resolve, region, s, pc, m)
             && m.tx == n.tx
    ensures Keeps(resolve, region, s, pc, n)
  {
    hide Movable, Rewritten, Ready, FetchOut, ListingFrom, Offsets, NewOffset;
  }
}
