/** The shortest body a `using var scope = new TransactionScope();` compiles to, one with a control
    call behind its handler and one that loads the scope there, taken through the rewrite. */
module ScopeExample {
  import opened Wrappers
  import opened Bytes
  import opened Cil
  import opened Splicing
  import opened TransactionScope
  import opened ScopeSplice
  import opened CompactionRuns
  import opened ScopeRuns
  import opened ScopeMeaning
  import opened ScopeExact

  const CONSTRUCTOR_TOKEN := 1
  const DISPOSE_TOKEN := 2
  const PROJECTED := {CONSTRUCTOR_TOKEN, DISPOSE_TOKEN}

  function Members(token: int): Control {
    if token == CONSTRUCTOR_TOKEN then Constructor else if token == DISPOSE_TOKEN then Dispose else NoControl
  }

  /** newobj; stloc.0; leave.s 18; ldloc.0; brfalse.s 17; ldloc.0; callvirt; endfinally */
  function Scaffolding(): seq<Byte> {
    [0x73, 1, 0, 0, 0, 0x0a, 0xde, 10, 0x06, 0x2c, 6, 0x06, 0x6f, 2, 0, 0, 0, 0xdc]
  }

  /** Nothing in the scope, no Complete, and this tail. */
  function Body(tail: seq<Byte>): seq<Byte> { Scaffolding() + tail }

  function Plain(offset: nat, opcode: int): Instruction { Instruction(offset, 1, opcode, 0, -1, [], []) }

  function DisposeAt(offset: nat): Instruction { Instruction(offset, 5, CALLVIRT, DISPOSE_TOKEN, -1, [], []) }

  function Parts(tail: seq<Instruction>): Scope {
    Scope([], Instruction(0, 5, NEWOBJ, CONSTRUCTOR_TOKEN, -1, [], []), Plain(5, 0x0a), [], [],
          Instruction(6, 2, LEAVE_S, 0, -1, [18], []),
          [Plain(8, 0x06), Instruction(9, 2, 0x2c, 0, -1, [17], []), Plain(11, 0x06), DisposeAt(12),
           Plain(17, ENDFINALLY)],
          tail)
  }

  const TRY_FINALLY := Region(Finally, 6, 2, 8, 10)

  lemma InstructionsRead(tail: seq<Byte>)
    ensures DecodeAt(Body(tail), 0) == Some(Instruction(0, 5, NEWOBJ, CONSTRUCTOR_TOKEN, -1, [], []))
    ensures DecodeAt(Body(tail), 5) == Some(Plain(5, 0x0a))
    ensures DecodeAt(Body(tail), 6) == Some(Instruction(6, 2, LEAVE_S, 0, -1, [18], []))
    ensures DecodeAt(Body(tail), 8) == Some(Plain(8, 0x06))
    ensures DecodeAt(Body(tail), 9) == Some(Instruction(9, 2, 0x2c, 0, -1, [17], []))
    ensures DecodeAt(Body(tail), 11) == Some(Plain(11, 0x06))
    ensures DecodeAt(Body(tail), 12) == Some(DisposeAt(12))
    ensures DecodeAt(Body(tail), 17) == Some(Plain(17, ENDFINALLY))
  {
    hide DecodeAt;
    var code := Body(tail);
    var s := Scaffolding();
    assert forall k :: 0 <= k < 18 ==> code[k] == s[k];
    AtPlain(code, 5);
    AtPlain(code, 8);
    AtPlain(code, 11);
    AtPlain(code, 17);
    AtCall(code, 0);
    AtCall(code, 12);
    AtShortBranch(code, 6);
    AtShortBranch(code, 9);
  }

  lemma HandlerDecodes(tail: seq<Byte>, rest: seq<Instruction>)
    requires Decodes(Body(tail), 18, |Body(tail)|, rest)
    ensures Decodes(Body(tail), 8, |Body(tail)|, Parts(rest).handler + rest)
  {
    hide DecodeAt, Body, Decodes;
    var code, h, end := Body(tail), Parts(rest).handler, |Body(tail)|;
    InstructionsRead(tail);
    var r17 := [h[4]] + rest;
    Precedes(code, 17, end, h[4], rest);
    var r12 := [h[3]] + r17;
    Precedes(code, 12, end, h[3], r17);
    var r11 := [h[2]] + r12;
    Precedes(code, 11, end, h[2], r12);
    var r9 := [h[1]] + r11;
    Precedes(code, 9, end, h[1], r11);
    Precedes(code, 8, end, h[0], r9);
    assert [h[0]] + r9 == h + rest;
  }

  /** The opening and the exit, in front of the handler. */
  lemma OpeningDecodes(tail: seq<Byte>, behind: seq<Instruction>)
    requires Decodes(Body(tail), 8, |Body(tail)|, behind)
    ensures var p := Parts([]);
            Decodes(Body(tail), 0, |Body(tail)|, [p.ctor] + ([p.store] + ([p.exit] + behind)))
  {
    hide DecodeAt, Body, Decodes;
    var code, p, end := Body(tail), Parts([]), |Body(tail)|;
    InstructionsRead(tail);
    Precedes(code, 6, end, p.exit, behind);
    Precedes(code, 5, end, p.store, [p.exit] + behind);
    Precedes(code, 0, end, p.ctor, [p.store] + ([p.exit] + behind));
  }

  lemma InOrder(rest: seq<Instruction>)
    ensures var p := Parts(rest);
            p.Whole() == [p.ctor] + ([p.store] + ([p.exit] + (p.handler + rest)))
  {
  }

  lemma BodyDecodes(tail: seq<Byte>, rest: seq<Instruction>)
    requires Decodes(Body(tail), 18, |Body(tail)|, rest)
    ensures DecodeFrom(Body(tail), 0) == Some(Parts(rest).Whole())
  {
    hide DecodeAt, Body, Decodes, DecodeFrom, Scope.Whole;
    HandlerDecodes(tail, rest);
    OpeningDecodes(tail, Parts(rest).handler + rest);
    InOrder(rest);
    DecodesWhole(Body(tail), Parts(rest).Whole());
  }

  lemma NothingMore(code: seq<Byte>, at: nat)
    ensures Decodes(code, at, at, [])
  {
  }

  lemma Precedes(code: seq<Byte>, lo: nat, hi: nat, first: Instruction, rest: seq<Instruction>)
    requires lo < |code| && DecodeAt(code, lo) == Some(first) && Decodes(code, first.End(), hi, rest)
    ensures Decodes(code, lo, hi, [first] + rest)
  {
    assert ([first] + rest)[1..] == rest;
  }

  lemma AtPlain(code: seq<Byte>, pc: nat)
    requires pc < |code| && code[pc] in {0x06, 0x07, 0x0a, ENDFINALLY, RET}
    ensures DecodeAt(code, pc) == Some(Plain(pc, code[pc]))
  {
    assert OperandOf(code[pc]) == Some(InlineNone);
    assert code[pc + 1..pc + 1] == [];
  }

  lemma AtCall(code: seq<Byte>, pc: nat)
    requires pc + 5 <= |code| && code[pc] in {NEWOBJ, CALLVIRT} && code[pc + 1] < 128
    requires code[pc + 2] == code[pc + 3] == code[pc + 4] == 0
    ensures DecodeAt(code, pc) == Some(Instruction(pc, 5, code[pc], code[pc + 1], -1, [], []))
  {
    assert OperandOf(code[pc]) == Some(InlineMethod);
  }

  lemma AtShortBranch(code: seq<Byte>, pc: nat)
    requires pc + 2 <= |code| && code[pc] in {LEAVE_S, 0x2c} && code[pc + 1] < 128
    ensures DecodeAt(code, pc) == Some(Instruction(pc, 2, code[pc], 0, -1, [pc + 2 + code[pc + 1]], []))
  {
    assert OperandOf(code[pc]) == Some(ShortInlineBrTarget);
  }

  /** The scaffolding has the shape of a scope, and a tail without branches stays behind it. */
  lemma ScaffoldingIsScope(length: nat, rest: seq<Instruction>)
    requires length >= 18 && forall k :: 0 <= k < |rest| ==> rest[k].targets == []
    ensures IsScope(Members, length, TRY_FINALLY, Parts(rest))
  {
    var s := Parts(rest);
    assert IsOpening(Members, TRY_FINALLY, s.ctor, s.store) && LocalIndex(s.store, true) == Some(0);
    assert IsDisposal(Members, s.handler, 0);
    assert IsExit(TRY_FINALLY, s.exit);
    hide IsDisposal, IsExit, IsOpening, LocalIndex;
  }

  /** The source rewrites the body: it is a scope, and no operand makes Decode throw. */
  predicate IsAccepted(code: seq<Byte>, s: Scope) {
    IsScopeOf(Members, code, TRY_FINALLY, s) && AllPass(Decoder, s.Whole())
  }

  lemma ScaffoldingPasses(rest: seq<Instruction>)
    requires AllPass(Decoder, rest)
    ensures AllPass(Decoder, Parts(rest).Whole())
  {
    hide Passes;
    var w := Parts(rest).Whole();
    assert |w| == 8 + |rest| && w[0] == Parts(rest).ctor && w[6] == DisposeAt(12);
    assert Passes(Decoder, w[0]) && Passes(Decoder, w[6]) by { MembersPass(); }
    assert forall k :: 0 <= k < |rest| ==> w[8 + k] == rest[k];
    OthersPass(w[1]);
    OthersPass(w[2]);
    OthersPass(w[3]);
    OthersPass(w[4]);
    OthersPass(w[5]);
    OthersPass(w[7]);
  }

  lemma MembersPass()
    ensures forall s :: Passes(Decoder, Parts(s).ctor)
    ensures forall offset :: Passes(Decoder, DisposeAt(offset))
  {
  }

  lemma OthersPass(i: Instruction)
    requires i.opcode in {0x06, 0x07, 0x0a, 0x2c, RET, ENDFINALLY, LEAVE_S}
    ensures Passes(Decoder, i)
  {
  }

  /** A tail without branches makes the body a scope that is accepted. */
  lemma BodyIsScope(tail: seq<Byte>, rest: seq<Instruction>)
    requires Decodes(Body(tail), 18, |Body(tail)|, rest) && forall k :: 0 <= k < |rest| ==> rest[k].targets == []
    requires AllPass(Decoder, rest)
    ensures IsAccepted(Body(tail), Parts(rest))
  {
    ScaffoldingPasses(rest);
    hide DecodeFrom, DecodeAt, Decodes, IsScope, Parts, Scope.Whole, AllPass;
    BodyDecodes(tail, rest);
    assert |Body(tail)| >= 18;
    ScaffoldingIsScope(|Body(tail)|, rest);
  }

  // ---- The shortest scope ----

  lemma ReturnTail()
    ensures Decodes(Body([RET]), 18, 19, [Plain(18, RET)]) && |Body([RET])| == 19
  {
    var code := Body([RET]);
    assert |code| == 19 && code[18] == RET;
    AtPlain(code, 18);
    hide DecodeAt, Body;
    NothingMore(code, 19);
    Precedes(code, 18, 19, Plain(18, RET), []);
    assert [Plain(18, RET)] + [] == [Plain(18, RET)];
  }

  /** The body is accepted, and becomes call Begin; call Abort; ret. */
  lemma ShortestScopeIsRewritten()
    ensures var s := Parts([Plain(18, RET)]);
            && IsAccepted(Body([RET]), s) && Partition(Body([RET]), TRY_FINALLY, s)
            && Spliced(Body([RET]), TRY_FINALLY, s) == [0x28, 1, 0, 0, 0, 0x28, 2, 0, 0, 0, 0x2a]
  {
    hide DecodeFrom, DecodeAt, Body;
    var s := Parts([Plain(18, RET)]);
    ReturnTail();
    OthersPass(s.tail[0]);
    BodyIsScope([RET], s.tail);
    ScopePartition(Members, Body([RET]), TRY_FINALLY, s);
    SplicedBody();
  }

  lemma SplicedBody()
    requires Partition(Body([RET]), TRY_FINALLY, Parts([Plain(18, RET)]))
    ensures Spliced(Body([RET]), TRY_FINALLY, Parts([Plain(18, RET)])) == [0x28, 1, 0, 0, 0, 0x28, 2, 0, 0, 0, 0x2a]
  {
    hide Partition, Decodes;
    var code := Body([RET]);
    assert ProjectedCall(1) == [0x28, 1, 0, 0, 0] && ProjectedCall(2) == [0x28, 2, 0, 0, 0];
    assert code[..0] == [] && code[6..6] == [] && code[18..] == [0x2a];
  }

  // ---- A control call that survives ----

  /** ldloc.0; callvirt Dispose; ret */
  const DISPOSES_AGAIN: seq<Byte> := [0x06, 0x6f, 2, 0, 0, 0, 0x2a]

  function DisposingTail(): seq<Instruction> { [Plain(18, 0x06), DisposeAt(19), Plain(24, RET)] }

  lemma DisposingTailReads()
    ensures var code := Body(DISPOSES_AGAIN);
            && |code| == 25
            && DecodeAt(code, 18) == Some(Plain(18, 0x06))
            && DecodeAt(code, 19) == Some(DisposeAt(19))
            && DecodeAt(code, 24) == Some(Plain(24, RET))
  {
    hide DecodeAt;
    var code := Body(DISPOSES_AGAIN);
    assert |code| == 25 && forall k :: 0 <= k < 7 ==> code[18 + k] == DISPOSES_AGAIN[k];
    assert code[18 + 1] == 0x6f && code[18 + 2] == 2 && code[18 + 6] == RET;
    AtPlain(code, 18);
    AtCall(code, 19);
    AtPlain(code, 24);
  }

  lemma DisposingTailDecodes()
    ensures Decodes(Body(DISPOSES_AGAIN), 18, 25, DisposingTail()) && |Body(DISPOSES_AGAIN)| == 25
  {
    hide DecodeAt, Body, Decodes;
    var code := Body(DISPOSES_AGAIN);
    DisposingTailReads();
    NothingMore(code, 25);
    Precedes(code, 24, 25, Plain(24, RET), []);
    var r19 := [DisposeAt(19)] + ([Plain(24, RET)] + []);
    Precedes(code, 19, 25, DisposeAt(19), [Plain(24, RET)] + []);
    Precedes(code, 18, 25, Plain(18, 0x06), r19);
    assert DisposingTail() == [Plain(18, 0x06)] + r19;
  }

  /** Disposing of the scope once more behind the handler is accepted, and the callvirt of Dispose
      is still there in the rewritten body: the source does not look behind the handler. */
  lemma ControlSurvives()
    ensures var code, s := Body(DISPOSES_AGAIN), Parts(DisposingTail());
            && IsAccepted(code, s) && Partition(code, TRY_FINALLY, s)
            && !NoControls(Members, s.tail)
            && var rewritten := DecodeFrom(Spliced(code, TRY_FINALLY, s), 0);
               rewritten.Some? && DisposeAt(11) in rewritten.value
  {
    hide DecodeFrom, DecodeAt, Body;
    var code, s := Body(DISPOSES_AGAIN), Parts(DisposingTail());
    DisposingTailDecodes();
    MembersPass();
    OthersPass(s.tail[0]);
    OthersPass(s.tail[2]);
    BodyIsScope(DISPOSES_AGAIN, s.tail);
    SpliceDecodes(code, Members, TRY_FINALLY, s);
    assert s.tail[1] == DisposeAt(19);
    TailSurvives(s);
  }

  lemma TailSurvives(s: Scope)
    requires s == Parts(DisposingTail()) && Movable(TRY_FINALLY, s)
    ensures DisposeAt(11) in Rewritten(TRY_FINALLY, s)
  {
    var rest := ShiftAll(s.tail, TailShift(TRY_FINALLY, s));
    assert TailShift(TRY_FINALLY, s) == -8;
    assert rest[1] == Shift(DisposeAt(19), -8) == DisposeAt(11) by { assert Shift(DisposeAt(19), -8).targets == []; }
    var w := Rewritten(TRY_FINALLY, s);
    assert w[|w| - |rest| + 1] == rest[1];
  }

  // ---- A scope that is loaded once more ----

  /** ldloc.0; ret */
  const LOADS_AGAIN: seq<Byte> := [0x06, 0x2a]

  function LoadingTail(): seq<Instruction> { [Plain(18, 0x06), Plain(19, RET)] }

  lemma LoadingTailDecodes()
    ensures Decodes(Body(LOADS_AGAIN), 18, 20, LoadingTail()) && |Body(LOADS_AGAIN)| == 20
  {
    var code := Body(LOADS_AGAIN);
    assert |code| == 20 && code[18] == 0x06 && code[19] == RET;
    AtPlain(code, 18);
    AtPlain(code, 19);
    hide DecodeAt, Body, Decodes;
    NothingMore(code, 20);
    Precedes(code, 19, 20, Plain(19, RET), []);
    Precedes(code, 18, 20, Plain(18, 0x06), [Plain(19, RET)] + []);
    assert LoadingTail() == [Plain(18, 0x06)] + ([Plain(19, RET)] + []);
  }

  /** Counts the loads of local 0 that are not scaffolding. */
  function LoadCounter(): World<int> {
    (act: InAct, loads: int, tx: Tx) =>
      if act.opcode == 0x06 then (loads + 1, Next) else if act.opcode == RET then (loads, Stop) else (loads, Next)
  }

  /** No load was counted, the local holds what the scaffolding stores, and there is something to store. */
  predicate NoLoads(c: Config<Machine<int>>) {
    && (!c.Stuck? ==> c.state.state == 0)
    && (c.At? ==> c.state.scopeLocal.Some? && c.state.pending in {0, 18} && (c.pc == 5 ==> c.state.stack != []))
  }

  /** In the original every load of the local is a load of the scope. */
  lemma {:induction false} OriginalLoadsNothing(c: Config<Machine<int>>, n: nat)
    requires NoLoads(c)
    ensures NoLoads(Run(OldProgram(Members, TRY_FINALLY, Parts(LoadingTail())), LoadCounter(), c, n))
    decreases n
  {
    hide OldProgram, Step, NoLoads;
    if n > 0 {
      var p := OldProgram(Members, TRY_FINALLY, Parts(LoadingTail()));
      OriginalStep(c);
      OriginalLoadsNothing(Step(p, LoadCounter(), c), n - 1);
    }
  }

  lemma OriginalStep(c: Config<Machine<int>>)
    requires NoLoads(c)
    ensures NoLoads(Step(OldProgram(Members, TRY_FINALLY, Parts(LoadingTail())), LoadCounter(), c))
  {
    hide Lookup, Parts, Scope.Whole, LocalIndex, Virtual;
    var s := Parts(LoadingTail());
    var p := OldProgram(Members, TRY_FINALLY, s);
    OriginalShape();
    if c.At? && Lookup(p.instrs, c.pc).Some? {
      var i := Lookup(p.instrs, c.pc).value;
      assert i in s.Whole();
      assert Shaped(i);
      KindOf(i);
    }
  }

  /** What the proof needs of each instruction: only stloc.0 stores to the local, and only newobj comes
      before it. */
  predicate Shaped(i: Instruction) {
    && (i.opcode == 0x06 ==> i.End() >= 6)
    && i.opcode in {0x06, 0x0a, 0x2c, NEWOBJ, CALLVIRT, LEAVE_S, ENDFINALLY, RET}
    && (i.opcode == 0x0a ==> i.offset == 5)
    && (i.End() == 5 ==> i.opcode == NEWOBJ && Members(i.token) == Constructor)
    && (i.opcode == LEAVE_S ==> i.targets == [18]) && (i.opcode == 0x2c ==> i.targets == [17])
  }

  lemma KindOf(i: Instruction)
    ensures i.opcode == 0x06 ==> LocalIndex(i, false) == Some(0)
    ensures Shaped(i) && i.opcode != 0x0a ==> LocalIndex(i, true) == None
    ensures Shaped(i) && i.opcode != 0x06 ==> LocalIndex(i, false) == None
  {
  }

  lemma OriginalShape()
    ensures Local(Parts(LoadingTail())) == 0
    ensures forall i :: i in Parts(LoadingTail()).Whole() ==> Shaped(i)
  {
  }

  lemma LoadingRewritten()
    requires Movable(TRY_FINALLY, Parts(LoadingTail()))
    ensures Rewritten(TRY_FINALLY, Parts(LoadingTail())) == Loading()
  {
    var s := Parts(LoadingTail());
    assert PayloadShift(TRY_FINALLY, s) == -1 && TailShift(TRY_FINALLY, s) == -8;
    var rest := ShiftAll(s.tail, -8);
    assert rest[0] == Plain(10, 0x06) by { assert rest[0].targets == []; }
    assert rest[1] == Plain(11, RET) by { assert rest[1].targets == []; }
    assert rest == [Plain(10, 0x06), Plain(11, RET)];
  }

  function Loading(): seq<Instruction> { [CallAt(0, 1), CallAt(5, 2), Plain(10, 0x06), Plain(11, RET)] }

  lemma LoadingFound()
    ensures Lookup(Loading(), 0) == Some(CallAt(0, 1)) && Lookup(Loading(), 5) == Some(CallAt(5, 2))
    ensures Lookup(Loading(), 10) == Some(Plain(10, 0x06)) && Lookup(Loading(), 11) == Some(Plain(11, RET))
  {
    var w := Loading();
    assert w[1..] == [CallAt(5, 2), Plain(10, 0x06), Plain(11, RET)];
    assert w[1..][1..] == [Plain(10, 0x06), Plain(11, RET)];
    assert w[1..][1..][1..] == [Plain(11, RET)];
  }

  lemma RewrittenLoads()
    ensures var c := Run(Program(Loading(), Members, None, PROJECTED), LoadCounter(), Start(0), 4);
            c.Done? && c.state.state == 1
  {
    hide Lookup, Loading;
    LoadingFound();
    var p := Program(Loading(), Members, None, PROJECTED);
    var m := Machine(0, Some(false), [], Idle, 0);
    var c1, c2 := At(5, m.(tx := Active)), At(10, m.(tx := Aborted));
    var c3, c4 := At(11, m.(tx := Aborted, state := 1)), Done(m.(tx := Aborted, state := 1));
    assert Step(p, LoadCounter(), Start(0)) == c1 && Step(p, LoadCounter(), c1) == c2;
    assert Step(p, LoadCounter(), c2) == c3 && Step(p, LoadCounter(), c3) == c4;
    assert Run(p, LoadCounter(), c1, 3) == Run(p, LoadCounter(), c2, 2) == Run(p, LoadCounter(), c3, 1)
           == Run(p, LoadCounter(), c4, 0);
  }

  /** Loading the scope behind the handler is accepted too, and then the rewritten body does what no
      run of the original does: its load finds no scope, because nothing stores one any more. */
  lemma LaterLoadChangesMeaning(n: nat)
    ensures var code, s := Body(LOADS_AGAIN), Parts(LoadingTail());
            && IsAccepted(code, s) && Partition(code, TRY_FINALLY, s) && Movable(TRY_FINALLY, s)
            && NoControls(Members, s.prefix) && NoControls(Members, s.tail)
            && !Synced(TRY_FINALLY, s, Run(OldProgram(Members, TRY_FINALLY, s), LoadCounter(), Start(0), n),
                       Run(NewProgram(Members, PROJECTED, TRY_FINALLY, s), LoadCounter(), Start(0), 4))
  {
    hide DecodeFrom, DecodeAt, Body, Run, IsScope, Partition, Movable, OldProgram, Rewritten;
    var code, s := Body(LOADS_AGAIN), Parts(LoadingTail());
    LoadingTailDecodes();
    OthersPass(s.tail[0]);
    OthersPass(s.tail[1]);
    BodyIsScope(LOADS_AGAIN, s.tail);
    SpliceDecodes(code, Members, TRY_FINALLY, s);
    LoadingRewritten();
    RewrittenLoads();
    OriginalLoadsNothing(Start(0), n);
  }

  // ---- Another object that is disposed of ----

  /** ldloc.1; callvirt Dispose; ret */
  const DISPOSES_ANOTHER: seq<Byte> := [0x07, 0x6f, 2, 0, 0, 0, 0x2a]

  function OtherTail(): seq<Instruction> { [Plain(18, 0x07), DisposeAt(19), Plain(24, RET)] }

  lemma OtherTailReads()
    ensures var code := Body(DISPOSES_ANOTHER);
            && |code| == 25
            && DecodeAt(code, 18) == Some(Plain(18, 0x07))
            && DecodeAt(code, 19) == Some(DisposeAt(19))
            && DecodeAt(code, 24) == Some(Plain(24, RET))
  {
    hide DecodeAt;
    var code := Body(DISPOSES_ANOTHER);
    assert |code| == 25 && forall k :: 0 <= k < 7 ==> code[18 + k] == DISPOSES_ANOTHER[k];
    assert code[18 + 1] == 0x6f && code[18 + 2] == 2 && code[18 + 6] == RET;
    AtPlain(code, 18);
    AtCall(code, 19);
    AtPlain(code, 24);
  }

  lemma OtherTailDecodes()
    ensures Decodes(Body(DISPOSES_ANOTHER), 18, 25, OtherTail()) && |Body(DISPOSES_ANOTHER)| == 25
  {
    hide DecodeAt, Body, Decodes;
    var code := Body(DISPOSES_ANOTHER);
    OtherTailReads();
    NothingMore(code, 25);
    Precedes(code, 24, 25, Plain(24, RET), []);
    var r19 := [DisposeAt(19)] + ([Plain(24, RET)] + []);
    Precedes(code, 19, 25, DisposeAt(19), [Plain(24, RET)] + []);
    Precedes(code, 18, 25, Plain(18, 0x07), r19);
    assert OtherTail() == [Plain(18, 0x07)] + r19;
  }

  function Disposing(): seq<Instruction> {
    [CallAt(0, 1), CallAt(5, 2), Plain(10, 0x07), DisposeAt(11), Plain(16, RET)]
  }

  lemma OtherRewritten()
    requires Movable(TRY_FINALLY, Parts(OtherTail()))
    ensures Rewritten(TRY_FINALLY, Parts(OtherTail())) == Disposing()
  {
    var s := Parts(OtherTail());
    assert PayloadShift(TRY_FINALLY, s) == -1 && TailShift(TRY_FINALLY, s) == -8;
    var rest := ShiftAll(s.tail, -8);
    assert rest[0] == Plain(10, 0x07) by { assert rest[0].targets == []; }
    assert rest[1] == DisposeAt(11) by { assert rest[1].targets == []; }
    assert rest[2] == Plain(16, RET) by { assert rest[2].targets == []; }
    assert rest == [Plain(10, 0x07), DisposeAt(11), Plain(16, RET)];
  }

  lemma DisposingFound()
    ensures Lookup(Disposing(), 0) == Some(CallAt(0, 1)) && Lookup(Disposing(), 5) == Some(CallAt(5, 2))
    ensures Lookup(Disposing(), 10) == Some(Plain(10, 0x07)) && Lookup(Disposing(), 11) == Some(DisposeAt(11))
  {
    var w := Disposing();
    assert w[1..] == [CallAt(5, 2), Plain(10, 0x07), DisposeAt(11), Plain(16, RET)];
    assert w[1..][1..] == [Plain(10, 0x07), DisposeAt(11), Plain(16, RET)];
    assert w[1..][1..][1..] == [DisposeAt(11), Plain(16, RET)];
  }

  lemma DisposingFollowed()
    ensures Follow(Disposing(), 0, [Next, Next, Next]) == Some(11)
  {
    hide Lookup, Disposing;
    DisposingFound();
    var w := Disposing();
    assert [Next, Next, Next][1..] == [Next, Next] && [Next, Next][1..] == [Next] && [Next][1..] == [];
    assert Follow(w, 11, []) == Some(11);
    assert Follow(w, 10, [Next]) == Some(11);
    assert Follow(w, 5, [Next, Next]) == Some(11);
  }

  /** A body that does not complete its scope and disposes of another object behind it is accepted too, and
      changes its meaning: its IDisposable.Dispose has become Abort. */
  lemma OtherDisposeChangesMeaning()
    ensures var code, s := Body(DISPOSES_ANOTHER), Parts(OtherTail());
            && IsAccepted(code, s) && Movable(TRY_FINALLY, s) && Projects(PROJECTED, s)
            && !Preserved<Guide>(Members, PROJECTED, TRY_FINALLY, s)
  {
    hide DecodeFrom, DecodeAt, Body, IsScope, Partition, Movable, Rewritten, Follow, Lookup, Preserved;
    var code, s := Body(DISPOSES_ANOTHER), Parts(OtherTail());
    OtherTailDecodes();
    MembersPass();
    OthersPass(s.tail[0]);
    OthersPass(s.tail[2]);
    BodyIsScope(DISPOSES_ANOTHER, s.tail);
    MeaningPreservedIff(Members, PROJECTED, code, TRY_FINALLY, s);
    OtherRewritten();
    DisposingFound();
    DisposingFollowed();
    assert CloseAt(TRY_FINALLY, s) == 5;
    assert StraysAlong(Members, PROJECTED, TRY_FINALLY, s, [Next, Next, Next]);
  }
}
