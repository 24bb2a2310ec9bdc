/** Running the input and the compacted body side by side. An interpreter gives every
    instruction an effect on an arbitrary machine state and a choice of successor; the
    machines only move the program counter. */
module CompactionRuns {
  import opened Wrappers
  import opened Bytes
  import opened Cil
  import opened Compaction
  import opened CompactCil
  import opened Inspect
  import opened CompactionCorrect

  datatype Flow = Next | Jump(n: nat) | Stop

  datatype Config<S> = At(pc: int, state: S) | Done(state: S) | Stuck

  /** What an interpreter sees of an input instruction and of an output line: no offsets, no targets. */
  datatype InAct = InAct(opcode: int, immediate: seq<Byte>, token: int)
  datatype OutAct = OutAct(opcode: int, operand: Operand)

  type InWorld<!S> = (InAct, S) -> (S, Flow)
  type OutWorld<!S> = (OutAct, S) -> (S, Flow)

  function Go<S>(state: S, flow: Flow, next: int, targets: seq<int>): Config<S> {
    match flow
    case Next => At(next, state)
    case Jump(n) => if n < |targets| then At(targets[n], state) else Stuck
    case Stop => Done(state)
  }

  function FetchIn(instrs: seq<Instruction>, j: nat, pc: int): (k: Option<nat>)
    requires j <= |instrs|
    ensures k.Some? ==> k.value < |instrs|
    decreases |instrs| - j
  {
    if j == |instrs| then None else if instrs[j].offset == pc then Some(j) else FetchIn(instrs, j + 1, pc)
  }

  function StepIn<S>(instrs: seq<Instruction>, world: InWorld<S>, c: Config<S>): Config<S> {
    if !c.At? then c
    else if FetchIn(instrs, 0, c.pc).None? then Stuck
    else
      var i := instrs[FetchIn(instrs, 0, c.pc).value];
      var (state, flow) := world(InAct(i.opcode, i.immediate, i.token), c.state);
      Go(state, flow, i.End(), i.targets)
  }

  datatype Fetched = Fetched(line: Line, next: int)

  /** The line at `pc` and the offset behind it; `length` closes the last line. */
  function FetchOut(lines: seq<Line>, length: int, pc: int): Option<Fetched> {
    if lines == [] then None
    else if lines[0].offset == pc then Some(Fetched(lines[0], if |lines| > 1 then lines[1].offset else length))
    else FetchOut(lines[1..], length, pc)
  }

  function ActOfLine(line: Line): OutAct {
    OutAct(line.opcode, if line.operand.Target? || line.operand.TargetList? then Nothing else line.operand)
  }

  function StepOut<S>(lines: seq<Line>, length: int, world: OutWorld<S>, c: Config<S>): Config<S> {
    if !c.At? then c
    else
      match FetchOut(lines, length, c.pc)
      case None => Stuck
      case Some(f) =>
        var (state, flow) := world(ActOfLine(f.line), c.state);
        Go(state, flow, f.next, LineTargets(f.line))
  }

  function RunIn<S>(instrs: seq<Instruction>, world: InWorld<S>, c: Config<S>, n: nat): Config<S>
    decreases n
  {
    if n == 0 then c else RunIn(instrs, world, StepIn(instrs, world, c), n - 1)
  }

  function RunOut<S>(lines: seq<Line>, length: int, world: OutWorld<S>, c: Config<S>, n: nat): Config<S>
    decreases n
  {
    if n == 0 then c else RunOut(lines, length, world, StepOut(lines, length, world, c), n - 1)
  }

  /** The compact token means what the metadata token meant, and an Array.Empty call means
      ldc.i4.0 followed by newarr. */
  ghost predicate Agree<S(!new)>(resolve: Resolver, inner: InWorld<S>, outer: OutWorld<S>) {
    && (forall i: Instruction, s: S {:trigger inner(InAct(i.opcode, i.immediate, i.token), s)} ::
          Accepted(resolve, i) && !IsEmptyArrayCall(resolve, i) ==>
            inner(InAct(i.opcode, i.immediate, i.token), s) == outer(OutAct(i.opcode, ActOperand(resolve, i)), s))
    && (forall i: Instruction, s: S {:trigger inner(InAct(i.opcode, i.immediate, i.token), s)} ::
          Accepted(resolve, i) && IsEmptyArrayCall(resolve, i) ==>
            var (pushed, first) := outer(OutAct(LDC_I4_0, Nothing), s);
            first == Next && inner(InAct(i.opcode, i.immediate, i.token), s) ==
              outer(OutAct(NEWARR, Inspect.CompactToken(TYPE_REF, resolve(i.token).elementRow)), pushed))
  }

  /** Constants, variables and compact tokens are visible to the interpreter; targets are not. */
  function ActOperand(resolve: Resolver, i: Instruction): Operand
    requires Accepted(resolve, i) && !IsEmptyArrayCall(resolve, i)
  {
    if IsBranch(OperandOf(i.opcode).value) then Nothing else OperandOfLine(resolve, i, map[])
  }

  /** The two machines stand at the same instruction with the same state. */
  ghost predicate Related<S>(resolve: Resolver, instrs: seq<Instruction>, c: Config<S>, d: Config<S>)
    requires AllAccepted(resolve, instrs)
  {
    if c.At? && d.At? then
      c.state == d.state && exists k :: AtInstruction(resolve, instrs, c.pc, d.pc, k)
    else c == d
  }

  predicate AtInstruction(resolve: Resolver, instrs: seq<Instruction>, p: int, q: int, k: int)
    requires AllAccepted(resolve, instrs)
  {
    0 <= k <= |instrs| && p == OldOffset(instrs, 0, k) && q == NewOffset(resolve, instrs, k)
  }

  predicate Ready(resolve: Resolver, instrs: seq<Instruction>) {
    && AllAccepted(resolve, instrs) && Consecutive(instrs, 0)
    && TargetsIn(instrs, Offsets(resolve, instrs, |instrs|))
  }

  lemma {:induction false} FetchInAt(resolve: Resolver, instrs: seq<Instruction>, j: nat, k: nat)
    requires AllAccepted(resolve, instrs) && Consecutive(instrs, 0) && j <= k <= |instrs|
    ensures FetchIn(instrs, j, OldOffset(instrs, 0, k)) == if k == |instrs| then None else Some(k)
    decreases k - j
  {
    hide WellFormed, OutSize, IsAllowed, OperandOf;
    if j < k {
      RelocationContracts(resolve, instrs, 0, j, k);
      OffsetIs(instrs, 0, j);
      FetchInAt(resolve, instrs, j + 1, k);
    } else if k < |instrs| {
      OffsetIs(instrs, 0, k);
    }
  }

  lemma LinesShape(resolve: Resolver, i: Instruction, at: int, image: map<int, int>)
    requires Accepted(resolve, i) && TargetsOf(i, image)
    ensures var lines := LinesOf(resolve, i, at, image);
            && 1 <= |lines| <= 2 && lines[0].offset == at
            && (|lines| == 2 <==> IsEmptyArrayCall(resolve, i))
            && (|lines| == 2 ==> lines[1].offset == at + 1 && OutSize(resolve, i) == 5)
  {
    hide OperandOfLine;
    CallTakesToken();
  }

  /** Looking up the first line of instruction k in the listing. */
  lemma {:induction false} FetchOutAt(resolve: Resolver, instrs: seq<Instruction>, j: nat, k: nat, image: map<int, int>)
    requires AllAccepted(resolve, instrs) && Consecutive(instrs, 0) && TargetsIn(instrs, image) && j <= k <= |instrs|
    ensures var length := NewOffset(resolve, instrs, |instrs|);
            FetchOut(ListingFrom(resolve, instrs, j, image), length, NewOffset(resolve, instrs, k)) ==
            if k == |instrs| then None else Some(FirstLine(resolve, instrs, k, image))
    decreases k - j
  {
    hide WellFormed, OutSize, IsAllowed, OperandOf, LinesOf, Accepted, NewOffset;
    var length := NewOffset(resolve, instrs, |instrs|);
    if j < |instrs| {
      var at := NewOffset(resolve, instrs, j);
      var head, rest := LinesOf(resolve, instrs[j], at, image), ListingFrom(resolve, instrs, j + 1, image);
      LinesShape(resolve, instrs[j], at, image);
      NextOffset(resolve, instrs, j);
      if j < k {
        RelocationContracts(resolve, instrs, 0, j + 1, k);
        FetchOutAt(resolve, instrs, j + 1, k, image);
        SkipLines(head, rest, length, NewOffset(resolve, instrs, k));
      } else if |head| == 1 {
        FirstOfRest(resolve, instrs, j + 1, image);
        assert (head + rest)[1..] == rest;
      } else {
        assert (head + rest)[1] == head[1];
      }
    }
  }

  lemma NextOffset(resolve: Resolver, instrs: seq<Instruction>, k: nat)
    requires AllAccepted(resolve, instrs) && k < |instrs|
    ensures NewOffset(resolve, instrs, k + 1) == NewOffset(resolve, instrs, k) + OutSize(resolve, instrs[k])
    ensures OutSize(resolve, instrs[k]) > 0
  {
    OutSizeShrinks(resolve, instrs[k]);
  }

  lemma FirstOfRest(resolve: Resolver, instrs: seq<Instruction>, k: nat, image: map<int, int>)
    requires AllAccepted(resolve, instrs) && TargetsIn(instrs, image) && k <= |instrs|
    ensures var rest := ListingFrom(resolve, instrs, k, image);
            if k == |instrs| then rest == [] else |rest| > 0 && rest[0].offset == NewOffset(resolve, instrs, k)
  {
    hide WellFormed, OutSize, IsAllowed, OperandOf, LinesOf, Accepted, NewOffset;
    if k < |instrs| { LinesShape(resolve, instrs[k], NewOffset(resolve, instrs, k), image); }
  }

  lemma SkipLines(head: seq<Line>, rest: seq<Line>, length: int, pc: int)
    requires 1 <= |head| <= 2 && forall m :: 0 <= m < |head| ==> head[m].offset != pc
    ensures FetchOut(head + rest, length, pc) == FetchOut(rest, length, pc)
  {
    if |head| == 1 {
      assert (head + rest)[1..] == rest;
    } else {
      assert (head + rest)[0] == head[0] && (head + rest)[1..][0] == head[1];
      assert (head + rest)[1..][1..] == rest;
    }
  }

  function FirstLine(resolve: Resolver, instrs: seq<Instruction>, k: nat, image: map<int, int>): Fetched
    requires AllAccepted(resolve, instrs) && TargetsIn(instrs, image) && k < |instrs|
  {
    var at := NewOffset(resolve, instrs, k);
    Fetched(LinesOf(resolve, instrs[k], at, image)[0],
            if IsEmptyArrayCall(resolve, instrs[k]) then at + 1 else NewOffset(resolve, instrs, k + 1))
  }

  /** The newarr line of an expanded call. */
  lemma {:induction false} FetchSecond(resolve: Resolver, instrs: seq<Instruction>, j: nat, k: nat,
                                       image: map<int, int>)
    requires AllAccepted(resolve, instrs) && Consecutive(instrs, 0) && TargetsIn(instrs, image)
    requires j <= k < |instrs| && IsEmptyArrayCall(resolve, instrs[k])
    ensures var at := NewOffset(resolve, instrs, k);
            FetchOut(ListingFrom(resolve, instrs, j, image), NewOffset(resolve, instrs, |instrs|), at + 1) ==
            Some(Fetched(Line(at + 1, NEWARR, Inspect.CompactToken(TYPE_REF, resolve(instrs[k].token).elementRow)),
                         NewOffset(resolve, instrs, k + 1)))
    decreases k - j
  {
    hide WellFormed, OutSize, IsAllowed, OperandOf, Accepted, NewOffset, OperandOfLine;
    var length := NewOffset(resolve, instrs, |instrs|);
    var at := NewOffset(resolve, instrs, j);
    var head, rest := LinesOf(resolve, instrs[j], at, image), ListingFrom(resolve, instrs, j + 1, image);
    NextOffset(resolve, instrs, j);
    LinesShape(resolve, instrs[j], at, image);
    if j < k {
      RelocationContracts(resolve, instrs, 0, j + 1, k);
      FetchSecond(resolve, instrs, j + 1, k, image);
      SkipLines(head, rest, length, NewOffset(resolve, instrs, k) + 1);
    } else {
      FirstOfRest(resolve, instrs, j + 1, image);
      assert (head + rest)[1..] == [head[1]] + rest;
    }
  }

  /** Where an input jump goes, the output jump goes. */
  lemma GoRelated<S>(resolve: Resolver, instrs: seq<Instruction>, k: nat, state: S, flow: Flow)
    requires Ready(resolve, instrs) && k < |instrs| && !IsEmptyArrayCall(resolve, instrs[k])
    ensures var image := Offsets(resolve, instrs, |instrs|);
            var line := LinesOf(resolve, instrs[k], NewOffset(resolve, instrs, k), image)[0];
            && |LineTargets(line)| == |instrs[k].targets|
            && Related(resolve, instrs, Go(state, flow, instrs[k].End(), instrs[k].targets),
                       Go(state, flow, NewOffset(resolve, instrs, k + 1), LineTargets(line)))
  {
    hide OperandOf, IsAllowed, OutSize, NewOffset, Offsets;
    CallTakesToken();
    AllowedKinds(instrs[k].opcode);
    var image := Offsets(resolve, instrs, |instrs|);
    var line := LinesOf(resolve, instrs[k], NewOffset(resolve, instrs, k), image)[0];
    if flow.Next? {
      assert AtInstruction(resolve, instrs, instrs[k].End(), NewOffset(resolve, instrs, k + 1), k + 1);
    } else if flow.Jump? && flow.n < |instrs[k].targets| {
      var t := instrs[k].targets[flow.n];
      assert LineTargets(line)[flow.n] == image[t];
      var j := OffsetIndex(resolve, instrs, t);
      assert AtInstruction(resolve, instrs, t, image[t], j);
    }
  }

  lemma ActsAgree(resolve: Resolver, i: Instruction, at: int, image: map<int, int>)
    requires Accepted(resolve, i) && TargetsOf(i, image) && !IsEmptyArrayCall(resolve, i)
    ensures ActOfLine(LinesOf(resolve, i, at, image)[0]) == OutAct(i.opcode, ActOperand(resolve, i))
  {
    hide OperandOf, IsAllowed;
    AllowedKinds(i.opcode);
  }

  /** The output offset of an Array.Empty call that was expanded. */
  ghost predicate AtExpanded(resolve: Resolver, instrs: seq<Instruction>, q: int)
    requires AllAccepted(resolve, instrs)
  {
    exists k :: 0 <= k < |instrs| && IsEmptyArrayCall(resolve, instrs[k]) && q == NewOffset(resolve, instrs, k)
  }

  /** One input step is one output step, or two when an Array.Empty call was expanded. */
  lemma StepSimulated<S(!new)>(resolve: Resolver, instrs: seq<Instruction>, inner: InWorld<S>, outer: OutWorld<S>,
                         c: Config<S>, d: Config<S>) returns (m: nat)
    requires Ready(resolve, instrs) && Agree(resolve, inner, outer) && Related(resolve, instrs, c, d)
    ensures 1 <= m <= 2 && (m == 2 ==> d.At? && AtExpanded(resolve, instrs, d.pc))
    ensures var lines := ListingFrom(resolve, instrs, 0, Offsets(resolve, instrs, |instrs|));
            var length := NewOffset(resolve, instrs, |instrs|);
            Related(resolve, instrs, StepIn(instrs, inner, c), RunOut(lines, length, outer, d, m))
  {
    hide WellFormed, Accepted, OutSize, NewOffset, Offsets, ListingFrom, LinesOf, ActOperand, FetchOut, FetchIn;
    m := 1;
    var image := Offsets(resolve, instrs, |instrs|);
    var lines, length := ListingFrom(resolve, instrs, 0, image), NewOffset(resolve, instrs, |instrs|);
    assert RunOut(lines, length, outer, d, 1) == StepOut(lines, length, outer, d);
    if c.At? {
      var k :| AtInstruction(resolve, instrs, c.pc, d.pc, k);
      FetchInAt(resolve, instrs, 0, k);
      FetchOutAt(resolve, instrs, 0, k, image);
      if k < |instrs| {
        var i := instrs[k];
        assert Accepted(resolve, i);
        var (after, flow) := inner(InAct(i.opcode, i.immediate, i.token), c.state);
        if IsEmptyArrayCall(resolve, i) {
          m := 2;
          EmptyArrayStep(resolve, instrs, k, inner, outer, c.state);
        } else {
          ActsAgree(resolve, i, NewOffset(resolve, instrs, k), image);
          GoRelated(resolve, instrs, k, after, flow);
        }
      }
    }
  }

  lemma EmptyArrayStep<S(!new)>(resolve: Resolver, instrs: seq<Instruction>, k: nat, inner: InWorld<S>,
                                outer: OutWorld<S>, state: S)
    requires Ready(resolve, instrs) && Agree(resolve, inner, outer)
    requires k < |instrs| && IsEmptyArrayCall(resolve, instrs[k])
    ensures var i := instrs[k];
            var lines := ListingFrom(resolve, instrs, 0, Offsets(resolve, instrs, |instrs|));
            var length := NewOffset(resolve, instrs, |instrs|);
            var (after, flow) := inner(InAct(i.opcode, i.immediate, i.token), state);
            Related(resolve, instrs, Go(after, flow, i.End(), i.targets),
                    RunOut(lines, length, outer, At(NewOffset(resolve, instrs, k), state), 2))
  {
    hide WellFormed, OutSize, NewOffset, Offsets, ListingFrom, ActOperand, FetchOut, OperandOfLine, Accepted;
    var i := instrs[k];
    assert Accepted(resolve, i);
    var image := Offsets(resolve, instrs, |instrs|);
    var lines, length := ListingFrom(resolve, instrs, 0, image), NewOffset(resolve, instrs, |instrs|);
    var at := NewOffset(resolve, instrs, k);
    FetchOutAt(resolve, instrs, 0, k, image);
    FetchSecond(resolve, instrs, 0, k, image);
    CallHasNoTargets(resolve, i);
    var (after, flow) := inner(InAct(i.opcode, i.immediate, i.token), state);
    var (pushed, first) := outer(OutAct(LDC_I4_0, Nothing), state);
    assert StepOut(lines, length, outer, At(at, state)) == At(at + 1, pushed);
    var last := StepOut(lines, length, outer, At(at + 1, pushed));
    assert last == Go(after, flow, NewOffset(resolve, instrs, k + 1), []);
    assert RunOut(lines, length, outer, At(at, state), 2) == RunOut(lines, length, outer, At(at + 1, pushed), 1)
           == last;
    assert AtInstruction(resolve, instrs, i.End(), NewOffset(resolve, instrs, k + 1), k + 1);
  }

  lemma CallHasNoTargets(resolve: Resolver, i: Instruction)
    requires Accepted(resolve, i) && IsEmptyArrayCall(resolve, i)
    ensures i.targets == []
  {
    CallTakesToken();
  }

  lemma {:induction false} RunOutSplit<S>(lines: seq<Line>, length: int, world: OutWorld<S>, c: Config<S>, m: nat,
                                          n: nat)
    ensures RunOut(lines, length, world, c, m + n)
            == RunOut(lines, length, world, RunOut(lines, length, world, c, m), n)
    decreases m
  {
    if m > 0 { RunOutSplit(lines, length, world, StepOut(lines, length, world, c), m - 1, n); }
  }

  /** Every run of the input, however long, is a run of the compacted body. */
  lemma {:induction false} RunSimulated<S(!new)>(resolve: Resolver, instrs: seq<Instruction>, inner: InWorld<S>,
                                                 outer: OutWorld<S>,
                                           c: Config<S>, d: Config<S>, n: nat) returns (m: nat)
    requires Ready(resolve, instrs) && Agree(resolve, inner, outer) && Related(resolve, instrs, c, d)
    ensures n <= m <= 2 * n
    ensures var lines := ListingFrom(resolve, instrs, 0, Offsets(resolve, instrs, |instrs|));
            var length := NewOffset(resolve, instrs, |instrs|);
            Related(resolve, instrs, RunIn(instrs, inner, c, n), RunOut(lines, length, outer, d, m))
    decreases n
  {
    hide Ready, Agree, Related, StepIn, StepOut, ListingFrom, Offsets, NewOffset;
    m := 0;
    if n > 0 {
      ReadyAccepted(resolve, instrs);
      var lines, length := ListingFrom(resolve, instrs, 0, Offsets(resolve, instrs, |instrs|)),
        NewOffset(resolve, instrs, |instrs|);
      var first := StepSimulated(resolve, instrs, inner, outer, c, d);
      var rest := RunSimulated(resolve, instrs, inner, outer, StepIn(instrs, inner, c),
                               RunOut(lines, length, outer, d, first), n - 1);
      RunOutSplit(lines, length, outer, d, first, rest);
      m := first + rest;
    }
  }

  /** Every output run stands where an input run stands, or one step behind, in an expanded call. */
  lemma {:induction false} StepsCovered<S(!new)>(resolve: Resolver, instrs: seq<Instruction>, inner: InWorld<S>,
                                                 outer: OutWorld<S>, c: Config<S>, d: Config<S>, t: nat)
    returns (n: nat, m: nat)
    requires Ready(resolve, instrs) && Agree(resolve, inner, outer) && Related(resolve, instrs, c, d)
    ensures m <= t <= m + 1 && n <= m <= 2 * n
    ensures var lines := ListingFrom(resolve, instrs, 0, Offsets(resolve, instrs, |instrs|));
            var length := NewOffset(resolve, instrs, |instrs|);
            var e := RunOut(lines, length, outer, d, m);
            && Related(resolve, instrs, RunIn(instrs, inner, c, n), e)
            && (t == m + 1 ==> e.At? && AtExpanded(resolve, instrs, e.pc)
                               && RunOut(lines, length, outer, d, t) == StepOut(lines, length, outer, e))
    decreases t
  {
    hide Ready, Agree, Related, StepIn, StepOut, ListingFrom, Offsets, NewOffset, AtExpanded;
    n, m := 0, 0;
    if t > 0 {
      ReadyAccepted(resolve, instrs);
      var lines, length := ListingFrom(resolve, instrs, 0, Offsets(resolve, instrs, |instrs|)),
        NewOffset(resolve, instrs, |instrs|);
      var first := StepSimulated(resolve, instrs, inner, outer, c, d);
      if first <= t {
        var d1 := RunOut(lines, length, outer, d, first);
        n, m := StepsCovered(resolve, instrs, inner, outer, StepIn(instrs, inner, c), d1, t - first);
        RunOutSplit(lines, length, outer, d, first, m);
        RunOutSplit(lines, length, outer, d, first, t - first);
        n, m := n + 1, first + m;
      } else {
        assert RunOut(lines, length, outer, d, 1) == RunOut(lines, length, outer, StepOut(lines, length, outer, d), 0);
      }
    }
  }

  lemma ReadyAccepted(resolve: Resolver, instrs: seq<Instruction>)
    requires Ready(resolve, instrs)
    ensures AllAccepted(resolve, instrs) && TargetsIn(instrs, Offsets(resolve, instrs, |instrs|))
  {
  }

  /** The compacted body, as the independent reader lists it, runs as the input runs: started
      at offset 0 in any state, every input run has an output run that ends at the image of
      the same instruction in the same state, or stops or sticks where it does. */
  lemma CompactionPreservesRuns<S(!new)>(rows: Rows, resolve: Resolver, input: seq<Byte>, inner: InWorld<S>,
                                         outer: OutWorld<S>,
                                   state: S, n: nat) returns (m: nat)
    requires |input| < 0x8000_0000 && Compactable(resolve, input) && Agree(resolve, inner, outer)
    requires Listing(rows, Compacted(resolve, input)).Some?
    ensures n <= m <= 2 * n
    ensures var instrs := DecodeFrom(input, 0).value;
            var code := Compacted(resolve, input);
            Related(resolve, instrs, RunIn(instrs, inner, At(0, state), n),
                    RunOut(Listing(rows, code).value, |code|, outer, At(0, state), m))
  {
    hide WellFormed, Accepted, OutSize, Offsets, LinesFrom, ListingFrom, DecodeAt, Agree, Listing;
    var instrs := DecodeFrom(input, 0).value;
    DecodeFills(input, 0);
    DecodesConsecutive(input, 0, |input|, instrs);
    InspectorReadsCompactedCode(rows, resolve, input);
    assert AtInstruction(resolve, instrs, 0, 0, 0);
    m := RunSimulated(resolve, instrs, inner, outer, At(0, state), At(0, state), n);
  }
}
