/** The two token walkers, CilTokens (managed/MicroCard.Tool/Mc04Writer.Cil.cs) and CilCalls
    (managed/MicroCard.Tool/Mc04Writer.Transactions.cs), against the decoder: they take the same
    turns and report the same tokens. */
module CilWalkers {
  import opened Wrappers
  import opened Bytes
  import opened Cil

  /** Operand forms the walkers know. */
  predicate Supported(kind: OperandType) {
    kind.InlineNone? || kind.ShortInlineI? || kind.ShortInlineVar? || kind.ShortInlineBrTarget? || kind.InlineI? ||
    kind.InlineBrTarget? || kind.InlineSwitch? || kind.InlineMethod? || kind.InlineField? || kind.InlineType?
  }

  /** What they do not know: eight octets, floating point, signatures, strings, ldtoken, and the
      long forms of arguments and locals. */
  lemma SupportedIff(opcode: int)
    requires OperandOf(opcode).Some?
    ensures Supported(OperandOf(opcode).value) <==>
            opcode !in {0x21, 0x22, 0x23, 0x29, 0x72, 0xd0} && !(0xfe09 <= opcode <= 0xfe0e)
  {
  }

  predicate Known(i: Instruction) { OperandOf(i.opcode).Some? && Supported(OperandOf(i.opcode).value) }

  predicate AllKnown(instrs: seq<Instruction>) { forall k :: 0 <= k < |instrs| ==> Known(instrs[k]) }

  predicate IsCall(i: Instruction) {
    i.opcode in {CALL, CALLVIRT, NEWOBJ} && OperandOf(i.opcode).Some? && OperandOf(i.opcode).value.InlineMethod?
  }

  /** The tokens of the instructions, or of the calls among them, in order. */
  function Tokens(instrs: seq<Instruction>, callsOnly: bool): seq<int> {
    if instrs == [] then []
    else
      var last := instrs[|instrs| - 1];
      Tokens(instrs[..|instrs| - 1], callsOnly) + TokenOf(last, callsOnly)
  }

  function TokenOf(i: Instruction, callsOnly: bool): seq<int> {
    if if callsOnly then IsCall(i) else i.HasToken() then [i.token] else []
  }

  /** All the tokens, an exception, or an enumeration that never ends. */
  datatype Enumeration = Yields(tokens: seq<int>) | Fails | NeverEnds

  /** What a walker makes of the decoder's reading: an operand form it does not know is an exception. */
  function EnumerationOf(reading: Reading, callsOnly: bool): Enumeration {
    match reading
    case Listed(instrs) => if AllKnown(instrs) then Yields(Tokens(instrs, callsOnly)) else Fails
    case Throws => Fails
    case Endless(instrs) => if AllKnown(instrs) then NeverEnds else Fails
  }

  function Walker(callsOnly: bool): Reader { if callsOnly then CallWalker else TokenWalker }

  /** One operand: where the cursor goes. */
  method Step(input: seq<Byte>, start: nat, opcode: int, callsOnly: bool) returns (next: Option<int>)
    requires start < |input| && OpcodeAt(input, start) == Some(opcode)
    ensures var turn := TurnAt(Walker(callsOnly), input, start);
            next == if turn.Some? && Known(turn.value) then Some(turn.value.End()) else None
  {
    OnlySwitchIsNegative(input, start);
    hide OperandOf, Int32At, BackwardAt;
    var pc := start + OpcodeSize(opcode);
    if OperandOf(opcode).None? { return None; }
    var kind := OperandOf(opcode).value;
    if kind.InlineNone? {
    } else if kind.ShortInlineI? || kind.ShortInlineVar? || kind.ShortInlineBrTarget? {
      pc := pc + 1;
    } else if kind.InlineSwitch? {
      next := StepSwitch(input, start, opcode, callsOnly);
      return;
    } else if IsToken(kind) {
      next := StepToken(input, start, opcode, callsOnly);
      return;
    } else if Supported(kind) {
      pc := pc + 4;
    } else {
      return None;
    }
    if pc > |input| { return None; }
    return Some(pc);
  }

  /** CilCalls makes no handle of a field or a type. */
  method StepToken(input: seq<Byte>, start: nat, opcode: int, callsOnly: bool) returns (next: Option<int>)
    requires start < |input| && OpcodeAt(input, start) == Some(opcode)
    requires OperandOf(opcode).Some? && IsToken(OperandOf(opcode).value)
    ensures var turn := TurnAt(Walker(callsOnly), input, start);
            next == if turn.Some? && Known(turn.value) then Some(turn.value.End()) else None
  {
    OnlySwitchIsNegative(input, start);
    hide OperandOf, Int32At, BackwardAt, IsEntity;
    var pc := start + OpcodeSize(opcode);
    var kind := OperandOf(opcode).value;
    if !Supported(kind) || pc + 4 > |input| { return None; }
    if (kind.InlineMethod? || !callsOnly) && !IsEntity(Int32At(input, pc)) { return None; }
    return Some(pc + 4);
  }

  /** A negative count takes the cursor back. */
  method StepSwitch(input: seq<Byte>, start: nat, opcode: int, callsOnly: bool) returns (next: Option<int>)
    requires start < |input| && OpcodeAt(input, start) == Some(opcode)
    requires OperandOf(opcode) == Some(InlineSwitch)
    ensures var turn := TurnAt(Walker(callsOnly), input, start);
            next == if turn.Some? && Known(turn.value) then Some(turn.value.End()) else None
  {
    assert input[start] == SWITCH == opcode;
    SwitchTurn(input, start);
    hide Int32At, TurnAt;
    var pc := start + 1;
    if pc + 4 > |input| { return None; }
    var count: int := Int32At(input, pc);
    if count * 4 < -0x8000_0000 { return None; }
    pc := pc + 4 + count * 4;
    if pc > |input| { return None; }
    return Some(pc);
  }

  method CilTokens(input: seq<Byte>) returns (tokens: Enumeration)
    ensures tokens == EnumerationOf(ReadFrom(TokenWalker, input, 0, {}), false)
  {
    tokens := Walk(input, false);
  }

  method CilCalls(input: seq<Byte>) returns (tokens: Enumeration)
    ensures tokens == EnumerationOf(ReadFrom(CallWalker, input, 0, {}), true)
  {
    tokens := Walk(input, true);
  }

  /** The loop both share but for the opcodes they report. */
  method Walk(input: seq<Byte>, callsOnly: bool) returns (tokens: Enumeration)
    ensures tokens == EnumerationOf(ReadFrom(Walker(callsOnly), input, 0, {}), callsOnly)
  {
    hide TurnAt, OperandOf, OpcodeSize, Known, TokenOf, OpcodeAt;
    var pc := 0;
    var read: seq<int> := [];
    var seen: set<int> := {};
    ghost var decoded: seq<Instruction> := [];
    NothingPrefixed(ReadFrom(Walker(callsOnly), input, 0, {}));
    while pc < |input|
      invariant pc <= |input|
      invariant ReadFrom(Walker(callsOnly), input, 0, {})
                == Prefixed(decoded, ReadFrom(Walker(callsOnly), input, pc, seen))
      invariant AllKnown(decoded) && read == Tokens(decoded, callsOnly)
      decreases Cursors(|input|) - seen
    {
      if pc < 0 { return Fails; }
      if pc in seen {
        assert decoded + [] == decoded;
        return NeverEnds;
      }
      assert pc in Cursors(|input|) - seen;
      var first: int := input[pc];
      if first == 0xfe {
        if pc + 1 >= |input| {
          NoOpcode(input, pc);
          return Fails;
        }
        first := 0xfe00 + (input[pc + 1] as int);
      }
      OpcodeIs(input, pc, first);
      var next := Step(input, pc, first, callsOnly);
      if TurnAt(Walker(callsOnly), input, pc).Some? {
        ghost var i := TurnAt(Walker(callsOnly), input, pc).value;
        PrefixedMore(decoded, i, ReadFrom(Walker(callsOnly), input, i.End(), seen + {pc}));
        UnknownFails(decoded, i, ReadFrom(Walker(callsOnly), input, i.End(), seen + {pc}), callsOnly);
      }
      if next.None? { return Fails; }
      ghost var instruction := TurnAt(Walker(callsOnly), input, pc).value;
      var token := ReadToken(input, pc, first, callsOnly);
      assert (decoded + [instruction])[..|decoded|] == decoded;
      read := read + token;
      decoded := decoded + [instruction];
      seen := seen + {pc};
      pc := next.value;
    }
    assert decoded + [] == decoded;
    return Yields(read);
  }

  method ReadToken(input: seq<Byte>, start: nat, opcode: int, callsOnly: bool) returns (token: seq<int>)
    requires start < |input| && OpcodeAt(input, start) == Some(opcode) && TurnAt(Walker(callsOnly), input, start).Some?
    requires Known(TurnAt(Walker(callsOnly), input, start).value)
    ensures token == TokenOf(TurnAt(Walker(callsOnly), input, start).value, callsOnly)
  {
    OnlySwitchIsNegative(input, start);
    BackwardIsNoToken(input, start);
    hide OperandOf, Int32At, BackwardAt;
    var kind := OperandOf(opcode).value;
    var reported := if callsOnly then kind.InlineMethod? && opcode in {CALL, CALLVIRT, NEWOBJ}
                    else kind.InlineMethod? || kind.InlineField? || kind.InlineType?;
    if reported { return [Int32At(input, start + OpcodeSize(opcode))]; }
    return [];
  }

  lemma BackwardIsNoToken(code: seq<Byte>, pc: nat)
    requires pc < |code|
    ensures BackwardAt(code, pc).Some? ==>
              BackwardAt(code, pc).value.opcode == SWITCH && OperandOf(SWITCH) == Some(InlineSwitch)
  {
  }

  /** An instruction the walker does not know fails the walk, whatever would have followed. */
  lemma UnknownFails(decoded: seq<Instruction>, i: Instruction, rest: Reading, callsOnly: bool)
    ensures !Known(i) ==> EnumerationOf(Prefixed(decoded + [i], rest), callsOnly) == Fails
  {
    hide Known, Tokens;
    if !Known(i) && !rest.Throws? {
      var all := decoded + [i] + rest.instrs;
      assert all[|decoded|] == i;
    }
  }
}
