/** CIL instructions as the MC04 writer decodes them: the opcode table of ECMA-335
    Partition III with the operand kinds of System.Reflection.Emit, and one instruction
    at a time out of a method body. */
module Cil {
  import opened Wrappers
  import opened Bytes

  datatype OperandType =
    | InlineNone | ShortInlineI | ShortInlineVar | InlineVar | InlineI | ShortInlineR
    | InlineI8 | InlineR | ShortInlineBrTarget | InlineBrTarget | InlineSwitch
    | InlineMethod | InlineField | InlineType | InlineTok | InlineString | InlineSig

  const CALL := 0x28
  const CALLVIRT := 0x6f
  const NEWOBJ := 0x73
  const NEWARR := 0x8d
  const LDC_I4_0 := 0x16
  const RET := 0x2a
  const ENDFINALLY := 0xdc
  const LEAVE := 0xdd
  const LEAVE_S := 0xde
  const SWITCH := 0x45

  /** The operand kind of an opcode value, or None where .NET defines no opcode.
      Two-octet opcodes are 0xfe00 plus their second octet. */
  function OperandOf(opcode: int): Option<OperandType> {
    if opcode in {0x0e, 0x0f, 0x10, 0x11, 0x12, 0x13} then Some(ShortInlineVar)
    else if opcode == 0x1f || opcode == 0xfe12 then Some(ShortInlineI)
    else if opcode == 0x20 then Some(InlineI)
    else if opcode == 0x21 then Some(InlineI8)
    else if opcode == 0x22 then Some(ShortInlineR)
    else if opcode == 0x23 then Some(InlineR)
    else if 0x2b <= opcode <= 0x37 || opcode == LEAVE_S then Some(ShortInlineBrTarget)
    else if 0x38 <= opcode <= 0x44 || opcode == LEAVE then Some(InlineBrTarget)
    else if opcode == SWITCH then Some(InlineSwitch)
    else if opcode in {0x27, CALL, CALLVIRT, NEWOBJ, 0xfe06, 0xfe07} then Some(InlineMethod)
    else if opcode == 0x29 then Some(InlineSig)
    else if opcode == 0x72 then Some(InlineString)
    else if opcode == 0xd0 then Some(InlineTok)
    else if 0x7b <= opcode <= 0x80 then Some(InlineField)
    else if opcode in {0x70, 0x71, 0x74, 0x75, 0x79, 0x81, 0x8c, NEWARR, 0x8f, 0xa3, 0xa4, 0xa5,
                       0xc2, 0xc6, 0xfe15, 0xfe16, 0xfe1c} then Some(InlineType)
    else if 0xfe09 <= opcode <= 0xfe0e then Some(InlineVar)
    else if UndefinedOpcode(opcode) then None
    else Some(InlineNone)
  }

  predicate UndefinedOpcode(opcode: int) {
    || opcode < 0 || opcode == 0x24 || opcode == 0x77 || opcode == 0x78
    || 0xa6 <= opcode <= 0xb2 || 0xbb <= opcode <= 0xc1 || opcode == 0xc4 || opcode == 0xc5
    || 0xc7 <= opcode <= 0xcf || 0xe1 <= opcode <= 0xf7
    || (opcode > 0xff && !(0xfe00 <= opcode <= 0xfe05) && opcode !in {0xfe0f, 0xfe11, 0xfe13, 0xfe14,
                           0xfe17, 0xfe18, 0xfe1a, 0xfe1d, 0xfe1e})
  }

  /** Octets of an operand whose length does not depend on its contents. */
  function OperandSize(kind: OperandType): (size: nat)
    requires !kind.InlineSwitch?
  {
    match kind
    case InlineNone => 0
    case ShortInlineI => 1
    case ShortInlineVar => 1
    case ShortInlineBrTarget => 1
    case InlineVar => 2
    case InlineI8 => 8
    case InlineR => 8
    case _ => 4
  }

  predicate IsToken(kind: OperandType) {
    kind.InlineMethod? || kind.InlineField? || kind.InlineType? ||
    kind.InlineTok? || kind.InlineString? || kind.InlineSig?
  }

  predicate IsBranch(kind: OperandType) {
    kind.ShortInlineBrTarget? || kind.InlineBrTarget? || kind.InlineSwitch?
  }

  /** A decoded instruction. `targets` are absolute; `immediate` keeps the operand octets of
      instructions that carry neither a token nor a branch. */
  datatype Instruction = Instruction(
    offset: nat, size: int, opcode: int, token: int, variable: int, targets: seq<int>, immediate: seq<Byte>)
  {
    function End(): int { offset + size }

    predicate HasToken() { OperandOf(opcode).Some? && IsToken(OperandOf(opcode).value) }
  }

  function OpcodeSize(opcode: int): nat { if opcode >= 0xfe00 then 2 else 1 }

  function OpcodeBytes(opcode: int): (s: seq<Byte>)
    requires 0 <= opcode < 0xfe || 0xfe00 <= opcode < 0xff00 || opcode == 0xff
    ensures |s| == OpcodeSize(opcode)
  {
    if opcode >= 0xfe00 then [0xfe, opcode - 0xfe00] else [opcode]
  }

  function OpcodeAt(code: seq<Byte>, pc: nat): Option<int>
    requires pc < |code|
  {
    if code[pc] != 0xfe then Some(code[pc])
    else if pc + 1 < |code| then Some(0xfe00 + (code[pc + 1] as int))
    else None
  }

  function BranchTargets(kind: OperandType, code: seq<Byte>, at: nat): seq<int>
    requires !kind.InlineSwitch? ==> at + OperandSize(kind) <= |code|
    requires kind.InlineSwitch? ==>
               at + 4 <= |code| && 0 <= Int32At(code, at) && at + 4 + 4 * Int32At(code, at) <= |code|
  {
    match kind
    case ShortInlineBrTarget => [at + 1 + SByteOf(code[at])]
    case InlineBrTarget => [at + 4 + Int32At(code, at)]
    case InlineSwitch =>
      var count := Int32At(code, at);
      seq(count, j requires 0 <= j < count => at + 4 + 4 * count + Int32At(code, at + 4 + 4 * j))
    case _ => []
  }

  /** Octets of the operand at `at`, or None when the body ends first or a switch count is negative. */
  function OperandLength(kind: OperandType, code: seq<Byte>, at: nat): Option<nat> {
    if kind.InlineSwitch? then
      if at + 4 > |code| || Int32At(code, at) < 0 || at + 4 + 4 * Int32At(code, at) > |code| then None
      else Some(4 + 4 * Int32At(code, at))
    else if at + OperandSize(kind) > |code| then None
    else Some(OperandSize(kind))
  }

  /** The instruction at `pc`, or None where the source throws. */
  function DecodeAt(code: seq<Byte>, pc: nat): (r: Option<Instruction>)
    requires pc < |code|
    ensures r.Some? ==> r.value.offset == pc && pc < r.value.End() <= |code|
  {
    var opcode := OpcodeAt(code, pc);
    if opcode.None? || OperandOf(opcode.value).None? then None
    else
      var kind := OperandOf(opcode.value).value;
      var at := pc + OpcodeSize(opcode.value);
      var length := OperandLength(kind, code, at);
      if length.None? then None
      else Some(Instruction(pc, at + length.value - pc, opcode.value,
                            if IsToken(kind) then Int32At(code, at) else 0,
                            VariableAt(kind, code, at),
                            BranchTargets(kind, code, at),
                            if IsToken(kind) || IsBranch(kind) then [] else code[at..at + length.value]))
  }

  function VariableAt(kind: OperandType, code: seq<Byte>, at: nat): int
    requires OperandLength(kind, code, at).Some?
  {
    match kind
    case ShortInlineVar => code[at]
    case InlineVar => UInt16At(code, at)
    case _ => -1
  }

  /** All instructions from `pc` to the end of the body. */
  function DecodeFrom(code: seq<Byte>, pc: nat): Option<seq<Instruction>>
    requires pc <= |code|
    decreases |code| - pc
  {
    if pc == |code| then Some([])
    else
      var first := DecodeAt(code, pc);
      if first.None? then None
      else
        var rest := DecodeFrom(code, first.value.End());
        if rest.None? then None else Some([first.value] + rest.value)
  }

  /** `instrs` are exactly the instructions that fill [lo, hi). */
  predicate Decodes(code: seq<Byte>, lo: nat, hi: nat, instrs: seq<Instruction>)
    decreases |instrs|
  {
    if instrs == [] then lo == hi
    else lo < |code| && DecodeAt(code, lo) == Some(instrs[0]) &&
         Decodes(code, instrs[0].End(), hi, instrs[1..])
  }

  // ---- The loop as it runs ----

  /** A switch with a negative count. */
  predicate NegativeAt(code: seq<Byte>, pc: nat)
    requires pc < |code|
  {
    code[pc] == SWITCH && pc + 5 <= |code| && Int32At(code, pc + 1) < 0
  }

  /** Such a switch has no targets and moves the cursor back by four octets for each count below
      zero, unless that leaves the 32-bit range. */
  function BackwardAt(code: seq<Byte>, pc: nat): Option<Instruction>
    requires pc < |code|
  {
    if NegativeAt(code, pc) && Int32At(code, pc + 1) >= -0x2000_0000 then
      Some(Instruction(pc, 5 + 4 * Int32At(code, pc + 1), SWITCH, 0, -1, [], []))
    else None
  }

  /** The instruction whose octets lie at `pc`; the cursor goes on at its end. */
  function ShapeAt(code: seq<Byte>, pc: nat): (r: Option<Instruction>)
    requires pc < |code|
    ensures r.Some? ==> r.value.offset == pc && r.value.End() <= |code|
  {
    if DecodeAt(code, pc).Some? then DecodeAt(code, pc) else BackwardAt(code, pc)
  }

  /** The loops that read a body: Decode, CilTokens and CilCalls. */
  datatype Reader = Decoder | TokenWalker | CallWalker

  /** MetadataTokens.EntityHandle takes tokens of the metadata tables alone. */
  predicate IsEntity(token: int) { 0 <= token < 0x7000_0000 }

  predicate IsInt32(x: int) { -0x8000_0000 <= x < 0x8000_0000 }

  /** No exception over the operand: only Decode adds up the targets of a switch, and CilCalls makes
      handles of methods alone. */
  predicate Passes(reader: Reader, i: Instruction) {
    match reader
    case Decoder => (i.HasToken() ==> IsEntity(i.token)) &&
                    (i.opcode == SWITCH ==> forall j :: 0 <= j < |i.targets| ==> IsInt32(i.targets[j]))
    case TokenWalker => i.HasToken() ==> IsEntity(i.token)
    case CallWalker => OperandOf(i.opcode) == Some(InlineMethod) ==> IsEntity(i.token)
  }

  predicate AllPass(reader: Reader, instrs: seq<Instruction>) {
    forall k :: 0 <= k < |instrs| ==> Passes(reader, instrs[k])
  }

  /** What one turn of the loop makes of the instruction at `pc`. */
  function TurnAt(reader: Reader, code: seq<Byte>, pc: nat): (r: Option<Instruction>)
    requires pc < |code|
    ensures r.Some? ==> r.value.offset == pc && r.value.End() <= |code|
  {
    if ShapeAt(code, pc).Some? && Passes(reader, ShapeAt(code, pc).value) then ShapeAt(code, pc) else None
  }

  /** The list, an exception, or a loop that never ends after listing these. */
  datatype Reading = Listed(instrs: seq<Instruction>) | Throws | Endless(instrs: seq<Instruction>)

  function Prefixed(instrs: seq<Instruction>, rest: Reading): Reading {
    match rest
    case Listed(more) => Listed(instrs + more)
    case Throws => Throws
    case Endless(more) => Endless(instrs + more)
  }

  /** Every cursor below `n`. */
  function Cursors(n: nat): (s: set<int>)
    ensures forall pc :: pc in s <==> 0 <= pc < n
  {
    if n == 0 then {} else Cursors(n - 1) + {n - 1}
  }

  /** The loop from `pc`; `seen` are the cursors it has already had. */
  function ReadFrom(reader: Reader, code: seq<Byte>, pc: int, seen: set<int>): Reading
    decreases Cursors(|code|) - seen
  {
    if pc >= |code| then Listed([])
    else if pc < 0 then Throws
    else if pc in seen then Endless([])
    else
      var i := TurnAt(reader, code, pc);
      assert pc in Cursors(|code|) - seen;
      if i.None? then Throws else Prefixed([i.value], ReadFrom(reader, code, i.value.End(), seen + {pc}))
  }

  /** The operand switch of the instruction loop: `pc` is past the opcode. */
  method DecodeOperand(input: seq<Byte>, start: nat, opcode: int) returns (result: Option<Instruction>)
    requires start < |input| && OpcodeAt(input, start) == Some(opcode)
    ensures result == TurnAt(Decoder, input, start)
  {
    hide Int32At;
    var at := start + OpcodeSize(opcode);
    if OperandOf(opcode).None? { return None; }
    var kind := OperandOf(opcode).value;
    if kind.InlineSwitch? {
      result := DecodeSwitch(input, start);
      return;
    }
    if IsToken(kind) || kind.InlineBrTarget? {
      if at + 4 > |input| { return None; }
      var operand: int := Int32At(input, at);
      if IsToken(kind) && !IsEntity(operand) { return None; }
      return Some(if IsToken(kind) then Instruction(start, at + 4 - start, opcode, operand, -1, [], [])
                  else Instruction(start, at + 4 - start, opcode, 0, -1, [at + 4 + operand], []));
    }
    result := DecodeShortOperand(input, start, opcode);
  }

  lemma OnlySwitchIsNegative(code: seq<Byte>, pc: nat)
    requires pc < |code| && OpcodeAt(code, pc).Some?
    ensures OperandOf(OpcodeAt(code, pc).value) != Some(InlineSwitch) ==> BackwardAt(code, pc).None?
  {
  }

  /** The cases without a 32-bit operand that matters. */
  method DecodeShortOperand(input: seq<Byte>, start: nat, opcode: int) returns (result: Option<Instruction>)
    requires start < |input| && OpcodeAt(input, start) == Some(opcode) && OperandOf(opcode).Some?
    requires var kind := OperandOf(opcode).value; !kind.InlineSwitch? && !kind.InlineBrTarget? && !IsToken(kind)
    ensures result == TurnAt(Decoder, input, start)
  {
    OnlySwitchIsNegative(input, start);
    hide OperandOf, Int32At, BackwardAt;
    var at := start + OpcodeSize(opcode);
    var pc := at;
    var kind := OperandOf(opcode).value;
    var variable: int := -1;
    var targets: seq<int> := [];
    if kind.InlineNone? {
    } else if kind.ShortInlineI? {
      pc := pc + 1;
    } else if kind.ShortInlineVar? {
      if pc >= |input| { return None; }
      variable := input[pc];
      pc := pc + 1;
    } else if kind.InlineVar? {
      if pc + 2 > |input| { return None; }
      variable := UInt16At(input, pc);
      pc := pc + 2;
    } else if kind.InlineI? || kind.ShortInlineR? {
      pc := pc + 4;
    } else if kind.InlineI8? || kind.InlineR? {
      pc := pc + 8;
    } else {
      if pc >= |input| { return None; }
      targets := [pc + 1 + SByteOf(input[pc])];
      pc := pc + 1;
    }
    if pc > |input| { return None; }
    return Some(Instruction(start, pc - start, opcode, 0, variable, targets,
                            if IsBranch(kind) then [] else input[at..pc]));
  }

  /** The switch case; a negative count is not refused. */
  method DecodeSwitch(input: seq<Byte>, start: nat) returns (result: Option<Instruction>)
    requires start < |input| && input[start] == SWITCH
    ensures result == TurnAt(Decoder, input, start)
  {
    SwitchTurn(input, start);
    if ShapeAt(input, start).Some? { SwitchPasses(input, start); }
    hide Int32At, ShapeAt, Passes;
    var pc := start + 1;
    if pc + 4 > |input| { return None; }
    var count: int := Int32At(input, pc);
    pc := pc + 4;
    if count * 4 < -0x8000_0000 { return None; }
    var targetBase := pc + count * 4;
    var read := SwitchTargets(input, pc, count);
    if read.None? { return None; }
    pc := targetBase;
    if pc > |input| { return None; }
    return Some(Instruction(start, pc - start, SWITCH, 0, -1, read.value, []));
  }

  /** Every case of a switch, by its count. */
  lemma SwitchTurn(code: seq<Byte>, pc: nat)
    requires pc < |code| && code[pc] == SWITCH
    ensures pc + 5 > |code| ==> ShapeAt(code, pc).None?
    ensures pc + 5 <= |code| ==>
              var count: int := Int32At(code, pc + 1);
              ShapeAt(code, pc) ==
              if count * 4 < -0x8000_0000 || pc + 5 + count * 4 > |code| then None
              else Some(Instruction(pc, 5 + count * 4, SWITCH, 0, -1,
                                    if count < 0 then [] else BranchTargets(InlineSwitch, code, pc + 1), []))
  {
    assert OpcodeAt(code, pc) == Some(SWITCH) && OperandOf(SWITCH) == Some(InlineSwitch) && OpcodeSize(SWITCH) == 1;
  }

  lemma SwitchPasses(code: seq<Byte>, pc: nat)
    requires pc < |code| && code[pc] == SWITCH && ShapeAt(code, pc).Some?
    ensures var count: int := Int32At(code, pc + 1);
            Passes(Decoder, ShapeAt(code, pc).value) <==>
            forall j :: 0 <= j < count ==> IsInt32(pc + 5 + 4 * count + Int32At(code, pc + 5 + 4 * j))
  {
    SwitchTurn(code, pc);
    hide Int32At, IsInt32, ShapeAt;
    assert OperandOf(SWITCH) == Some(InlineSwitch);
    var count: int := Int32At(code, pc + 1);
    var i := ShapeAt(code, pc).value;
    if count > 0 {
      assert |i.targets| == count;
      assert forall j :: 0 <= j < count ==> i.targets[j] == pc + 5 + 4 * count + Int32At(code, pc + 5 + 4 * j);
      if Passes(Decoder, i) {
        forall j | 0 <= j < count
          ensures IsInt32(pc + 5 + 4 * count + Int32At(code, pc + 5 + 4 * j))
        {
          assert IsInt32(i.targets[j]);
        }
      }
    }
  }

  /** The targets are relative to the end of the table, in 32 bits; a count of zero or less reads none. */
  method SwitchTargets(input: seq<Byte>, pc: nat, count: int) returns (targets: Option<seq<int>>)
    ensures targets.Some? <==>
              count <= 0 ||
              (pc + count * 4 <= |input| &&
               forall j :: 0 <= j < count ==> IsInt32(pc + 4 * count + Int32At(input, pc + 4 * j)))
    ensures targets.Some? && count <= 0 ==> targets.value == []
    ensures targets.Some? && count > 0 ==>
              targets.value == seq(count, j requires 0 <= j < count => pc + 4 * count + Int32At(input, pc + 4 * j))
  {
    hide Int32At, IsInt32;
    var targetBase := pc + count * 4;
    var read: seq<int> := [];
    var index := 0;
    while index < count
      invariant 0 <= index <= if count > 0 then count else 0
      invariant index > 0 ==> pc + index * 4 <= |input|
      invariant |read| == index
      invariant forall j :: 0 <= j < index ==> read[j] == targetBase + Int32At(input, pc + 4 * j) && IsInt32(read[j])
    {
      if pc + index * 4 + 4 > |input| { return None; }
      var target := targetBase + Int32At(input, pc + index * 4);
      if !IsInt32(target) {
        assert pc + count * 4 <= |input| ==> !IsInt32(pc + 4 * count + Int32At(input, pc + 4 * index));
        return None;
      }
      read := read + [target];
      index := index + 1;
    }
    targets := Some(read);
    forall j | 0 <= j < count
      ensures IsInt32(pc + 4 * count + Int32At(input, pc + 4 * j))
    {
      assert read[j] == targetBase + Int32At(input, pc + 4 * j);
    }
  }

  /** The instruction loop. A cursor it has had before brings it round for ever; the source does
      not look, and never returns. */
  method Decode(input: seq<Byte>) returns (reading: Reading)
    ensures reading == ReadFrom(Decoder, input, 0, {})
  {
    hide TurnAt, OpcodeAt;
    var pc := 0;
    var decoded: seq<Instruction> := [];
    var seen: set<int> := {};
    NothingPrefixed(ReadFrom(Decoder, input, 0, {}));
    while pc < |input|
      invariant pc <= |input|
      invariant ReadFrom(Decoder, input, 0, {}) == Prefixed(decoded, ReadFrom(Decoder, input, pc, seen))
      decreases Cursors(|input|) - seen
    {
      if pc < 0 { return Throws; }
      if pc in seen {
        assert decoded + [] == decoded;
        return Endless(decoded);
      }
      assert pc in Cursors(|input|) - seen;
      var first: int := input[pc];
      if first == 0xfe {
        if pc + 1 >= |input| {
          NoOpcode(input, pc);
          return Throws;
        }
        first := 0xfe00 + (input[pc + 1] as int);
      }
      OpcodeIs(input, pc, first);
      var instruction := DecodeOperand(input, pc, first);
      if instruction.None? { return Throws; }
      PrefixedMore(decoded, instruction.value, ReadFrom(Decoder, input, instruction.value.End(), seen + {pc}));
      decoded := decoded + [instruction.value];
      seen := seen + {pc};
      pc := instruction.value.End();
    }
    assert decoded + [] == decoded;
    return Listed(decoded);
  }

  lemma NothingPrefixed(rest: Reading)
    ensures Prefixed([], rest) == rest
  {
    if !rest.Throws? { assert [] + rest.instrs == rest.instrs; }
  }

  lemma PrefixedMore(decoded: seq<Instruction>, i: Instruction, rest: Reading)
    ensures Prefixed(decoded, Prefixed([i], rest)) == Prefixed(decoded + [i], rest)
  {
    if !rest.Throws? { assert decoded + ([i] + rest.instrs) == decoded + [i] + rest.instrs; }
  }

  lemma OpcodeIs(code: seq<Byte>, pc: nat, opcode: int)
    requires pc < |code|
    requires if code[pc] == 0xfe then pc + 1 < |code| && opcode == 0xfe00 + code[pc + 1] as int else opcode == code[pc]
    ensures OpcodeAt(code, pc) == Some(opcode)
  {
  }

  lemma NoOpcode(code: seq<Byte>, pc: nat)
    requires pc < |code| && code[pc] == 0xfe && pc + 1 >= |code|
    ensures forall reader :: TurnAt(reader, code, pc).None?
  {
  }

  lemma DecodesAppend(code: seq<Byte>, lo: nat, hi: nat, instrs: seq<Instruction>, next: Instruction)
    requires Decodes(code, lo, hi, instrs) && hi < |code| && DecodeAt(code, hi) == Some(next)
    ensures Decodes(code, lo, next.End(), instrs + [next])
    decreases |instrs|
  {
    if instrs == [] {
      assert instrs + [next] == [next];
    } else {
      DecodesAppend(code, instrs[0].End(), hi, instrs[1..], next);
      assert (instrs + [next])[1..] == instrs[1..] + [next];
    }
  }

  /** Decoding is a left-to-right walk: what has been read stays read. */
  lemma DecodePrefix(code: seq<Byte>, lo: nat, hi: nat, instrs: seq<Instruction>)
    requires Decodes(code, lo, hi, instrs) && lo <= |code|
    ensures lo <= hi <= |code|
    ensures DecodeFrom(code, lo) ==
            if DecodeFrom(code, hi).None? then None else Some(instrs + DecodeFrom(code, hi).value)
    decreases |instrs|
  {
    hide DecodeAt;
    if instrs == [] {
      assert DecodeFrom(code, hi).Some? ==> [] + DecodeFrom(code, hi).value == DecodeFrom(code, hi).value;
    } else {
      DecodePrefix(code, instrs[0].End(), hi, instrs[1..]);
      if DecodeFrom(code, hi).Some? {
        assert [instrs[0]] + (instrs[1..] + DecodeFrom(code, hi).value) == instrs + DecodeFrom(code, hi).value;
      }
    }
  }

  /** The list `Decode` returns fills the body. */
  lemma DecodeFills(code: seq<Byte>, pc: nat)
    requires pc <= |code| && DecodeFrom(code, pc).Some?
    ensures Decodes(code, pc, |code|, DecodeFrom(code, pc).value)
    decreases |code| - pc
  {
    if pc < |code| {
      var first := DecodeAt(code, pc).value;
      DecodeFills(code, first.End());
      assert ([first] + DecodeFrom(code, first.End()).value)[1..] == DecodeFrom(code, first.End()).value;
    }
  }
}
