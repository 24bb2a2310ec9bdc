/** decode_cil of the independent MC04 inspector: the reader CompactCil's output is judged by. */
module Inspect {
  import opened Wrappers
  import opened Bytes
  import opened Cil
  import opened Compaction

  datatype Operand = Nothing | Octet(value: Byte) | Word(word: Int32) | Target(target: int)
                   | TargetList(targets: seq<int>) | CompactToken(table: Byte, row: UInt16)

  datatype Line = Line(offset: int, opcode: int, operand: Operand)

  datatype Read = Read(line: Line, next: nat)

  /** Row counts of the inspected tables. */
  type Rows = int -> nat

  /** The opcodes of format/mc04-opcodes.json with the operands they take; the tokens are those of
      methods, fields and types. */
  function SchemaOperand(opcode: int): Option<OperandType> {
    if opcode in {0x0e, 0x11, 0x13} then Some(ShortInlineVar)
    else if opcode == 0x1f then Some(ShortInlineI)
    else if opcode == 0x20 then Some(InlineI)
    else if opcode in {0x28, 0x6f, 0x73} then Some(InlineMethod)
    else if 0x2b <= opcode <= 0x37 then Some(ShortInlineBrTarget)
    else if 0x38 <= opcode <= 0x44 then Some(InlineBrTarget)
    else if opcode == 0x45 then Some(InlineSwitch)
    else if opcode in {0x7b, 0x7d} then Some(InlineField)
    else if opcode == 0x8d then Some(InlineType)
    else if opcode in {0x00, 0x25, 0x26, 0x2a, 0x6d, 0x8e, 0x91, 0x94, 0x9c, 0x9e, 0xd1, 0xd2}
            || 0x02 <= opcode <= 0x0d || 0x14 <= opcode <= 0x1e || 0x58 <= opcode <= 0x69 || 0x82 <= opcode <= 0x84
            || 0x86 <= opcode <= 0x88 || 0xb3 <= opcode <= 0xb8 || 0xd6 <= opcode <= 0xdb || 0xfe01 <= opcode <= 0xfe05
    then Some(InlineNone)
    else None
  }

  /** The writer's profile is the schema the inspector reads by. */
  lemma SchemaIsProfile(opcode: int)
    ensures SchemaOperand(opcode) == if IsAllowed(opcode) then OperandOf(opcode) else None
  {
  }

  /** The token tables the opcode schema lists: MethodDef and MemberRef, Field, or TypeDef and TypeRef. */
  predicate TokenFits(rows: Rows, opcode: int, table: Byte, row: UInt16) {
    && (if opcode in {0x28, 0x6f, 0x73} then table in {6, 10}
        else if opcode in {0x7b, 0x7d} then table == 4
        else table in {1, 2})
    && 0 < row <= rows(table)
  }

  function LineTargets(line: Line): seq<int> {
    match line.operand
    case Target(t) => [t]
    case TargetList(ts) => ts
    case _ => []
  }

  /** One turn of the reader's loop; None is a ValueError, IndexError or struct.error. */
  function LineAt(rows: Rows, code: seq<Byte>, pc: nat): (r: Option<Read>)
    requires pc < |code|
    ensures r.Some? ==> pc < r.value.next <= |code|
  {
    var opcode := OpcodeAt(code, pc);
    if opcode.None? || SchemaOperand(opcode.value).None? then None
    else OperandLine(rows, code, pc, opcode.value, SchemaOperand(opcode.value).value, pc + OpcodeSize(opcode.value))
  }

  function OperandLine(rows: Rows, code: seq<Byte>, pc: nat, opcode: int, kind: OperandType, at: nat): (r: Option<Read>)
    ensures r.Some? && at <= |code| ==> at <= r.value.next <= |code|
  {
    if kind.InlineNone? then Some(Read(Line(pc, opcode, Nothing), at))
    else if kind.ShortInlineI? || kind.ShortInlineVar? then
      if at >= |code| then None else Some(Read(Line(pc, opcode, Octet(code[at])), at + 1))
    else if kind.InlineI? then
      if at + 4 > |code| then None else Some(Read(Line(pc, opcode, Word(Int32At(code, at))), at + 4))
    else if kind.ShortInlineBrTarget? then
      if at >= |code| then None
      else Some(Read(Line(pc, opcode, Target(at + 1 + SByteOf(code[at]))), at + 1))
    else if kind.InlineBrTarget? then
      if at + 4 > |code| then None
      else Some(Read(Line(pc, opcode, Target(at + 4 + Int32At(code, at))), at + 4))
    else if kind.InlineSwitch? then SwitchLine(code, pc, opcode, at)
    else TokenLine(rows, code, pc, opcode, at)
  }

  /** The count is unsigned here, so a negative count exceeds the quota. */
  function SwitchLine(code: seq<Byte>, pc: nat, opcode: int, at: nat): Option<Read> {
    if at + 4 > |code| then None
    else
      var count: int := Int32At(code, at);
      if count < 0 || count > 256 || at + 4 + 4 * count > |code| then None
      else
        var base := at + 4 + 4 * count;
        Some(Read(Line(pc, opcode, TargetList(
                seq(count, j requires 0 <= j < count => base + Int32At(code, at + 4 + 4 * j)))), base))
  }

  function TokenLine(rows: Rows, code: seq<Byte>, pc: nat, opcode: int, at: nat): Option<Read> {
    if at + 3 > |code| then None
    else if !TokenFits(rows, opcode, code[at], UInt16At(code, at + 1)) then None
    else Some(Read(Line(pc, opcode, CompactToken(code[at], UInt16At(code, at + 1))), at + 3))
  }

  function LinesFrom(rows: Rows, code: seq<Byte>, pc: nat): Option<seq<Line>>
    requires pc <= |code|
    decreases |code| - pc
  {
    if pc == |code| then Some([])
    else
      var first := LineAt(rows, code, pc);
      if first.None? then None
      else
        var rest := LinesFrom(rows, code, first.value.next);
        if rest.None? then None else Some([first.value.line] + rest.value)
  }

  predicate TargetsStart(lines: seq<Line>) {
    forall k, j :: 0 <= k < |lines| && 0 <= j < |LineTargets(lines[k])| ==>
      IsStart(lines, LineTargets(lines[k])[j])
  }

  predicate IsStart(lines: seq<Line>, t: int) {
    exists m :: 0 <= m < |lines| && lines[m].offset == t
  }

  /** decode_cil: the listing, unless a branch misses every instruction. */
  function Listing(rows: Rows, code: seq<Byte>): Option<seq<Line>> {
    var lines := LinesFrom(rows, code, 0);
    if lines.Some? && TargetsStart(lines.value) then lines else None
  }

  /** `targets` are exactly the branch targets of `lines`. */
  ghost predicate Collected(lines: seq<Line>, targets: seq<int>) {
    && (forall k, j :: 0 <= k < |lines| && 0 <= j < |LineTargets(lines[k])| ==> LineTargets(lines[k])[j] in targets)
    && (forall t :: t in targets ==> IsTarget(lines, t))
  }

  lemma CollectMore(lines: seq<Line>, targets: seq<int>, line: Line)
    requires Collected(lines, targets)
    ensures Collected(lines + [line], targets + LineTargets(line))
  {
    hide LineTargets;
    forall t | t in targets + LineTargets(line)
      ensures IsTarget(lines + [line], t)
    {
      if t in targets {
        KeepsTarget(lines, line, t);
      } else {
        var j :| 0 <= j < |LineTargets(line)| && LineTargets(line)[j] == t;
        assert (lines + [line])[|lines|] == line;
      }
    }
  }

  method DecodeCil(rows: Rows, code: seq<Byte>) returns (listing: Option<seq<Line>>)
    ensures listing == Listing(rows, code)
  {
    hide LineAt, Collected, LineTargets, TargetsStart;
    var pc := 0;
    var instructions: seq<Line> := [];
    var targets: seq<int> := [];
    CollectNothing();
    if LinesFrom(rows, code, 0).Some? {
      assert instructions + LinesFrom(rows, code, 0).value == LinesFrom(rows, code, 0).value;
    }
    while pc < |code|
      invariant pc <= |code|
      invariant LinesFrom(rows, code, 0) ==
                if LinesFrom(rows, code, pc).None? then None
                else Some(instructions + LinesFrom(rows, code, pc).value)
      invariant Collected(instructions, targets)
    {
      var read := LineAt(rows, code, pc);
      if read.None? { return None; }
      var line := read.value.line;
      CollectMore(instructions, targets, line);
      ghost var before := instructions;
      instructions := instructions + [line];
      targets := targets + LineTargets(line);
      pc := read.value.next;
      if LinesFrom(rows, code, pc).Some? {
        assert before + ([line] + LinesFrom(rows, code, pc).value) == instructions + LinesFrom(rows, code, pc).value;
      }
    }
    assert instructions + [] == instructions;
    var starts := CheckTargets(instructions, targets);
    return if starts then Some(instructions) else None;
  }

  lemma CollectNothing()
    ensures Collected([], [])
  {
  }

  method CheckTargets(instructions: seq<Line>, targets: seq<int>) returns (ok: bool)
    requires Collected(instructions, targets)
    ensures ok <==> TargetsStart(instructions)
  {
    hide LineTargets;
    var n := 0;
    while n < |targets|
      invariant 0 <= n <= |targets|
      invariant forall m :: 0 <= m < n ==> IsStart(instructions, targets[m])
    {
      if !IsStart(instructions, targets[n]) {
        assert targets[n] in targets;
        return false;
      }
      n := n + 1;
    }
    forall k, j | 0 <= k < |instructions| && 0 <= j < |LineTargets(instructions[k])|
      ensures IsStart(instructions, LineTargets(instructions[k])[j])
    {
      assert LineTargets(instructions[k])[j] in targets;
    }
    return true;
  }

  ghost predicate IsTarget(lines: seq<Line>, t: int) {
    exists k, j :: 0 <= k < |lines| && 0 <= j < |LineTargets(lines[k])| && LineTargets(lines[k])[j] == t
  }

  lemma KeepsTarget(lines: seq<Line>, line: Line, t: int)
    requires IsTarget(lines, t)
    ensures IsTarget(lines + [line], t)
  {
    var k, j :| 0 <= k < |lines| && 0 <= j < |LineTargets(lines[k])| && LineTargets(lines[k])[j] == t;
    assert (lines + [line])[k] == lines[k];
  }
}
