/** The octets of an instruction, written without reading any, and the decoder as their inverse. */
module CilEncoding {
  import opened Wrappers
  import opened Bytes
  import opened Cil

  // ---- What the encodings mean ----

  /** The number of four octets, least significant first. */
  function Number(s: seq<Byte>): int
    requires |s| == 4
  {
    var b0: int, b1: int, b2: int, b3: int := s[0], s[1], s[2], s[3];
    b0 + 256 * b1 + 65536 * b2 + 16777216 * b3
  }

  /** The 32-bit words are the numbers up to 2^32, least significant octet first. */
  lemma LittleEndianWord(x: Int32, s: seq<Byte>)
    requires |s| == 4
    ensures s == Le32(x) <==> Number(s) == if x < 0 then x + 0x1_0000_0000 else x
    ensures Int32At(s, 0) == x <==> s == Le32(x)
  {
    var u: int := if x < 0 then x + 0x1_0000_0000 else x;
    assert u == x % 0x1_0000_0000;
    SplitWord(u);
    WordDigits(s, u);
    Int32Writes(s[0], s[1], s[2], s[3]);
    Le32Reads(x);
    assert s == [s[0], s[1], s[2], s[3]];
  }

  lemma WordDigits(s: seq<Byte>, u: int)
    requires |s| == 4 && 0 <= u < 0x1_0000_0000
    ensures Number(s) == u <==>
            s[0] == u % 256 && s[1] == u / 256 % 256 && s[2] == u / 65536 % 256 && s[3] == u / 16777216
  {
    SplitWord(u);
    if Number(s) == u {
      var b1: int, b2: int, b3: int := s[1], s[2], s[3];
      var h: int := b1 + 256 * b2 + 65536 * b3;
      var g: int := b2 + 256 * b3;
      JoinWord(s[0], h);
      JoinWord(s[1], g);
      JoinWord(s[2], b3);
      assert u / 65536 == u / 256 / 256 && u / 16777216 == u / 65536 / 256;
    }
  }

  /** The local or argument number an operand writes, least significant octet first. */
  function VariableIn(opcode: int, immediate: seq<Byte>): int {
    if OperandOf(opcode) == Some(ShortInlineVar) && |immediate| == 1 then immediate[0]
    else if OperandOf(opcode) == Some(InlineVar) && |immediate| == 2 then
      var low: int, high: int := immediate[0], immediate[1];
      low + 256 * high
    else -1
  }

  /** The distances of a switch from its end, four octets each. */
  function DistanceWords(targets: seq<int>, end: int): (s: seq<Byte>)
    ensures |s| == 4 * |targets|
  {
    if targets == [] then [] else Le32(targets[0] - end) + DistanceWords(targets[1..], end)
  }

  function OperandOctets(i: Instruction): seq<Byte>
    requires Encodable(i)
  {
    var kind := OperandOf(i.opcode).value;
    if IsToken(kind) then Le32(i.token)
    else if kind.ShortInlineBrTarget? then [ByteOf(i.targets[0] - i.End())]
    else if kind.InlineBrTarget? then Le32(i.targets[0] - i.End())
    else if kind.InlineSwitch? then Le32(|i.targets|) + DistanceWords(i.targets, i.End())
    else i.immediate
  }

  /** Opcode octets, then the operand. */
  function Encoding(i: Instruction): seq<Byte>
    requires Encodable(i)
  {
    OpcodeBytes(i.opcode) + OperandOctets(i)
  }

  predicate IsDistance(x: int) { -0x8000_0000 <= x < 0x8000_0000 }

  /** The parts of an instruction fit its opcode and its operand. */
  predicate Encodable(i: Instruction) {
    && (0 <= i.opcode < 0xfe || 0xfe00 <= i.opcode < 0xff00 || i.opcode == 0xff)
    && OperandOf(i.opcode).Some?
    && var kind := OperandOf(i.opcode).value;
       && (if IsToken(kind) then -0x8000_0000 <= i.token < 0x8000_0000 else i.token == 0)
       && (if IsBranch(kind) then |i.targets| < 0x8000_0000 && (kind.InlineSwitch? || |i.targets| == 1)
           else i.targets == [])
       && (forall j :: 0 <= j < |i.targets| ==> IsDistance(i.targets[j] - i.End()))
       && (kind.ShortInlineBrTarget? ==> -128 <= i.targets[0] - i.End() < 128)
       && i.variable == VariableIn(i.opcode, i.immediate)
       && (if IsToken(kind) || IsBranch(kind) then i.immediate == [] else |i.immediate| == OperandSize(kind))
       && i.size == OpcodeSize(i.opcode) + (if kind.InlineSwitch? then 4 + 4 * |i.targets| else OperandSize(kind))
  }

  // ---- Switch tables ----

  lemma {:induction false} DistanceAt(targets: seq<int>, end: int, j: nat)
    requires j < |targets|
    ensures DistanceWords(targets, end)[4 * j..4 * j + 4] == Le32(targets[j] - end)
    decreases j
  {
    hide Le32;
    var s, first, rest := DistanceWords(targets, end), Le32(targets[0] - end), DistanceWords(targets[1..], end);
    if j == 0 {
      assert s[0..4] == first;
    } else {
      DistanceAt(targets[1..], end, j - 1);
      assert s[4 * j..4 * j + 4] == rest[4 * (j - 1)..4 * (j - 1) + 4];
    }
  }

  /** Words that are each a distance are the distances. */
  lemma {:induction false} DistancesAre(targets: seq<int>, end: int, s: seq<Byte>)
    requires |s| == 4 * |targets|
    requires forall j :: 0 <= j < |targets| ==> s[4 * j..4 * j + 4] == Le32(targets[j] - end)
    ensures s == DistanceWords(targets, end)
    decreases |targets|
  {
    hide Le32;
    if targets != [] {
      var rest, more := s[4..], targets[1..];
      forall j | 0 <= j < |more|
        ensures rest[4 * j..4 * j + 4] == Le32(more[j] - end)
      {
        assert rest[4 * j..4 * j + 4] == s[4 * (j + 1)..4 * (j + 1) + 4];
      }
      DistancesAre(more, end, rest);
      assert s[4 * 0..4 * 0 + 4] == s[..4];
      assert s == s[..4] + rest;
    }
  }

  lemma WordAt(code: seq<Byte>, at: nat, x: int)
    requires at + 4 <= |code| && IsDistance(x)
    ensures Int32At(code, at) == x <==> code[at..at + 4] == Le32(x)
  {
    hide Le32;
    var s := code[at..at + 4];
    assert s[0] == code[at] && s[1] == code[at + 1] && s[2] == code[at + 2] && s[3] == code[at + 3];
    LittleEndianWord(x, s);
  }

  // ---- Opcodes ----

  lemma OpcodeOctets(code: seq<Byte>, pc: nat, opcode: int)
    requires pc < |code| && (0 <= opcode < 0xfe || 0xfe00 <= opcode < 0xff00 || opcode == 0xff)
    ensures OpcodeAt(code, pc) == Some(opcode) <==>
            pc + OpcodeSize(opcode) <= |code| && code[pc..pc + OpcodeSize(opcode)] == OpcodeBytes(opcode)
  {
    if pc + OpcodeSize(opcode) <= |code| {
      var s := code[pc..pc + OpcodeSize(opcode)];
      assert s[0] == code[pc];
      if OpcodeSize(opcode) == 2 { assert s[1] == code[pc + 1]; }
    }
  }

  // ---- Operands ----

  /** The decoder's reading of an operand at `at`. */
  ghost predicate Reads(code: seq<Byte>, at: nat, i: Instruction)
    requires OperandOf(i.opcode).Some?
  {
    var kind := OperandOf(i.opcode).value;
    && OperandLength(kind, code, at).Some? && i.End() == at + OperandLength(kind, code, at).value
    && i.token == (if IsToken(kind) then Int32At(code, at) else 0)
    && i.variable == VariableAt(kind, code, at) && i.targets == BranchTargets(kind, code, at)
    && i.immediate == (if IsToken(kind) || IsBranch(kind) then [] else code[at..i.End()])
  }

  /** The octets at `at` are the operand's. */
  ghost predicate Writes(code: seq<Byte>, at: nat, i: Instruction) {
    Encodable(i) && at <= i.End() <= |code| && code[at..i.End()] == OperandOctets(i)
  }

  lemma TokenOperand(code: seq<Byte>, at: nat, i: Instruction)
    requires OperandOf(i.opcode).Some? && IsToken(OperandOf(i.opcode).value) && Shaped(at, i)
    ensures Reads(code, at, i) <==> Writes(code, at, i)
  {
    hide OperandOf, Le32, Int32At;
    if at + 4 <= |code| && IsDistance(i.token) { WordAt(code, at, i.token); }
  }

  /** The instruction's opcode ends at `at`, where it ends if it has no operand. */
  predicate Shaped(at: nat, i: Instruction) {
    && at == i.offset + OpcodeSize(i.opcode)
    && (0 <= i.opcode < 0xfe || 0xfe00 <= i.opcode < 0xff00 || i.opcode == 0xff)
  }

  lemma LongOperand(code: seq<Byte>, at: nat, i: Instruction)
    requires OperandOf(i.opcode) == Some(InlineBrTarget) && Shaped(at, i)
    ensures Reads(code, at, i) <==> Writes(code, at, i)
  {
    hide OperandOf, Le32, Int32At;
    if at + 4 <= |code| && i.End() == at + 4 && |i.targets| == 1 && IsDistance(i.targets[0] - i.End()) {
      WordAt(code, at, i.targets[0] - i.End());
      assert i.targets == [i.targets[0]];
    }
  }

  lemma ShortOperand(code: seq<Byte>, at: nat, i: Instruction)
    requires OperandOf(i.opcode) == Some(ShortInlineBrTarget) && Shaped(at, i)
    ensures Reads(code, at, i) <==> Writes(code, at, i)
  {
    hide OperandOf;
    if at + 1 <= |code| && i.End() == at + 1 && |i.targets| == 1 {
      assert i.targets == [i.targets[0]];
      assert code[at..at + 1] == [code[at]];
    }
  }

  lemma PlainOperand(code: seq<Byte>, at: nat, i: Instruction)
    requires OperandOf(i.opcode).Some? && Shaped(at, i)
    requires !IsToken(OperandOf(i.opcode).value) && !IsBranch(OperandOf(i.opcode).value)
    ensures Reads(code, at, i) <==> Writes(code, at, i)
  {
    hide OperandOf;
    var kind := OperandOf(i.opcode).value;
    var n := OperandSize(kind);
    if at + n <= |code| {
      var s := code[at..at + n];
      if n > 0 { assert s[0] == code[at]; }
      if n == 2 { assert s[1] == code[at + 1]; }
    }
  }

  lemma SwitchOperand(code: seq<Byte>, at: nat, i: Instruction)
    requires OperandOf(i.opcode) == Some(InlineSwitch) && Shaped(at, i)
    ensures Reads(code, at, i) <==> Writes(code, at, i)
  {
    hide OperandOf, Le32, Int32At, DistanceWords;
    if Reads(code, at, i) { SwitchWrites(code, at, i); }
    if Writes(code, at, i) { SwitchReads(code, at, i); }
  }

  lemma SwitchWrites(code: seq<Byte>, at: nat, i: Instruction)
    requires OperandOf(i.opcode) == Some(InlineSwitch) && Shaped(at, i) && Reads(code, at, i)
    ensures Writes(code, at, i)
  {
    hide OperandOf, Le32, Int32At, DistanceWords;
    var n, end := |i.targets|, i.End();
    WordAt(code, at, n);
    var table := code[at + 4..end];
    forall j | 0 <= j < n
      ensures table[4 * j..4 * j + 4] == Le32(i.targets[j] - end) && IsDistance(i.targets[j] - end)
    {
      assert i.targets[j] - end == Int32At(code, at + 4 + 4 * j);
      WordAt(code, at + 4 + 4 * j, i.targets[j] - end);
      Subslice(code, at + 4, end, 4 * j, 4 * j + 4);
    }
    DistancesAre(i.targets, end, table);
    assert code[at..end] == code[at..at + 4] + table;
  }

  lemma SwitchReads(code: seq<Byte>, at: nat, i: Instruction)
    requires OperandOf(i.opcode) == Some(InlineSwitch) && Shaped(at, i) && Writes(code, at, i)
    ensures Reads(code, at, i)
  {
    hide OperandOf, Le32, Int32At, DistanceWords;
    var n, end := |i.targets|, i.End();
    var s := code[at..end];
    Subslice(code, at, end, 0, 4);
    Subslice(code, at, end, 4, |s|);
    WordAt(code, at, n);
    assert Int32At(code, at) == n;
    forall j | 0 <= j < n
      ensures i.targets[j] == end + Int32At(code, at + 4 + 4 * j)
    {
      DistanceAt(i.targets, end, j);
      Subslice(code, at + 4, end, 4 * j, 4 * j + 4);
      assert s[4..] == code[at + 4..end];
      WordAt(code, at + 4 + 4 * j, i.targets[j] - end);
    }
    assert i.targets == BranchTargets(InlineSwitch, code, at);
  }

  lemma OperandIff(code: seq<Byte>, at: nat, i: Instruction)
    requires OperandOf(i.opcode).Some? && Shaped(at, i)
    ensures Reads(code, at, i) <==> Writes(code, at, i)
  {
    hide OperandOf, Reads, Writes;
    var kind := OperandOf(i.opcode).value;
    if IsToken(kind) { TokenOperand(code, at, i); }
    else if kind.InlineBrTarget? { LongOperand(code, at, i); }
    else if kind.ShortInlineBrTarget? { ShortOperand(code, at, i); }
    else if kind.InlineSwitch? { SwitchOperand(code, at, i); }
    else { PlainOperand(code, at, i); }
  }

  // ---- Main results ----

  /** An encoding is its opcode and its operand. */
  lemma EncodingParts(code: seq<Byte>, i: Instruction)
    requires Encodable(i) && i.End() <= |code|
    ensures var at := i.offset + OpcodeSize(i.opcode);
            && at <= i.End() && |Encoding(i)| == i.size
            && (code[i.offset..i.End()] == Encoding(i) <==>
                  code[i.offset..at] == OpcodeBytes(i.opcode) && code[at..i.End()] == OperandOctets(i))
  {
    EncodingLength(i);
    hide Encodable, OperandOctets, OpcodeBytes;
    var n, at := OpcodeSize(i.opcode), i.offset + OpcodeSize(i.opcode);
    var s := code[i.offset..i.End()];
    assert s == code[i.offset..at] + code[at..i.End()];
    assert s[..n] == code[i.offset..at] && s[n..] == code[at..i.End()];
  }

  /** The decoder reads an instruction exactly where its encoding stands. */
  lemma DecodeIffEncoding(code: seq<Byte>, pc: nat, i: Instruction)
    requires pc < |code|
    ensures DecodeAt(code, pc) == Some(i) <==>
            i.offset == pc && Encodable(i) && pc <= i.End() <= |code| && code[pc..i.End()] == Encoding(i)
  {
    hide DecodeAt, Reads, OperandOctets, OpcodeAt, OpcodeBytes, Encoding, Encodable;
    DecodeReads(code, pc, i);
    if DecodeAt(code, pc) == Some(i) {
      OpcodeForm(code, pc);
      OpcodeOctets(code, pc, i.opcode);
      OperandIff(code, pc + OpcodeSize(i.opcode), i);
      EncodingParts(code, i);
    }
    if i.offset == pc && Encodable(i) && pc <= i.End() <= |code| && code[pc..i.End()] == Encoding(i) {
      EncodingParts(code, i);
      EncodableForm(i);
      OpcodeOctets(code, pc, i.opcode);
      OperandIff(code, pc + OpcodeSize(i.opcode), i);
    }
  }

  lemma EncodableForm(i: Instruction)
    requires Encodable(i)
    ensures OperandOf(i.opcode).Some?
    ensures 0 <= i.opcode < 0xfe || 0xfe00 <= i.opcode < 0xff00 || i.opcode == 0xff
  {
  }

  lemma OpcodeForm(code: seq<Byte>, pc: nat)
    requires pc < |code| && OpcodeAt(code, pc).Some?
    ensures var opcode := OpcodeAt(code, pc).value;
            0 <= opcode < 0xfe || 0xfe00 <= opcode < 0xff00 || opcode == 0xff
  {
  }

  lemma EncodingLength(i: Instruction)
    requires Encodable(i)
    ensures |Encoding(i)| == i.size
  {
    hide OperandOf;
  }

  lemma DecodeReads(code: seq<Byte>, pc: nat, i: Instruction)
    requires pc < |code|
    ensures DecodeAt(code, pc) == Some(i) <==>
            i.offset == pc && OpcodeAt(code, pc) == Some(i.opcode) && OperandOf(i.opcode).Some? &&
            Reads(code, pc + OpcodeSize(i.opcode), i)
  {
    hide OperandOf, OpcodeAt, OperandLength, BranchTargets, VariableAt, Int32At;
  }

  /** The opcodes .NET defines. */
  lemma KnownOpcodes(opcode: int)
    ensures OperandOf(opcode).Some? <==>
            || 0x00 <= opcode <= 0x23 || 0x25 <= opcode <= 0x76 || 0x79 <= opcode <= 0xa5 || 0xb3 <= opcode <= 0xba
            || opcode in {0xc2, 0xc3, 0xc6} || 0xd0 <= opcode <= 0xe0 || 0xf8 <= opcode <= 0xff
            || 0xfe00 <= opcode <= 0xfe07 || 0xfe09 <= opcode <= 0xfe0f || 0xfe11 <= opcode <= 0xfe18
            || opcode == 0xfe1a || 0xfe1c <= opcode <= 0xfe1e
  {
  }

  /** Operand octets by opcode, as the instruction descriptions of ECMA-335 Partition III give them;
      every other opcode .NET defines has none, but for switch. */
  lemma OperandLengths(opcode: int)
    requires OperandOf(opcode).Some? && opcode != SWITCH
    ensures OperandSize(OperandOf(opcode).value) ==
            if 0x0e <= opcode <= 0x13 || opcode in {0x1f, 0xde, 0xfe12} || 0x2b <= opcode <= 0x37 then 1
            else if 0xfe09 <= opcode <= 0xfe0e then 2
            else if opcode in {0x21, 0x23} then 8
            else if opcode in {0x20, 0x22, 0x27, 0x28, 0x29, 0xdd, 0x6f} || 0x38 <= opcode <= 0x44
                 || 0x70 <= opcode <= 0x75 || opcode == 0x79 || 0x7b <= opcode <= 0x81
                 || opcode in {0x8c, 0x8d, 0x8f, 0xa3, 0xa4, 0xa5, 0xc2, 0xc6, 0xd0}
                 || opcode in {0xfe06, 0xfe07, 0xfe15, 0xfe16, 0xfe1c} then 4
            else 0
  {
  }

  /** What an operand is: a branch distance from 2b to 44 and in leave, a table in switch, a variable in
      the argument and local instructions, and a token in calls, fields, types, strings and signatures. */
  lemma OperandKinds(opcode: int)
    requires OperandOf(opcode).Some?
    ensures var kind := OperandOf(opcode).value;
            && (IsBranch(kind) <==> 0x2b <= opcode <= 0x45 || opcode in {0xdd, 0xde})
            && (kind.InlineSwitch? <==> opcode == 0x45)
            && (kind.ShortInlineVar? || kind.InlineVar? <==> 0x0e <= opcode <= 0x13 || 0xfe09 <= opcode <= 0xfe0e)
            && (IsToken(kind) <==>
                  || opcode in {0x27, 0x28, 0x29, 0x6f, 0x79, 0x8c, 0x8d, 0x8f, 0xa3, 0xa4, 0xa5, 0xc2, 0xc6, 0xd0}
                  || 0x70 <= opcode <= 0x75 || 0x7b <= opcode <= 0x81
                  || opcode in {0xfe06, 0xfe07, 0xfe15, 0xfe16, 0xfe1c})
            && (kind.InlineMethod? <==> opcode in {0x27, 0x28, 0x6f, 0x73, 0xfe06, 0xfe07})
            && (kind.InlineField? <==> 0x7b <= opcode <= 0x80)
            && (kind.InlineString? <==> opcode == 0x72) && (kind.InlineSig? <==> opcode == 0x29)
            && (kind.InlineTok? <==> opcode == 0xd0)
  {
  }

  // ---- Bodies ----

  /** Instructions that follow one another from `lo` to `hi`. */
  predicate Abutting(instrs: seq<Instruction>, lo: int, hi: int) {
    if instrs == [] then lo == hi
    else instrs[0].offset == lo && Encodable(instrs[0]) && Abutting(instrs[1..], instrs[0].End(), hi)
  }

  function EncodedAll(instrs: seq<Instruction>): seq<Byte> {
    if instrs == [] || !Encodable(instrs[0]) then [] else Encoding(instrs[0]) + EncodedAll(instrs[1..])
  }

  lemma {:induction false} AbuttingFacts(instrs: seq<Instruction>, lo: int, hi: int)
    requires Abutting(instrs, lo, hi)
    ensures forall k :: 0 <= k < |instrs| ==> Encodable(instrs[k])
    ensures |EncodedAll(instrs)| == hi - lo
    decreases |instrs|
  {
    hide Encodable, Encoding;
    if instrs != [] {
      var rest := instrs[1..];
      AbuttingFacts(rest, instrs[0].End(), hi);
      EncodingLength(instrs[0]);
      forall k | 0 <= k < |instrs|
        ensures Encodable(instrs[k])
      {
        if k > 0 { assert instrs[k] == rest[k - 1]; }
      }
    }
  }

  /** A list decodes from a stretch of octets exactly when it abuts there and encodes to them. */
  lemma {:induction false} DecodesIffEncoded(code: seq<Byte>, lo: nat, hi: nat, instrs: seq<Instruction>)
    requires hi <= |code|
    ensures Decodes(code, lo, hi, instrs)
            <==> lo <= hi && Abutting(instrs, lo, hi) && code[lo..hi] == EncodedAll(instrs)
    decreases |instrs|
  {
    hide DecodeAt, Encodable, Encoding;
    if instrs == [] {
      assert lo == hi ==> code[lo..hi] == [];
    } else if lo < |code| {
      var first, rest := instrs[0], instrs[1..];
      DecodeIffEncoding(code, lo, first);
      if Decodes(code, lo, hi, instrs) {
        DecodesIffEncoded(code, first.End(), hi, rest);
        assert code[lo..hi] == code[lo..first.End()] + code[first.End()..hi];
        AbuttingFacts(instrs, lo, hi);
      }
      if lo <= hi && Abutting(instrs, lo, hi) && code[lo..hi] == EncodedAll(instrs) {
        AbuttingFacts(rest, first.End(), hi);
        AbuttingFacts(instrs, lo, hi);
        EncodingLength(first);
        FirstPart(code, lo, first.End(), hi, Encoding(first), EncodedAll(rest));
        DecodesIffEncoded(code, first.End(), hi, rest);
      }
    } else if lo <= hi && Abutting(instrs, lo, hi) {
      AbuttingFacts(instrs, lo, hi);
      AbuttingFacts(instrs[1..], instrs[0].End(), hi);
      EncodingLength(instrs[0]);
      SomeOctets(instrs[0]);
    }
  }

  lemma SomeOctets(i: Instruction)
    requires Encodable(i)
    ensures |Encoding(i)| > 0
  {
  }

  lemma FirstPart(code: seq<Byte>, lo: nat, mid: nat, hi: nat, a: seq<Byte>, b: seq<Byte>)
    requires lo <= hi <= |code| && code[lo..hi] == a + b && mid == lo + |a|
    ensures mid <= hi && code[lo..mid] == a && code[mid..hi] == b
  {
    var s := code[lo..hi];
    assert s[..|a|] == a && s[|a|..] == b;
  }
}
