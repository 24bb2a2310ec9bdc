/** The imperative assembler: one pass that appends to the output stream while filling the
    offset dictionary and the patch list, then a pass that patches the byte array in place. */
module CompactCil {
  import opened Wrappers
  import opened Bytes
  import opened Cil
  import opened Compaction

  datatype Written = Written(bytes: seq<Byte>, patches: seq<Patch>, next: nat)

  /** What one turn of the loop appends for the instruction at `start`, given the stream position. */
  method CompactInstruction(resolve: Resolver, input: seq<Byte>, start: nat, position: nat)
    returns (result: Option<Written>)
    requires start < |input|
    ensures result.Some? <==> DecodeAt(input, start).Some? && Accepted(resolve, DecodeAt(input, start).value)
    ensures result.Some? ==>
              var i := DecodeAt(input, start).value;
              result.value == Written(Blank(resolve, i), PatchesOf(resolve, i, position), i.End())
  {
    var pc := start;
    var opcode: int := input[pc];
    pc := pc + 1;
    if opcode == 0xfe {
      if pc >= |input| { return None; }
      opcode := 0xfe00 + (input[pc] as int);
      pc := pc + 1;
    }
    if OperandOf(opcode).None? { return None; }
    if !IsAllowed(opcode) { return None; }
    var kind := OperandOf(opcode).value;
    if IsToken(kind) {
      result := CompactToken(resolve, input, start, opcode);
    } else if IsBranch(kind) {
      result := CompactBranch(resolve, input, start, opcode, position);
    } else {
      result := CompactPlain(resolve, input, start, opcode, position);
    }
  }

  lemma AllowedKinds(opcode: int)
    requires IsAllowed(opcode)
    ensures OperandOf(opcode).Some? && OpcodeSize(opcode) <= 2
    ensures OperandOf(opcode).value in {InlineNone, ShortInlineI, ShortInlineVar, InlineI, ShortInlineBrTarget,
                                        InlineBrTarget, InlineSwitch, InlineMethod, InlineField, InlineType}
    ensures 0 <= opcode < 0xfe || 0xfe00 <= opcode < 0xff00
  {
  }

  /** An allowed instruction without token or branch is copied octet for octet. */
  lemma PlainCopies(resolve: Resolver, input: seq<Byte>, start: nat, opcode: int, position: nat)
    requires start < |input| && OpcodeAt(input, start) == Some(opcode) && IsAllowed(opcode)
    requires OperandOf(opcode).Some? && !IsToken(OperandOf(opcode).value) && !IsBranch(OperandOf(opcode).value)
    ensures var at := start + OpcodeSize(opcode);
            var end := at + OperandSize(OperandOf(opcode).value);
            && at <= |input|
            && (end > |input| ==> DecodeAt(input, start).None?)
            && (end <= |input| ==>
                  && DecodeAt(input, start).Some? && Accepted(resolve, DecodeAt(input, start).value)
                  && var i := DecodeAt(input, start).value;
                     && Blank(resolve, i) == OpcodeBytes(opcode) + input[at..end]
                     && PatchesOf(resolve, i, position) == [] && i.End() == end)
  {
    hide OperandOf, IsAllowed;
    AllowedKinds(opcode);
    CallTakesToken();
  }

  method CompactPlain(resolve: Resolver, input: seq<Byte>, start: nat, opcode: int, position: nat)
    returns (result: Option<Written>)
    requires start < |input| && OpcodeAt(input, start) == Some(opcode) && IsAllowed(opcode)
    requires OperandOf(opcode).Some? && !IsToken(OperandOf(opcode).value) && !IsBranch(OperandOf(opcode).value)
    ensures result.Some? <==> DecodeAt(input, start).Some? && Accepted(resolve, DecodeAt(input, start).value)
    ensures result.Some? ==>
              var i := DecodeAt(input, start).value;
              result.value == Written(Blank(resolve, i), PatchesOf(resolve, i, position), i.End())
  {
    hide DecodeAt, Accepted, Blank, PatchesOf, OperandOf, IsAllowed, OpcodeBytes, OpcodeSize;
    AllowedKinds(opcode);
    PlainCopies(resolve, input, start, opcode, position);
    var at := start + OpcodeSize(opcode);
    if OperandOf(opcode).value.InlineNone? {
      result := Some(Written(OpcodeBytes(opcode), [], at));
      assert OpcodeBytes(opcode) + input[at..at] == OpcodeBytes(opcode);
    } else if OperandOf(opcode).value.InlineI? {
      if at + 4 > |input| { return None; }
      Int32Writes(input[at], input[at + 1], input[at + 2], input[at + 3]);
      result := Some(Written(OpcodeBytes(opcode) + Le32(Int32At(input, at)), [], at + 4));
      assert Le32(Int32At(input, at)) == input[at..at + 4];
    } else {
      if at >= |input| { return None; }
      result := Some(Written(OpcodeBytes(opcode) + [input[at]], [], at + 1));
      assert [input[at]] == input[at..at + 1];
    }
  }

  /** What becomes of an allowed instruction with a token. */
  lemma TokenResolves(resolve: Resolver, input: seq<Byte>, start: nat, opcode: int)
    requires start < |input| && OpcodeAt(input, start) == Some(opcode) && IsAllowed(opcode)
    requires OperandOf(opcode).Some? && IsToken(OperandOf(opcode).value)
    ensures var at := start + OpcodeSize(opcode);
            && (at + 4 > |input| ==> DecodeAt(input, start).None?)
            && (at + 4 <= |input| ==>
                  && DecodeAt(input, start).Some?
                  && var i, token := DecodeAt(input, start).value, Int32At(input, at);
                     && i.token == token && i.opcode == opcode && i.End() == at + 4 && i.HasToken()
                     && (Accepted(resolve, i) <==>
                           IsEntity(token) && (IsEmptyArrayCall(resolve, i) || resolve(token).Row?))
                     && forall position :: Accepted(resolve, i) ==> PatchesOf(resolve, i, position) == [])
  {
    hide OperandOf, IsAllowed, Int32At;
  }

  method CompactToken(resolve: Resolver, input: seq<Byte>, start: nat, opcode: int) returns (result: Option<Written>)
    requires start < |input| && OpcodeAt(input, start) == Some(opcode) && IsAllowed(opcode)
    requires OperandOf(opcode).Some? && IsToken(OperandOf(opcode).value)
    ensures result.Some? <==> DecodeAt(input, start).Some? && Accepted(resolve, DecodeAt(input, start).value)
    ensures result.Some? ==>
              var i := DecodeAt(input, start).value;
              forall position :: result.value == Written(Blank(resolve, i), PatchesOf(resolve, i, position), i.End())
  {
    TokenResolves(resolve, input, start, opcode);
    hide DecodeAt, Accepted, PatchesOf, OperandOf, IsAllowed, OpcodeBytes, OpcodeSize, Int32At, IsEntity;
    var at := start + OpcodeSize(opcode);
    if at + 4 > |input| { return None; }
    var token := Int32At(input, at);
    if !IsEntity(token) { return None; }
    if opcode == CALL && resolve(token).EmptyArrayOf? {
      var row := resolve(token).elementRow;
      return Some(Written([LDC_I4_0, NEWARR, TYPE_REF] + Le16(row), [], at + 4));
    }
    match resolve(token) {
      case Row(table, row) => result := Some(Written(OpcodeBytes(opcode) + ([table] + Le16(row)), [], at + 4));
      case _ => result := None;
    }
  }

  method CompactBranch(resolve: Resolver, input: seq<Byte>, start: nat, opcode: int, position: nat)
    returns (result: Option<Written>)
    requires start < |input| && OpcodeAt(input, start) == Some(opcode) && IsAllowed(opcode)
    requires OperandOf(opcode).Some? && IsBranch(OperandOf(opcode).value)
    ensures result.Some? <==> DecodeAt(input, start).Some? && Accepted(resolve, DecodeAt(input, start).value)
    ensures result.Some? ==>
              var i := DecodeAt(input, start).value;
              result.value == Written(Blank(resolve, i), PatchesOf(resolve, i, position), i.End())
  {
    hide OperandOf, IsAllowed;
    AllowedKinds(opcode);
    CallTakesToken();
    var pc := start + OpcodeSize(opcode);
    var hole := position + OpcodeSize(opcode);
    if OperandOf(opcode).value.ShortInlineBrTarget? {
      if pc >= |input| { return None; }
      var target := pc + 1 + SByteOf(input[pc]);
      result := Some(Written(OpcodeBytes(opcode) + [0], [Patch(hole, target, hole + 1, 1)], pc + 1));
    } else if OperandOf(opcode).value.InlineBrTarget? {
      if pc + 4 > |input| { return None; }
      var target := pc + 4 + Int32At(input, pc);
      result := Some(Written(OpcodeBytes(opcode) + [0, 0, 0, 0], [Patch(hole, target, hole + 4, 4)], pc + 4));
    } else {
      result := CompactSwitch(resolve, input, start, opcode, position);
    }
  }

  method SwitchHoles(targets: seq<int>, firstPatch: nat, newBase: int) returns (patches: seq<Patch>)
    ensures patches == SwitchPatches(targets, firstPatch, newBase)
  {
    patches := [];
    for j := 0 to |targets|
      invariant |patches| == j
      invariant forall m :: 0 <= m < j ==> patches[m] == Patch(firstPatch + 4 * m, targets[m], newBase, 4)
    {
      patches := patches + [Patch(firstPatch + 4 * j, targets[j], newBase, 4)];
    }
  }

  lemma SwitchDecodes(resolve: Resolver, input: seq<Byte>, start: nat, opcode: int)
    requires start < |input| && OpcodeAt(input, start) == Some(opcode) && IsAllowed(opcode)
    requires OperandOf(opcode).Some? && OperandOf(opcode).value.InlineSwitch?
    ensures var pc := start + OpcodeSize(opcode);
            if pc + 4 > |input| || Int32At(input, pc) < 0 || pc + 4 + 4 * Int32At(input, pc) > |input| then
              DecodeAt(input, start).None?
            else
              var i := DecodeAt(input, start);
              var count: int := Int32At(input, pc);
              && i.Some? && i.value.opcode == opcode && |i.value.targets| == count
                 && i.value.End() == pc + 4 + 4 * count
              && i.value.targets
                 == seq(count, j requires 0 <= j < count => pc + 4 + 4 * count + Int32At(input, pc + 4 + 4 * j))
              && (Accepted(resolve, i.value) <==> count <= SWITCH_QUOTA)
  {
    hide OperandOf, IsAllowed;
    AllowedKinds(opcode);
  }

  /** The relatives of the table, added to the offset behind it. */
  method ReadTargets(input: seq<Byte>, pc: nat, count: nat) returns (targets: Option<seq<int>>)
    ensures targets.Some? <==> count == 0 || pc + 4 * count <= |input|
    ensures targets.Some? ==>
              targets.value == seq(count, j requires 0 <= j < count => pc + 4 * count + Int32At(input, pc + 4 * j))
  {
    hide Int32At;
    var read: seq<int> := [];
    for index := 0 to count
      invariant index > 0 ==> pc + 4 * index <= |input|
      invariant |read| == index
      invariant forall j :: 0 <= j < index ==> read[j] == pc + 4 * count + Int32At(input, pc + 4 * j)
    {
      if pc + 4 * index + 4 > |input| { return None; }
      read := read + [pc + 4 * count + Int32At(input, pc + 4 * index)];
    }
    targets := Some(read);
  }

  method CompactSwitch(resolve: Resolver, input: seq<Byte>, start: nat, opcode: int, position: nat)
    returns (result: Option<Written>)
    requires start < |input| && OpcodeAt(input, start) == Some(opcode) && IsAllowed(opcode)
    requires OperandOf(opcode).Some? && OperandOf(opcode).value.InlineSwitch?
    ensures result.Some? <==> DecodeAt(input, start).Some? && Accepted(resolve, DecodeAt(input, start).value)
    ensures result.Some? ==>
              var i := DecodeAt(input, start).value;
              result.value == Written(Blank(resolve, i), PatchesOf(resolve, i, position), i.End())
  {
    hide OperandOf, IsAllowed, DecodeAt, WellFormed, Zeros, Le32, SwitchPatches, OpcodeBytes;
    CallTakesToken();
    SwitchDecodes(resolve, input, start, opcode);
    var pc := start + OpcodeSize(opcode);
    var hole := position + OpcodeSize(opcode);
    if pc + 4 > |input| { return None; }
    var count: int := Int32At(input, pc);
    if count < 0 || count > SWITCH_QUOTA { return None; }
    var targets := ReadTargets(input, pc + 4, count);
    if targets.None? { return None; }
    ghost var i := DecodeAt(input, start).value;
    assert targets.value == i.targets;
    var patches := SwitchHoles(targets.value, hole + 4, hole + 4 + 4 * count);
    result := Some(Written(OpcodeBytes(opcode) + (Le32(count) + Zeros(4 * count)), patches, pc + 4 + 4 * count));
  }

  method CompactCil(resolve: Resolver, input: seq<Byte>) returns (result: Option<seq<Byte>>)
    requires |input| < 0x8000_0000
    ensures result.Some? <==> Compactable(resolve, input)
    ensures result.Some? ==> result.value == Compacted(resolve, input)
  {
    hide WellFormed, Accepted, DecodeAt, Blank, PatchesOf, OutSize;
    var output: seq<Byte> := [];
    var offsets: map<int, int> := map[];
    var patches: seq<Patch> := [];
    ghost var done: seq<Instruction> := [];
    var pc := 0;
    while pc < |input|
      invariant 0 <= pc <= |input|
      invariant Decodes(input, 0, pc, done) && AllAccepted(resolve, done)
      invariant output == Blanks(resolve, done, |done|)
      invariant offsets == Offsets(resolve, done, |done|)
      invariant patches == Patches(resolve, done, |done|)
    {
      var written := CompactInstruction(resolve, input, pc, |output|);
      ghost var next := DecodeAt(input, pc);
      if written.None? {
        Refused(resolve, input, pc, done);
        return None;
      }
      OneMore(resolve, input, pc, done, next.value);
      offsets := offsets[pc := |output|];
      output := output + written.value.bytes;
      patches := patches + written.value.patches;
      pc := written.value.next;
      done := done + [next.value];
    }
    ThePassDecodes(resolve, input, done);
    result := PatchAll(resolve, output, patches, offsets, done);
  }

  lemma {:induction false} PrefixOffsets(resolve: Resolver, a: seq<Instruction>, b: seq<Instruction>, k: nat)
    requires AllAccepted(resolve, a + b) && AllAccepted(resolve, a) && k <= |a|
    ensures NewOffset(resolve, a + b, k) == NewOffset(resolve, a, k)
    ensures Offsets(resolve, a + b, k) == Offsets(resolve, a, k)
    ensures Blanks(resolve, a + b, k) == Blanks(resolve, a, k)
    ensures Patches(resolve, a + b, k) == Patches(resolve, a, k)
  {
    hide WellFormed, Accepted, Blank, PatchesOf, OutSize;
    if k > 0 {
      PrefixOffsets(resolve, a, b, k - 1);
      assert (a + b)[k - 1] == a[k - 1];
    }
  }

  lemma OneMore(resolve: Resolver, input: seq<Byte>, pc: nat, done: seq<Instruction>, next: Instruction)
    requires pc < |input| && Decodes(input, 0, pc, done) && AllAccepted(resolve, done)
    requires DecodeAt(input, pc) == Some(next) && Accepted(resolve, next)
    ensures var more := done + [next];
            && AllAccepted(resolve, more)
            && Decodes(input, 0, next.End(), more)
            && NewOffset(resolve, more, |done|) == NewOffset(resolve, done, |done|)
            && Blanks(resolve, more, |more|) == Blanks(resolve, done, |done|) + Blank(resolve, next)
            && Offsets(resolve, more, |more|) == Offsets(resolve, done, |done|)[pc := NewOffset(resolve, done, |done|)]
            && Patches(resolve, more, |more|) == Patches(resolve, done, |done|) +
                                                 PatchesOf(resolve, next, NewOffset(resolve, done, |done|))
  {
    hide WellFormed, Accepted, DecodeAt, Blank, PatchesOf, OutSize, Decodes;
    DecodesAppend(input, 0, pc, done, next);
    PrefixOffsets(resolve, done, [next], |done|);
  }

  lemma Refused(resolve: Resolver, input: seq<Byte>, pc: nat, done: seq<Instruction>)
    requires pc < |input| && Decodes(input, 0, pc, done)
    requires DecodeAt(input, pc).None? || !Accepted(resolve, DecodeAt(input, pc).value)
    ensures !Compactable(resolve, input)
  {
    hide WellFormed, Accepted, DecodeAt, Offsets, Decodes;
    DecodePrefix(input, 0, pc, done);
    if DecodeFrom(input, 0).Some? {
      var all := DecodeFrom(input, 0).value;
      assert all[|done|] == DecodeAt(input, pc).value;
    }
  }

  lemma ThePassDecodes(resolve: Resolver, input: seq<Byte>, done: seq<Instruction>)
    requires Decodes(input, 0, |input|, done)
    ensures DecodeFrom(input, 0) == Some(done)
    ensures Consecutive(done, 0) && OldOffset(done, 0, |done|) == |input|
  {
    hide WellFormed, Accepted, DecodeAt, Decodes;
    DecodePrefix(input, 0, |input|, done);
    assert done + [] == done;
    DecodesConsecutive(input, 0, |input|, done);
  }

  /** Every patch belongs to an instruction, and names one of its targets. */
  lemma {:induction false} PatchOwner(resolve: Resolver, instrs: seq<Instruction>, n: nat, p: Patch)
    requires AllAccepted(resolve, instrs) && n <= |instrs| && p in Patches(resolve, instrs, n)
    ensures exists k, j {:trigger instrs[k].targets[j]} ::
              && 0 <= k < n && 0 <= j < |instrs[k].targets| && instrs[k].targets[j] == p.target
              && p.base == NewOffset(resolve, instrs, k + 1)
              && (p.width == 1 ==> -128 <= p.target - instrs[k].End() < 128)
  {
    hide WellFormed, Accepted, PatchesOf, OutSize;
    var last := PatchesOf(resolve, instrs[n - 1], NewOffset(resolve, instrs, n - 1));
    if p in last {
      var j := OwnPatch(resolve, instrs[n - 1], NewOffset(resolve, instrs, n - 1), p);
      assert instrs[n - 1].targets[j] == p.target;
    } else {
      assert p in Patches(resolve, instrs, n - 1);
      PatchOwner(resolve, instrs, n - 1, p);
      var k, j :| 0 <= k < n - 1 && 0 <= j < |instrs[k].targets| && instrs[k].targets[j] == p.target
              && p.base == NewOffset(resolve, instrs, k + 1)
              && (p.width == 1 ==> -128 <= p.target - instrs[k].End() < 128);
      assert instrs[k].targets[j] == p.target;
    }
  }

  lemma OwnPatch(resolve: Resolver, i: Instruction, at: nat, p: Patch) returns (j: nat)
    requires Accepted(resolve, i) && p in PatchesOf(resolve, i, at)
    ensures j < |i.targets| && i.targets[j] == p.target && p.base == at + OutSize(resolve, i)
    ensures p.width == 1 ==> -128 <= p.target - i.End() < 128
  {
    hide OperandOf, IsAllowed;
    CallTakesToken();
    j :| 0 <= j < |PatchesOf(resolve, i, at)| && PatchesOf(resolve, i, at)[j] == p;
  }

  lemma {:induction false} TargetsPatched(resolve: Resolver, instrs: seq<Instruction>, n: nat, k: nat, j: nat)
    requires AllAccepted(resolve, instrs) && k < n <= |instrs| && j < |instrs[k].targets|
    ensures exists p :: p in Patches(resolve, instrs, n) && p.target == instrs[k].targets[j]
  {
    hide WellFormed, Accepted, PatchesOf, OutSize;
    if k < n - 1 {
      TargetsPatched(resolve, instrs, n - 1, k, j);
      var p :| p in Patches(resolve, instrs, n - 1) && p.target == instrs[k].targets[j];
      assert p in Patches(resolve, instrs, n);
    } else {
      var own := PatchesOf(resolve, instrs[k], NewOffset(resolve, instrs, k));
      TargetPatched(resolve, instrs[k], NewOffset(resolve, instrs, k), j);
      assert own[j] in Patches(resolve, instrs, n);
    }
  }

  lemma TargetPatched(resolve: Resolver, i: Instruction, at: nat, j: nat)
    requires Accepted(resolve, i) && j < |i.targets|
    ensures j < |PatchesOf(resolve, i, at)| && PatchesOf(resolve, i, at)[j].target == i.targets[j]
  {
    hide OperandOf, IsAllowed;
    CallTakesToken();
  }

  /** The patch fits its field: short distances stay in a signed octet, long ones in 32 bits. */
  lemma PatchInRange(resolve: Resolver, instrs: seq<Instruction>, p: Patch, image: map<int, int>)
    requires AllAccepted(resolve, instrs) && Consecutive(instrs, 0) && p in Patches(resolve, instrs, |instrs|)
    requires OldOffset(instrs, 0, |instrs|) < 0x8000_0000
    requires image == Offsets(resolve, instrs, |instrs|) && p.target in image
    ensures p.width == 1 ==> -128 <= image[p.target] - p.base < 128
    ensures -0x8000_0000 <= image[p.target] - p.base < 0x8000_0000
  {
    hide WellFormed, Accepted, PatchesOf, OutSize, Patches, Offsets, NewOffset;
    PatchOwner(resolve, instrs, |instrs|, p);
    var k, j :| 0 <= k < |instrs| && 0 <= j < |instrs[k].targets| && instrs[k].targets[j] == p.target
              && p.base == NewOffset(resolve, instrs, k + 1)
              && (p.width == 1 ==> -128 <= p.target - instrs[k].End() < 128);
    BranchContracts(resolve, instrs, k, p.target);
    var t := OffsetIndex(resolve, instrs, p.target);
    OffsetIs(instrs, 0, t);
    OffsetIs(instrs, 0, k);
    RelocationContracts(resolve, instrs, 0, t, |instrs|);
    RelocationContracts(resolve, instrs, 0, k + 1, |instrs|);
  }

  /** The second pass. */
  method PatchAll(resolve: Resolver, output: seq<Byte>, patches: seq<Patch>, offsets: map<int, int>,
                  ghost instrs: seq<Instruction>)
    returns (result: Option<seq<Byte>>)
    requires AllAccepted(resolve, instrs) && Consecutive(instrs, 0)
    requires OldOffset(instrs, 0, |instrs|) < 0x8000_0000
    requires output == Blanks(resolve, instrs, |instrs|)
    requires patches == Patches(resolve, instrs, |instrs|)
    requires offsets == Offsets(resolve, instrs, |instrs|)
    ensures result.Some? <==> TargetsIn(instrs, offsets)
    ensures result.Some? ==> result.value == Assembled(resolve, instrs, |instrs|, offsets)
  {
    hide WellFormed, Accepted, PatchesOf, OutSize, Blanks, Patches, Offsets, NewOffset, Fill;
    var bytes := new Byte[|output|](j requires 0 <= j < |output| => output[j]);
    assert bytes[..] == output;
    PatchShapes(resolve, instrs, |instrs|);
    var n := 0;
    while n < |patches|
      invariant 0 <= n <= |patches|
      invariant Fits(patches[..n], |output|, offsets)
      invariant bytes[..] == FillAll(output, patches[..n], offsets)
    {
      var patch := patches[n];
      if patch.target !in offsets {
        PatchOwner(resolve, instrs, |instrs|, patch);
        assert !TargetsIn(instrs, offsets);
        return None;
      }
      PatchInRange(resolve, instrs, patch, offsets);
      var relative := offsets[patch.target] - patch.base;
      if relative < -0x8000_0000 || relative >= 0x8000_0000 { return None; }
      if patch.width == 1 && (relative < -128 || relative > 127) { return None; }
      assert patches[..n + 1][..n] == patches[..n];
      PatchArray(bytes, patch, offsets);
      n := n + 1;
    }
    assert patches[..n] == patches;
    forall k, j | 0 <= k < |instrs| && 0 <= j < |instrs[k].targets|
      ensures instrs[k].targets[j] in offsets
    {
      TargetsPatched(resolve, instrs, |instrs|, k, j);
      var p :| p in patches && p.target == instrs[k].targets[j];
    }
    FillingAssembles(resolve, instrs, |instrs|, offsets);
    return Some(bytes[..]);
  }

  /** Writes one distance into the array. */
  method PatchArray(bytes: array<Byte>, patch: Patch, offsets: map<int, int>)
    requires Fillable(patch, bytes.Length, offsets)
    modifies bytes
    ensures bytes[..] == Fill(old(bytes[..]), patch, offsets)
  {
    var relative := offsets[patch.target] - patch.base;
    if patch.width == 1 {
      bytes[patch.position] := ByteOf(relative);
    } else {
      var word := Le32(relative);
      bytes[patch.position] := word[0];
      bytes[patch.position + 1] := word[1];
      bytes[patch.position + 2] := word[2];
      bytes[patch.position + 3] := word[3];
    }
  }

  lemma {:induction false} PatchShapes(resolve: Resolver, instrs: seq<Instruction>, n: nat)
    requires AllAccepted(resolve, instrs) && n <= |instrs|
    ensures forall m :: 0 <= m < |Patches(resolve, instrs, n)| ==>
              var p := Patches(resolve, instrs, n)[m];
              p.width in {1, 4} && p.position + p.width <= NewOffset(resolve, instrs, n)
  {
    hide WellFormed, Accepted, PatchesOf, OutSize;
    if n > 0 {
      PatchShapes(resolve, instrs, n - 1);
      OwnShapes(resolve, instrs[n - 1], NewOffset(resolve, instrs, n - 1));
    }
  }

  lemma OwnShapes(resolve: Resolver, i: Instruction, at: nat)
    requires Accepted(resolve, i)
    ensures forall m :: 0 <= m < |PatchesOf(resolve, i, at)| ==>
              var p := PatchesOf(resolve, i, at)[m];
              p.width in {1, 4} && p.position + p.width <= at + OutSize(resolve, i)
  {
    hide OperandOf, IsAllowed;
    CallTakesToken();
  }
}
