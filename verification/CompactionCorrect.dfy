/** The independent reader lists exactly the input instructions of what CompactCil wrote. */
module CompactionCorrect {
  import opened Wrappers
  import opened Bytes
  import opened Cil
  import opened CilReading
  import opened CilEncoding
  import opened Compaction
  import opened CompactCil
  import opened Inspect

  /** The listing of one input instruction whose output starts at `at`. */
  function LinesOf(resolve: Resolver, i: Instruction, at: int, image: map<int, int>): seq<Line>
    requires Accepted(resolve, i) && TargetsOf(i, image)
  {
    if IsEmptyArrayCall(resolve, i) then
      [Line(at, 0x16, Nothing), Line(at + 1, 0x8d, Inspect.CompactToken(1, resolve(i.token).elementRow))]
    else [Line(at, i.opcode, OperandOfLine(resolve, i, image))]
  }

  function Images(targets: seq<int>, image: map<int, int>): (s: seq<int>)
    requires forall j :: 0 <= j < |targets| ==> targets[j] in image
    ensures |s| == |targets|
  {
    seq(|targets|, j requires 0 <= j < |targets| => image[targets[j]])
  }

  function OperandOfLine(resolve: Resolver, i: Instruction, image: map<int, int>): Operand
    requires Accepted(resolve, i) && TargetsOf(i, image) && !IsEmptyArrayCall(resolve, i)
  {
    var kind := OperandOf(i.opcode).value;
    if kind.InlineNone? then Nothing
    else if IsToken(kind) then Inspect.CompactToken(resolve(i.token).table, resolve(i.token).row)
    else if kind.InlineSwitch? then TargetList(Images(i.targets, image))
    else if IsBranch(kind) then Target(image[i.targets[0]])
    else if kind.InlineI? then Word(Int32At(i.immediate, 0))
    else if |i.immediate| == 1 then Octet(i.immediate[0])
    else Nothing
  }

  /** The reader accepts the compact token the instruction was given. */
  predicate TokenAccepted(rows: Rows, resolve: Resolver, i: Instruction)
    requires Accepted(resolve, i)
  {
    if IsEmptyArrayCall(resolve, i) then TokenFits(rows, 0x8d, 1, resolve(i.token).elementRow)
    else i.HasToken() ==> TokenFits(rows, i.opcode, resolve(i.token).table, resolve(i.token).row)
  }

  /** The whole listing: instruction k onward. */
  function ListingFrom(resolve: Resolver, instrs: seq<Instruction>, k: nat, image: map<int, int>): seq<Line>
    requires k <= |instrs| && AllAccepted(resolve, instrs) && TargetsIn(instrs, image)
    decreases |instrs| - k
  {
    if k == |instrs| then []
    else LinesOf(resolve, instrs[k], NewOffset(resolve, instrs, k), image) + ListingFrom(resolve, instrs, k + 1, image)
  }

  predicate TokensAccepted(rows: Rows, resolve: Resolver, instrs: seq<Instruction>, k: nat)
    requires k <= |instrs| && AllAccepted(resolve, instrs)
  {
    forall m :: k <= m < |instrs| ==> TokenAccepted(rows, resolve, instrs[m])
  }

  /** The relocated distances fit their fields. */
  predicate InRange(i: Instruction, base: int, image: map<int, int>)
    requires TargetsOf(i, image)
  {
    forall j :: 0 <= j < |i.targets| ==>
      && -0x8000_0000 <= image[i.targets[j]] - base < 0x8000_0000
      && (i.size == OpcodeSize(i.opcode) + 1 ==> -128 <= image[i.targets[j]] - base < 128)
  }

  predicate Window(code: seq<Byte>, at: nat, s: seq<Byte>) {
    at + |s| <= |code| && forall x :: 0 <= x < |s| ==> code[at + x] == s[x]
  }

  // ---- Reading back one instruction ----

  lemma WindowOpcode(code: seq<Byte>, at: nat, opcode: int, tail: seq<Byte>)
    requires 0 <= opcode < 0xfe || 0xfe00 <= opcode < 0xff00
    requires Window(code, at, OpcodeBytes(opcode) + tail)
    ensures at < |code| && OpcodeAt(code, at) == Some(opcode)
    ensures Window(code, at + OpcodeSize(opcode), tail)
  {
    var whole := OpcodeBytes(opcode) + tail;
    assert code[at + 0] == whole[0];
    if opcode >= 0xfe00 { assert code[at + 1] == whole[1]; }
    forall x | 0 <= x < |tail|
      ensures code[at + OpcodeSize(opcode) + x] == tail[x]
    {
      assert code[at + (OpcodeSize(opcode) + x)] == whole[OpcodeSize(opcode) + x];
    }
  }

  lemma WindowWord(code: seq<Byte>, at: nat, x: int)
    requires Window(code, at, Le32(x)) && -0x8000_0000 <= x < 0x8000_0000
    ensures Int32At(code, at) == x
  {
    hide Le32;
    Le32Reads(x);
    assert code[at + 0] == Le32(x)[0] && code[at + 1] == Le32(x)[1];
    assert code[at + 2] == Le32(x)[2] && code[at + 3] == Le32(x)[3];
  }

  lemma SByteReads(d: int)
    requires -128 <= d < 128
    ensures SByteOf(ByteOf(d)) == d
  {
  }

  lemma WindowSlice(code: seq<Byte>, at: nat, s: seq<Byte>, lo: nat, hi: nat)
    requires Window(code, at, s) && lo <= hi <= |s|
    ensures Window(code, at + lo, s[lo..hi])
  {
    forall x | 0 <= x < hi - lo
      ensures code[at + lo + x] == s[lo..hi][x]
    {
      assert code[at + (lo + x)] == s[lo + x];
    }
  }

  lemma DistanceWindow(code: seq<Byte>, at: nat, targets: seq<int>, base: int, image: map<int, int>, j: nat)
    requires (forall k :: 0 <= k < |targets| ==> targets[k] in image) && j < |targets|
    requires Window(code, at, Distances(targets, base, image))
    ensures Window(code, at + 4 * j, Le32(image[targets[j]] - base))
  {
    hide Le32, Distances;
    var word := Le32(image[targets[j]] - base);
    forall x | 0 <= x < 4
      ensures code[at + 4 * j + x] == word[x]
    {
      DistanceOctet(targets, base, image, j, x);
      assert code[at + (4 * j + x)] == Distances(targets, base, image)[4 * j + x];
    }
  }

  lemma ReadSwitch(code: seq<Byte>, pc: nat, opcode: int, at: nat, targets: seq<int>, base: int, image: map<int, int>)
    requires (forall k :: 0 <= k < |targets| ==> targets[k] in image) && |targets| <= SWITCH_QUOTA
    requires forall k :: 0 <= k < |targets| ==> -0x8000_0000 <= image[targets[k]] - base < 0x8000_0000
    requires base == at + 4 + 4 * |targets|
    requires Window(code, at, Le32(|targets|) + Distances(targets, base, image))
    ensures SwitchLine(code, pc, opcode, at) ==
            Some(Read(Line(pc, opcode, TargetList(Images(targets, image))), base))
  {
    hide Le32, Distances;
    var whole := Le32(|targets|) + Distances(targets, base, image);
    WindowSlice(code, at, whole, 0, 4);
    assert whole[0..4] == Le32(|targets|);
    WindowWord(code, at, |targets|);
    WindowSlice(code, at, whole, 4, |whole|);
    assert whole[4..|whole|] == Distances(targets, base, image);
    forall j | 0 <= j < |targets|
      ensures Int32At(code, at + 4 + 4 * j) == image[targets[j]] - base
    {
      DistanceWindow(code, at + 4, targets, base, image, j);
      WindowWord(code, at + 4 + 4 * j, image[targets[j]] - base);
    }
    var count := |targets|;
    assert seq(count, j requires 0 <= j < count => base + Int32At(code, at + 4 + 4 * j)) == Images(targets, image);
  }

  lemma ReadToken(rows: Rows, code: seq<Byte>, pc: nat, opcode: int, at: nat, table: Byte, row: UInt16)
    requires Window(code, at, [table] + Le16(row))
    ensures TokenLine(rows, code, pc, opcode, at) ==
            if TokenFits(rows, opcode, table, row)
            then Some(Read(Line(pc, opcode, Inspect.CompactToken(table, row)), at + 3)) else None
  {
    var s := [table] + Le16(row);
    assert code[at + 0] == s[0] && code[at + 1] == s[1] && code[at + 2] == s[2];
  }

  lemma ReadPlain(rows: Rows, resolve: Resolver, code: seq<Byte>, n: nat, i: Instruction, image: map<int, int>)
    requires Accepted(resolve, i) && !i.HasToken() && !IsBranch(OperandOf(i.opcode).value)
    requires n + OutSize(resolve, i) <= |code| && TargetsOf(i, image)
    requires Window(code, n, OpcodeBytes(i.opcode) + i.immediate)
    ensures LineAt(rows, code, n) == Some(Read(Line(n, i.opcode, OperandOfLine(resolve, i, image)), n + i.size))
  {
    hide OperandOf, OpcodeBytes, IsAllowed, SchemaOperand, OpcodeAt;
    AllowedKinds(i.opcode);
    SchemaIsProfile(i.opcode);
    CallTakesToken();
    WindowOpcode(code, n, i.opcode, i.immediate);
    var at := n + OpcodeSize(i.opcode);
    if |i.immediate| > 0 { assert code[at + 0] == i.immediate[0]; }
    if |i.immediate| == 4 {
      assert code[at + 1] == i.immediate[1] && code[at + 2] == i.immediate[2] && code[at + 3] == i.immediate[3];
    }
  }

  lemma ReadShortBranch(rows: Rows, resolve: Resolver, code: seq<Byte>, n: nat, i: Instruction, image: map<int, int>)
    requires Accepted(resolve, i) && OperandOf(i.opcode).value.ShortInlineBrTarget?
    requires TargetsOf(i, image) && InRange(i, n + i.size, image)
    requires Window(code, n, OpcodeBytes(i.opcode) + [ByteOf(image[i.targets[0]] - (n + i.size))])
    ensures LineAt(rows, code, n) == Some(Read(Line(n, i.opcode, Target(image[i.targets[0]])), n + i.size))
  {
    hide OperandOf, OpcodeBytes, IsAllowed, SchemaOperand, OpcodeAt, OpcodeSize;
    AllowedKinds(i.opcode);
    SchemaIsProfile(i.opcode);
    var d := image[i.targets[0]] - (n + i.size);
    WindowOpcode(code, n, i.opcode, [ByteOf(d)]);
    assert code[n + OpcodeSize(i.opcode) + 0] == [ByteOf(d)][0];
    SByteReads(d);
  }

  lemma ReadLongBranch(rows: Rows, resolve: Resolver, code: seq<Byte>, n: nat, i: Instruction, image: map<int, int>)
    requires Accepted(resolve, i) && OperandOf(i.opcode).value.InlineBrTarget?
    requires TargetsOf(i, image) && InRange(i, n + i.size, image)
    requires Window(code, n, OpcodeBytes(i.opcode) + Le32(image[i.targets[0]] - (n + i.size)))
    ensures LineAt(rows, code, n) == Some(Read(Line(n, i.opcode, Target(image[i.targets[0]])), n + i.size))
  {
    hide OperandOf, OpcodeBytes, IsAllowed, SchemaOperand, OpcodeAt, OpcodeSize, Le32;
    AllowedKinds(i.opcode);
    SchemaIsProfile(i.opcode);
    var d := image[i.targets[0]] - (n + i.size);
    WindowOpcode(code, n, i.opcode, Le32(d));
    WindowWord(code, n + OpcodeSize(i.opcode), d);
  }

  lemma ReadSwitchInstruction(rows: Rows, resolve: Resolver, code: seq<Byte>, n: nat, i: Instruction,
                              image: map<int, int>)
    requires Accepted(resolve, i) && OperandOf(i.opcode).value.InlineSwitch?
    requires TargetsOf(i, image) && InRange(i, n + i.size, image)
    requires Window(code, n, OpcodeBytes(i.opcode) + (Le32(|i.targets|) + Distances(i.targets, n + i.size, image)))
    ensures LineAt(rows, code, n) == Some(Read(Line(n, i.opcode, TargetList(
              Images(i.targets, image))), n + i.size))
  {
    hide OperandOf, OpcodeBytes, IsAllowed, SchemaOperand, OpcodeAt, OpcodeSize, Le32, Distances, SwitchLine;
    AllowedKinds(i.opcode);
    SchemaIsProfile(i.opcode);
    WindowOpcode(code, n, i.opcode, Le32(|i.targets|) + Distances(i.targets, n + i.size, image));
    ReadSwitch(code, n, i.opcode, n + OpcodeSize(i.opcode), i.targets, n + i.size, image);
  }

  lemma ReadBranch(rows: Rows, resolve: Resolver, code: seq<Byte>, n: nat, i: Instruction, image: map<int, int>)
    requires Accepted(resolve, i) && IsBranch(OperandOf(i.opcode).value)
    requires TargetsOf(i, image) && InRange(i, n + i.size, image)
    requires Window(code, n, Emit(resolve, i, n + i.size, image))
    ensures !IsEmptyArrayCall(resolve, i)
    ensures LineAt(rows, code, n) == Some(Read(Line(n, i.opcode, OperandOfLine(resolve, i, image)), n + i.size))
  {
    hide OperandOf, OpcodeBytes, IsAllowed, SchemaOperand, OpcodeAt, Le32, Distances, LineAt, Window, InRange;
    CallTakesToken();
    if OperandOf(i.opcode).value.ShortInlineBrTarget? {
      ReadShortBranch(rows, resolve, code, n, i, image);
    } else if OperandOf(i.opcode).value.InlineBrTarget? {
      ReadLongBranch(rows, resolve, code, n, i, image);
    } else {
      ReadSwitchInstruction(rows, resolve, code, n, i, image);
    }
  }

  lemma ReadTokenInstruction(rows: Rows, resolve: Resolver, code: seq<Byte>, n: nat, i: Instruction,
                             image: map<int, int>)
    requires Accepted(resolve, i) && i.HasToken() && !IsEmptyArrayCall(resolve, i) && TargetsOf(i, image)
    requires Window(code, n, OpcodeBytes(i.opcode) + ([resolve(i.token).table] + Le16(resolve(i.token).row)))
    ensures LineAt(rows, code, n) ==
            if TokenAccepted(rows, resolve, i)
            then Some(Read(Line(n, i.opcode, OperandOfLine(resolve, i, image)), n + OutSize(resolve, i))) else None
  {
    hide OperandOf, OpcodeBytes, IsAllowed, SchemaOperand, OpcodeAt, TokenFits;
    AllowedKinds(i.opcode);
    SchemaIsProfile(i.opcode);
    var meaning := resolve(i.token);
    var operand := [meaning.table] + Le16(meaning.row);
    WindowOpcode(code, n, i.opcode, operand);
    ReadToken(rows, code, n, i.opcode, n + OpcodeSize(i.opcode), meaning.table, meaning.row);
  }

  lemma ReadEmptyArray(rows: Rows, code: seq<Byte>, n: nat, row: UInt16)
    requires Window(code, n, EmptyArray(row))
    ensures LineAt(rows, code, n) == Some(Read(Line(n, LDC_I4_0, Nothing), n + 1))
    ensures LineAt(rows, code, n + 1) ==
            if TokenFits(rows, NEWARR, TYPE_REF, row)
            then Some(Read(Line(n + 1, NEWARR, Inspect.CompactToken(TYPE_REF, row)), n + 5)) else None
  {
    hide TokenFits;
    var s := EmptyArray(row);
    assert code[n + 0] == s[0] && code[n + 1] == s[1];
    WindowSlice(code, n, s, 2, 5);
    assert s[2..5] == [TYPE_REF] + Le16(row);
    ReadToken(rows, code, n + 1, NEWARR, n + 2, TYPE_REF, row);
  }

  /** What the reader makes of one instruction and of everything behind it. */
  lemma ReadOne(rows: Rows, resolve: Resolver, code: seq<Byte>, n: nat, i: Instruction, image: map<int, int>)
    requires Accepted(resolve, i) && TargetsOf(i, image)
    requires InRange(i, n + OutSize(resolve, i), image)
    requires Window(code, n, Emit(resolve, i, n + OutSize(resolve, i), image))
    ensures n + OutSize(resolve, i) <= |code|
    ensures var rest := LinesFrom(rows, code, n + OutSize(resolve, i));
            LinesFrom(rows, code, n) ==
            if TokenAccepted(rows, resolve, i) && rest.Some?
            then Some(LinesOf(resolve, i, n, image) + rest.value) else None
  {
    hide OperandOf, OpcodeBytes, IsAllowed, SchemaOperand, OpcodeAt, TokenFits, LineAt, Emit, EmptyArray, Le32,
         Distances,
         OperandOfLine;
    CallTakesToken();
    OutSizeShrinks(resolve, i);
    if IsEmptyArrayCall(resolve, i) {
      EmitEmptyArray(resolve, i, n + OutSize(resolve, i), image);
      ReadEmptyArray(rows, code, n, resolve(i.token).elementRow);
      var rest := LinesFrom(rows, code, n + 5);
      if rest.Some? {
        var lines := LinesOf(resolve, i, n, image);
        assert [lines[0]] + ([lines[1]] + rest.value) == lines + rest.value;
      }
    } else if i.HasToken() {
      EmitPlain(resolve, i, n + OutSize(resolve, i), image);
      ReadTokenInstruction(rows, resolve, code, n, i, image);
    } else if IsBranch(OperandOf(i.opcode).value) {
      ReadBranch(rows, resolve, code, n, i, image);
    } else {
      EmitPlain(resolve, i, n + OutSize(resolve, i), image);
      ReadPlain(rows, resolve, code, n, i, image);
    }
  }

  lemma EmitEmptyArray(resolve: Resolver, i: Instruction, base: int, image: map<int, int>)
    requires Accepted(resolve, i) && TargetsOf(i, image) && IsEmptyArrayCall(resolve, i)
    ensures Emit(resolve, i, base, image) == EmptyArray(resolve(i.token).elementRow) && OutSize(resolve, i) == 5
  {
    CallTakesToken();
  }

  lemma EmitPlain(resolve: Resolver, i: Instruction, base: int, image: map<int, int>)
    requires Accepted(resolve, i) && TargetsOf(i, image) && !IsEmptyArrayCall(resolve, i)
    requires !IsBranch(OperandOf(i.opcode).value)
    ensures Emit(resolve, i, base, image) == OpcodeBytes(i.opcode) + Plain(resolve, i)
  {
  }

  // ---- The whole body ----

  lemma {:induction false} AssembledPrefix(resolve: Resolver, instrs: seq<Instruction>, k: nat, m: nat,
                                           image: map<int, int>)
    requires k <= m <= |instrs| && AllAccepted(resolve, instrs) && TargetsIn(instrs, image)
    ensures Assembled(resolve, instrs, k, image) <= Assembled(resolve, instrs, m, image)
    decreases m - k
  {
    hide WellFormed, Accepted, Emit, OutSize;
    if k < m { AssembledPrefix(resolve, instrs, k, m - 1, image); }
  }

  lemma WindowInAssembled(resolve: Resolver, instrs: seq<Instruction>, k: nat, image: map<int, int>)
    requires k < |instrs| && AllAccepted(resolve, instrs) && TargetsIn(instrs, image)
    ensures Window(Assembled(resolve, instrs, |instrs|, image), NewOffset(resolve, instrs, k),
                   Emit(resolve, instrs[k], NewOffset(resolve, instrs, k + 1), image))
  {
    hide WellFormed, Accepted, Emit, OutSize;
    AssembledPrefix(resolve, instrs, k + 1, |instrs|, image);
  }

  lemma BranchInRange(resolve: Resolver, instrs: seq<Instruction>, k: nat)
    requires AllAccepted(resolve, instrs) && Consecutive(instrs, 0) && k < |instrs|
    requires OldOffset(instrs, 0, |instrs|) < 0x8000_0000
    requires TargetsIn(instrs, Offsets(resolve, instrs, |instrs|))
    ensures InRange(instrs[k], NewOffset(resolve, instrs, k + 1), Offsets(resolve, instrs, |instrs|))
  {
    hide OperandOf, IsAllowed, Offsets, NewOffset, OutSize, PatchesOf;
    CallTakesToken();
    AllowedKinds(instrs[k].opcode);
    var i, image := instrs[k], Offsets(resolve, instrs, |instrs|);
    forall j | 0 <= j < |i.targets|
      ensures -0x8000_0000 <= image[i.targets[j]] - NewOffset(resolve, instrs, k + 1) < 0x8000_0000
      ensures i.size == OpcodeSize(i.opcode) + 1 ==>
                -128 <= image[i.targets[j]] - NewOffset(resolve, instrs, k + 1) < 128
    {
      assert TargetsOf(i, image);
      BranchContracts(resolve, instrs, k, i.targets[j]);
      BranchReach(resolve, instrs, k, i.targets[j]);
    }
  }

  /** No relocated distance leaves the 32-bit range. */
  lemma BranchReach(resolve: Resolver, instrs: seq<Instruction>, k: nat, target: int)
    requires AllAccepted(resolve, instrs) && Consecutive(instrs, 0) && k < |instrs|
    requires OldOffset(instrs, 0, |instrs|) < 0x8000_0000
    requires target in Offsets(resolve, instrs, |instrs|)
    ensures -0x8000_0000 <= Offsets(resolve, instrs, |instrs|)[target] - NewOffset(resolve, instrs, k + 1) < 0x8000_0000
  {
    hide WellFormed, OperandOf, IsAllowed, Offsets, NewOffset, OutSize, AllAccepted;
    var j := OffsetIndex(resolve, instrs, target);
    RelocationContracts(resolve, instrs, 0, j, |instrs|);
    RelocationContracts(resolve, instrs, 0, k + 1, |instrs|);
  }

  /** The reader lists the assembled body from instruction k onward. */
  lemma {:induction false} ReadFrom(rows: Rows, resolve: Resolver, instrs: seq<Instruction>, k: nat)
    requires AllAccepted(resolve, instrs) && Consecutive(instrs, 0) && k <= |instrs|
    requires OldOffset(instrs, 0, |instrs|) < 0x8000_0000
    requires TargetsIn(instrs, Offsets(resolve, instrs, |instrs|))
    ensures var image := Offsets(resolve, instrs, |instrs|);
            var code := Assembled(resolve, instrs, |instrs|, image);
            && NewOffset(resolve, instrs, k) <= |code|
            && LinesFrom(rows, code, NewOffset(resolve, instrs, k)) ==
               if TokensAccepted(rows, resolve, instrs, k) then Some(ListingFrom(resolve, instrs, k, image)) else None
    decreases |instrs| - k
  {
    hide WellFormed, Accepted, Emit, OutSize, Offsets, Assembled, LinesOf, LinesFrom, TokenAccepted, InRange;
    var image := Offsets(resolve, instrs, |instrs|);
    var code := Assembled(resolve, instrs, |instrs|, image);
    if k < |instrs| {
      ReadFrom(rows, resolve, instrs, k + 1);
      BranchInRange(resolve, instrs, k);
      WindowInAssembled(resolve, instrs, k, image);
      ReadOne(rows, resolve, code, NewOffset(resolve, instrs, k), instrs[k], image);
      assert TokensAccepted(rows, resolve, instrs, k) <==>
             TokenAccepted(rows, resolve, instrs[k]) && TokensAccepted(rows, resolve, instrs, k + 1);
    } else {
      NothingLeft(rows, code);
    }
  }

  lemma NothingLeft(rows: Rows, code: seq<Byte>)
    ensures LinesFrom(rows, code, |code|) == Some([])
  {
  }

  lemma {:induction false} ListingStarts(resolve: Resolver, instrs: seq<Instruction>, k: nat, m: nat,
                                         image: map<int, int>)
    requires k <= m < |instrs| && AllAccepted(resolve, instrs) && TargetsIn(instrs, image)
    ensures IsStart(ListingFrom(resolve, instrs, k, image), NewOffset(resolve, instrs, m))
    decreases m - k
  {
    hide WellFormed, Accepted, OutSize, NewOffset, OperandOfLine;
    var head := LinesOf(resolve, instrs[k], NewOffset(resolve, instrs, k), image);
    var lines := ListingFrom(resolve, instrs, k, image);
    if k == m {
      assert lines[0].offset == NewOffset(resolve, instrs, m);
    } else {
      ListingStarts(resolve, instrs, k + 1, m, image);
      var rest := ListingFrom(resolve, instrs, k + 1, image);
      var x :| 0 <= x < |rest| && rest[x].offset == NewOffset(resolve, instrs, m);
      assert lines[|head| + x] == rest[x];
    }
  }

  /** Every target the listing shows is the image of an input instruction. */
  lemma {:induction false} ListingTargets(resolve: Resolver, instrs: seq<Instruction>, k: nat, image: map<int, int>,
                                          x: nat, j: nat)
    requires k <= |instrs| && AllAccepted(resolve, instrs) && TargetsIn(instrs, image)
    requires var lines := ListingFrom(resolve, instrs, k, image); x < |lines| && j < |LineTargets(lines[x])|
    ensures exists t :: t in image && image[t] == LineTargets(ListingFrom(resolve, instrs, k, image)[x])[j]
    decreases |instrs| - k
  {
    hide WellFormed, Accepted, OutSize, NewOffset, LinesOf, LineTargets;
    var head := LinesOf(resolve, instrs[k], NewOffset(resolve, instrs, k), image);
    var lines := ListingFrom(resolve, instrs, k, image);
    if x < |head| {
      assert lines[x] == head[x];
      var t := OneLineTargets(resolve, instrs[k], NewOffset(resolve, instrs, k), image, x, j);
    } else {
      var rest := ListingFrom(resolve, instrs, k + 1, image);
      assert lines[x] == rest[x - |head|];
      ListingTargets(resolve, instrs, k + 1, image, x - |head|, j);
    }
  }

  lemma OneLineTargets(resolve: Resolver, i: Instruction, at: int, image: map<int, int>, x: nat, j: nat)
    returns (t: int)
    requires Accepted(resolve, i) && TargetsOf(i, image)
    requires var lines := LinesOf(resolve, i, at, image); x < |lines| && j < |LineTargets(lines[x])|
    ensures t in image && image[t] == LineTargets(LinesOf(resolve, i, at, image)[x])[j]
  {
    hide OperandOf, IsAllowed;
    CallTakesToken();
    assert !IsEmptyArrayCall(resolve, i) && IsBranch(OperandOf(i.opcode).value);
    t := i.targets[j];
  }

  /** decode_cil reads CompactCil's output back as the input instructions, tokens and targets
      mapped, Array.Empty expanded; it refuses only compact tokens its tables do not have. */
  lemma InspectorReadsCompactedCode(rows: Rows, resolve: Resolver, input: seq<Byte>)
    requires |input| < 0x8000_0000 && Compactable(resolve, input)
    ensures var instrs := DecodeFrom(input, 0).value;
            var image := Offsets(resolve, instrs, |instrs|);
            Listing(rows, Compacted(resolve, input)) ==
            if TokensAccepted(rows, resolve, instrs, 0) then Some(ListingFrom(resolve, instrs, 0, image)) else None
  {
    hide WellFormed, Accepted, OutSize, Offsets, Assembled, LinesOf, LinesFrom, TokenAccepted, ListingFrom, DecodeAt;
    var instrs := DecodeFrom(input, 0).value;
    DecodeFills(input, 0);
    DecodesConsecutive(input, 0, |input|, instrs);
    ReadFrom(rows, resolve, instrs, 0);
    var image := Offsets(resolve, instrs, |instrs|);
    var lines := ListingFrom(resolve, instrs, 0, image);
    forall x, j | 0 <= x < |lines| && 0 <= j < |LineTargets(lines[x])|
      ensures IsStart(lines, LineTargets(lines[x])[j])
    {
      ListingTargets(resolve, instrs, 0, image, x, j);
      var t :| t in image && image[t] == LineTargets(lines[x])[j];
      var m := OffsetIndex(resolve, instrs, t);
      ListingStarts(resolve, instrs, 0, m, image);
    }
  }

  /** A body in which reading comes to a switch with a negative count is not compacted. */
  lemma NegativeNotCompactable(resolve: Resolver, input: seq<Byte>)
    requires ReachesNegative(input, 0)
    ensures !Compactable(resolve, input)
  {
    hide ReachesNegative, DecodeFrom, Accepted;
    NegativeStopsReading(input, 0);
  }

  /** CompactCil never lengthens a body. */
  lemma CompactionShrinks(resolve: Resolver, input: seq<Byte>)
    requires Compactable(resolve, input)
    ensures |Compacted(resolve, input)| <= |input|
  {
    hide WellFormed, Accepted, OutSize, Offsets, Assembled, DecodeAt;
    var instrs := DecodeFrom(input, 0).value;
    DecodeFills(input, 0);
    DecodesConsecutive(input, 0, |input|, instrs);
    RelocationContracts(resolve, instrs, 0, 0, |instrs|);
    assert |Compacted(resolve, input)| == NewOffset(resolve, instrs, |instrs|);
  }

  // ---- Nothing to shrink ----

  predicate Tokenless(instrs: seq<Instruction>) {
    forall k :: 0 <= k < |instrs| ==> !instrs[k].HasToken()
  }

  /** Every instruction keeps its place. */
  lemma {:induction false} PlacesKept(resolve: Resolver, instrs: seq<Instruction>, k: nat)
    requires AllAccepted(resolve, instrs) && Consecutive(instrs, 0) && Tokenless(instrs) && k <= |instrs|
    ensures NewOffset(resolve, instrs, k) == OldOffset(instrs, 0, k)
    ensures forall t :: t in Offsets(resolve, instrs, k) ==> Offsets(resolve, instrs, k)[t] == t
    decreases k
  {
    hide WellFormed, IsAllowed, OperandOf;
    if k > 0 {
      PlacesKept(resolve, instrs, k - 1);
      OffsetIs(instrs, 0, k - 1);
      CallTakesToken();
      assert Accepted(resolve, instrs[k - 1]) && !instrs[k - 1].HasToken();
    }
  }

  lemma DistancesAreWords(targets: seq<int>, base: int, image: map<int, int>)
    requires forall j :: 0 <= j < |targets| ==> targets[j] in image && image[targets[j]] == targets[j]
    ensures Distances(targets, base, image) == DistanceWords(targets, base)
  {
    hide Le32;
    var s := Distances(targets, base, image);
    forall j | 0 <= j < |targets|
      ensures s[4 * j..4 * j + 4] == Le32(targets[j] - base)
    {
      DistanceOctet(targets, base, image, j, 0);
      DistanceOctet(targets, base, image, j, 1);
      DistanceOctet(targets, base, image, j, 2);
      DistanceOctet(targets, base, image, j, 3);
    }
    DistancesAre(targets, base, s);
  }

  /** What is emitted in place is the encoding. */
  lemma EmitsEncoding(resolve: Resolver, i: Instruction, image: map<int, int>)
    requires Accepted(resolve, i) && !i.HasToken() && Encodable(i) && TargetsOf(i, image)
    requires forall j :: 0 <= j < |i.targets| ==> image[i.targets[j]] == i.targets[j]
    ensures Emit(resolve, i, i.End(), image) == Encoding(i)
  {
    hide IsAllowed, OperandOf, Le32, Distances, DistanceWords;
    CallTakesToken();
    if OperandOf(i.opcode).value.InlineSwitch? { DistancesAreWords(i.targets, i.End(), image); }
  }

  lemma {:induction false} AssembledInPlace(resolve: Resolver, input: seq<Byte>, instrs: seq<Instruction>, k: nat)
    requires AllAccepted(resolve, instrs) && Decodes(input, 0, |input|, instrs) && Consecutive(instrs, 0)
    requires Tokenless(instrs) && k <= |instrs| && TargetsIn(instrs, Offsets(resolve, instrs, |instrs|))
    ensures 0 <= OldOffset(instrs, 0, k) <= |input|
    ensures Assembled(resolve, instrs, k, Offsets(resolve, instrs, |instrs|)) == input[..OldOffset(instrs, 0, k)]
    decreases k
  {
    hide WellFormed, Accepted, Emit, OutSize, Offsets, DecodeAt, Encodable, Encoding;
    var image := Offsets(resolve, instrs, |instrs|);
    if k > 0 {
      var i := instrs[k - 1];
      AssembledInPlace(resolve, input, instrs, k - 1);
      PlacesKept(resolve, instrs, |instrs|);
      PlacesKept(resolve, instrs, k);
      OffsetIs(instrs, 0, k - 1);
      DecodedThere(input, 0, |input|, instrs, k - 1);
      DecodeIffEncoding(input, i.offset, i);
      assert TargetsOf(i, image);
      EmitsEncoding(resolve, i, image);
      assert input[..i.End()] == input[..i.offset] + input[i.offset..i.End()];
    }
  }

  lemma {:induction false} DecodedThere(code: seq<Byte>, lo: nat, hi: nat, instrs: seq<Instruction>, k: nat)
    requires Decodes(code, lo, hi, instrs) && k < |instrs|
    ensures instrs[k].offset < |code| && DecodeAt(code, instrs[k].offset) == Some(instrs[k])
    decreases k
  {
    hide DecodeAt;
    if k > 0 {
      DecodedThere(code, instrs[0].End(), hi, instrs[1..], k - 1);
      assert instrs[k] == instrs[1..][k - 1];
    } else {
      assert DecodeAt(code, lo).Some?;
    }
  }

  /** A body without tokens comes out as it went in. */
  lemma TokenlessStays(resolve: Resolver, input: seq<Byte>)
    requires Compactable(resolve, input) && Tokenless(DecodeFrom(input, 0).value)
    ensures Compacted(resolve, input) == input
  {
    hide WellFormed, Accepted, OutSize, Offsets, Assembled, DecodeAt;
    var instrs := DecodeFrom(input, 0).value;
    DecodeFills(input, 0);
    DecodesConsecutive(input, 0, |input|, instrs);
    AssembledInPlace(resolve, input, instrs, |instrs|);
    assert input[..|input|] == input;
  }
}
