/** CompactCil: a two-pass assembler. The first pass copies instructions while shrinking
    tokens from four octets to three, expanding Array.Empty calls and leaving holes for
    branches; the second fills the holes with relocated distances. */
module Compaction {
  import opened Wrappers
  import opened Bytes
  import opened Cil

  const TYPE_REF: Byte := 1
  const SWITCH_QUOTA := 256

  /** What the metadata says of a token: the row its element type got when the token is a
      recognised Array.Empty instantiation, the compact table and row CompactToken returns,
      or neither. */
  datatype TokenMeaning = EmptyArrayOf(elementRow: UInt16) | Row(table: Byte, row: UInt16) | Unresolved

  type Resolver = int -> TokenMeaning

  /** Mc04Opcodes.IsAllowed. */
  predicate IsAllowed(opcode: int) {
    || opcode == 0 || 0x02 <= opcode <= 0x0e || opcode == 0x11 || 0x13 <= opcode <= 0x20
    || opcode in {0x25, 0x26, CALL} || 0x2a <= opcode <= 0x45 || 0x58 <= opcode <= 0x69
    || opcode in {0x6d, CALLVIRT, NEWOBJ, 0x7b, 0x7d, 0x82, 0x83, 0x84, 0x86, 0x87, 0x88,
                  NEWARR, 0x8e, 0x91, 0x94, 0x9c, 0x9e, 0xd1, 0xd2}
    || 0xb3 <= opcode <= 0xb8 || 0xd6 <= opcode <= 0xdb || 0xfe01 <= opcode <= 0xfe05
  }

  predicate InProfile(i: Instruction) { IsAllowed(i.opcode) && |i.targets| <= SWITCH_QUOTA }

  predicate IsEmptyArrayCall(resolve: Resolver, i: Instruction) {
    i.opcode == CALL && resolve(i.token).EmptyArrayOf?
  }

  predicate Resolved(resolve: Resolver, i: Instruction) {
    i.HasToken() ==> IsEntity(i.token) && (IsEmptyArrayCall(resolve, i) || resolve(i.token).Row?)
  }

  /** An instruction as DecodeAt makes it: its operand parts agree with its opcode. */
  predicate WellFormed(i: Instruction) {
    && OperandOf(i.opcode).Some?
    && (0 <= i.opcode < 0xfe || 0xfe00 <= i.opcode < 0xff00 || i.opcode == 0xff)
    && -0x8000_0000 <= i.token < 0x8000_0000
    && var kind := OperandOf(i.opcode).value;
       && i.size == OpcodeSize(i.opcode) +
                    (if kind.InlineSwitch? then 4 + 4 * |i.targets| else OperandSize(kind))
       && (kind.ShortInlineBrTarget? || kind.InlineBrTarget? ==> |i.targets| == 1)
       && (!IsBranch(kind) ==> i.targets == [])
       && (!IsToken(kind) ==> i.token == 0)
       && (IsToken(kind) || IsBranch(kind) ==> i.immediate == [])
       && (!IsToken(kind) && !IsBranch(kind) ==> |i.immediate| == OperandSize(kind))
       && (kind.ShortInlineBrTarget? ==> -128 <= i.targets[0] - i.End() < 128)
  }

  predicate Accepted(resolve: Resolver, i: Instruction) {
    WellFormed(i) && InProfile(i) && Resolved(resolve, i)
  }

  /** Octets the instruction takes in the output. */
  function OutSize(resolve: Resolver, i: Instruction): nat
    requires WellFormed(i)
  {
    if i.HasToken() && !IsEmptyArrayCall(resolve, i) then i.size - 1 else i.size
  }

  /** The output with every branch operand zero. */
  function Blank(resolve: Resolver, i: Instruction): (s: seq<Byte>)
    requires Accepted(resolve, i)
    ensures |s| == OutSize(resolve, i)
  {
    if IsEmptyArrayCall(resolve, i) then EmptyArray(resolve(i.token).elementRow)
    else
      OpcodeBytes(i.opcode) +
      match OperandOf(i.opcode).value
      case ShortInlineBrTarget => [0]
      case InlineBrTarget => [0, 0, 0, 0]
      case InlineSwitch => Le32(|i.targets|) + Zeros(4 * |i.targets|)
      case _ => Plain(resolve, i)
  }

  /** The operand of an instruction that does not branch. */
  function Plain(resolve: Resolver, i: Instruction): seq<Byte>
    requires Accepted(resolve, i) && !IsEmptyArrayCall(resolve, i)
  {
    if i.HasToken() then [resolve(i.token).table] + Le16(resolve(i.token).row) else i.immediate
  }

  /** ldc.i4.0; newarr TypeRef row. */
  function EmptyArray(row: UInt16): seq<Byte> {
    [LDC_I4_0, NEWARR, TYPE_REF] + Le16(row)
  }

  /** The output with branch operands relocated: `base` is the output offset after the
      instruction and `image` sends input instruction offsets to output offsets. */
  function Emit(resolve: Resolver, i: Instruction, base: int, image: map<int, int>): (s: seq<Byte>)
    requires Accepted(resolve, i) && TargetsOf(i, image)
    ensures |s| == OutSize(resolve, i)
  {
    if IsEmptyArrayCall(resolve, i) then EmptyArray(resolve(i.token).elementRow)
    else
      OpcodeBytes(i.opcode) +
      match OperandOf(i.opcode).value
      case ShortInlineBrTarget => [ByteOf(image[i.targets[0]] - base)]
      case InlineBrTarget => Le32(image[i.targets[0]] - base)
      case InlineSwitch => Le32(|i.targets|) + Distances(i.targets, base, image)
      case _ => Plain(resolve, i)
  }

  /** The relocated distances of a switch, four octets each. */
  function Distances(targets: seq<int>, base: int, image: map<int, int>): (s: seq<Byte>)
    requires forall j :: 0 <= j < |targets| ==> targets[j] in image
    ensures |s| == 4 * |targets|
  {
    seq(4 * |targets|, x requires 0 <= x < 4 * |targets| => Le32(image[targets[x / 4]] - base)[x % 4])
  }

  lemma DistanceOctet(targets: seq<int>, base: int, image: map<int, int>, j: nat, x: nat)
    requires (forall k :: 0 <= k < |targets| ==> targets[k] in image) && j < |targets| && x < 4
    ensures Distances(targets, base, image)[4 * j + x] == Le32(image[targets[j]] - base)[x]
  {
    hide Le32;
    assert (4 * j + x) / 4 == j && (4 * j + x) % 4 == x;
  }

  lemma DistancesGrow(targets: seq<int>, base: int, image: map<int, int>, n: nat)
    requires (forall k :: 0 <= k < |targets| ==> targets[k] in image) && n < |targets|
    ensures Distances(targets[..n + 1], base, image) ==
            Distances(targets[..n], base, image) + Le32(image[targets[n]] - base)
  {
    hide Le32, Distances;
    var longer, shorter := targets[..n + 1], targets[..n];
    var word := Le32(image[targets[n]] - base);
    forall y | 0 <= y < 4 * (n + 1)
      ensures Distances(longer, base, image)[y] == (Distances(shorter, base, image) + word)[y]
    {
      DistanceOctet(longer, base, image, y / 4, y % 4);
      if y < 4 * n { DistanceOctet(shorter, base, image, y / 4, y % 4); }
    }
  }

  datatype Patch = Patch(position: nat, target: int, base: int, width: nat)

  /** The holes an instruction written at output offset `at` leaves. */
  function PatchesOf(resolve: Resolver, i: Instruction, at: nat): seq<Patch>
    requires Accepted(resolve, i)
  {
    var operand := at + OpcodeSize(i.opcode);
    match OperandOf(i.opcode).value
    case ShortInlineBrTarget => [Patch(operand, i.targets[0], operand + 1, 1)]
    case InlineBrTarget => [Patch(operand, i.targets[0], operand + 4, 4)]
    case InlineSwitch => SwitchPatches(i.targets, operand + 4, operand + 4 + 4 * |i.targets|)
    case _ => []
  }

  function SwitchPatches(targets: seq<int>, at: nat, base: int): seq<Patch> {
    seq(|targets|, j requires 0 <= j < |targets| => Patch(at + 4 * j, targets[j], base, 4))
  }

  function Fill(bytes: seq<Byte>, p: Patch, image: map<int, int>): (s: seq<Byte>)
    requires Fillable(p, |bytes|, image)
    ensures |s| == |bytes|
  {
    bytes[..p.position] + Distance(p, image) + bytes[p.position + p.width..]
  }

  function Distance(p: Patch, image: map<int, int>): (s: seq<Byte>)
    requires p.width in {1, 4} && p.target in image
    ensures |s| == p.width
  {
    if p.width == 1 then [ByteOf(image[p.target] - p.base)] else Le32(image[p.target] - p.base)
  }

  predicate Fillable(p: Patch, length: nat, image: map<int, int>) {
    p.position + p.width <= length && p.width in {1, 4} && p.target in image
  }

  predicate Fits(patches: seq<Patch>, length: nat, image: map<int, int>) {
    forall k :: 0 <= k < |patches| ==> Fillable(patches[k], length, image)
  }

  function FillAll(bytes: seq<Byte>, patches: seq<Patch>, image: map<int, int>): (s: seq<Byte>)
    requires Fits(patches, |bytes|, image)
    ensures |s| == |bytes|
  {
    if patches == [] then bytes
    else Fill(FillAll(bytes, patches[..|patches| - 1], image), patches[|patches| - 1], image)
  }

  predicate AllAccepted(resolve: Resolver, instrs: seq<Instruction>) {
    forall k :: 0 <= k < |instrs| ==> Accepted(resolve, instrs[k])
  }

  /** Output offset of the k-th instruction. */
  function NewOffset(resolve: Resolver, instrs: seq<Instruction>, k: nat): nat
    requires k <= |instrs| && AllAccepted(resolve, instrs)
  {
    if k == 0 then 0 else NewOffset(resolve, instrs, k - 1) + OutSize(resolve, instrs[k - 1])
  }

  /** The `offsets` dictionary after k instructions. */
  function Offsets(resolve: Resolver, instrs: seq<Instruction>, k: nat): map<int, int>
    requires k <= |instrs| && AllAccepted(resolve, instrs)
  {
    if k == 0 then map[]
    else Offsets(resolve, instrs, k - 1)[instrs[k - 1].offset := NewOffset(resolve, instrs, k - 1)]
  }

  function Blanks(resolve: Resolver, instrs: seq<Instruction>, k: nat): (s: seq<Byte>)
    requires k <= |instrs| && AllAccepted(resolve, instrs)
    ensures |s| == NewOffset(resolve, instrs, k)
  {
    if k == 0 then [] else Blanks(resolve, instrs, k - 1) + Blank(resolve, instrs[k - 1])
  }

  function Patches(resolve: Resolver, instrs: seq<Instruction>, k: nat): seq<Patch>
    requires k <= |instrs| && AllAccepted(resolve, instrs)
  {
    if k == 0 then []
    else Patches(resolve, instrs, k - 1) + PatchesOf(resolve, instrs[k - 1], NewOffset(resolve, instrs, k - 1))
  }

  predicate TargetsOf(i: Instruction, image: map<int, int>) {
    forall j :: 0 <= j < |i.targets| ==> i.targets[j] in image
  }

  predicate TargetsIn(instrs: seq<Instruction>, image: map<int, int>) {
    forall k :: 0 <= k < |instrs| ==> TargetsOf(instrs[k], image)
  }

  /** The first k instructions, finally assembled. */
  function Assembled(resolve: Resolver, instrs: seq<Instruction>, k: nat, image: map<int, int>): (s: seq<Byte>)
    requires k <= |instrs| && AllAccepted(resolve, instrs) && TargetsIn(instrs, image)
    ensures |s| == NewOffset(resolve, instrs, k)
  {
    if k == 0 then []
    else Assembled(resolve, instrs, k - 1, image) +
         Emit(resolve, instrs[k - 1], NewOffset(resolve, instrs, k), image)
  }

  /** When CompactCil returns: the body decodes, stays in the profile, every token resolves
      and every branch lands on an instruction. */
  predicate Compactable(resolve: Resolver, input: seq<Byte>) {
    var decoded := DecodeFrom(input, 0);
    && decoded.Some?
    && AllAccepted(resolve, decoded.value)
    && TargetsIn(decoded.value, Offsets(resolve, decoded.value, |decoded.value|))
  }

  function Compacted(resolve: Resolver, input: seq<Byte>): seq<Byte>
    requires Compactable(resolve, input)
  {
    var instrs := DecodeFrom(input, 0).value;
    Assembled(resolve, instrs, |instrs|, Offsets(resolve, instrs, |instrs|))
  }

  lemma DecodedIsWellFormed(code: seq<Byte>, pc: nat)
    requires pc < |code| && DecodeAt(code, pc).Some?
    ensures WellFormed(DecodeAt(code, pc).value)
  {
  }

  // ---- Filling the holes gives the assembled bytes ----

  lemma {:induction false} FillAllSplit(bytes: seq<Byte>, first: seq<Patch>, second: seq<Patch>, image: map<int, int>)
    requires Fits(first, |bytes|, image) && Fits(second, |bytes|, image)
    ensures Fits(first + second, |bytes|, image)
    ensures FillAll(bytes, first + second, image) == FillAll(FillAll(bytes, first, image), second, image)
    decreases |second|
  {
    hide Fill, Fillable;
    if second == [] {
      assert first + second == first;
    } else {
      var shorter := second[..|second| - 1];
      FillAllSplit(bytes, first, shorter, image);
      assert (first + second)[..|first + second| - 1] == first + shorter;
    }
  }

  lemma FillFrame(bytes: seq<Byte>, tail: seq<Byte>, p: Patch, image: map<int, int>)
    requires Fillable(p, |bytes|, image)
    ensures Fill(bytes + tail, p, image) == Fill(bytes, p, image) + tail
  {
    hide Distance;
    assert (bytes + tail)[p.position + p.width..] == bytes[p.position + p.width..] + tail;
    assert (bytes + tail)[..p.position] == bytes[..p.position];
  }

  lemma {:induction false} FillAllFrame(bytes: seq<Byte>, tail: seq<Byte>, patches: seq<Patch>, image: map<int, int>)
    requires Fits(patches, |bytes|, image)
    ensures Fits(patches, |bytes + tail|, image)
    ensures FillAll(bytes + tail, patches, image) == FillAll(bytes, patches, image) + tail
    decreases |patches|
  {
    hide Fill;
    if patches != [] {
      var shorter := patches[..|patches| - 1];
      FillAllFrame(bytes, tail, shorter, image);
      FillFrame(FillAll(bytes, shorter, image), tail, patches[|patches| - 1], image);
    }
  }

  lemma FillHole(front: seq<Byte>, hole: seq<Byte>, tail: seq<Byte>, p: Patch, image: map<int, int>)
    requires p.position == |front| && p.width == |hole| && p.width in {1, 4} && p.target in image
    ensures Fill(front + hole + tail, p, image) == front + Distance(p, image) + tail
  {
    hide Distance;
  }

  function Zeros(n: nat): (s: seq<Byte>)
    ensures |s| == n
  {
    seq(n, _ => 0)
  }

  lemma ZerosSplit(m: nat, n: nat)
    ensures Zeros(m + n) == Zeros(m) + Zeros(n)
  {
  }

  lemma {:induction false} FillSwitch(front: seq<Byte>, targets: seq<int>, n: nat, base: int, image: map<int, int>)
    requires n <= |targets| && (forall j :: 0 <= j < |targets| ==> targets[j] in image)
    ensures Fits(SwitchPatches(targets, |front|, base)[..n], |front| + 4 * |targets|, image)
    ensures FillAll(front + Zeros(4 * |targets|), SwitchPatches(targets, |front|, base)[..n], image)
            == front + Distances(targets[..n], base, image) + Zeros(4 * (|targets| - n))
  {
    hide Fill, Le32, Zeros, Distances;
    var patches := SwitchPatches(targets, |front|, base);
    var whole := front + Zeros(4 * |targets|);
    if n == 0 {
      assert patches[..0] == [];
      assert targets[..0] == [];
      assert Distances([], base, image) == [];
      assert front + [] + Zeros(4 * |targets|) == whole;
    } else {
      FillSwitch(front, targets, n - 1, base, image);
      assert patches[..n][..n - 1] == patches[..n - 1];
      DistancesGrow(targets, base, image, n - 1);
      var done := front + Distances(targets[..n - 1], base, image);
      ZerosSplit(4, 4 * (|targets| - n));
      assert FillAll(whole, patches[..n - 1], image) == done + Zeros(4) + Zeros(4 * (|targets| - n));
      FillHole(done, Zeros(4), Zeros(4 * (|targets| - n)), patches[n - 1], image);
      assert done + Distance(patches[n - 1], image) == front + Distances(targets[..n], base, image);
    }
  }

  lemma FillOneHole(front: seq<Byte>, hole: seq<Byte>, p: Patch, image: map<int, int>)
    requires p.position == |front| && p.width == |hole| && p.width in {1, 4} && p.target in image
    ensures Fits([p], |front| + p.width, image)
    ensures FillAll(front + hole, [p], image) == front + Distance(p, image)
  {
    hide Distance;
    FillHole(front, hole, [], p, image);
    assert [p][..0] == [];
    assert front + hole + [] == front + hole;
  }

  lemma Regroup<T>(a: seq<T>, b: seq<T>, c: seq<T>, d: seq<T>)
    ensures a + (b + (c + d)) == a + b + c + d
  {
  }

  lemma FillSwitchOf(resolve: Resolver, front: seq<Byte>, i: Instruction, image: map<int, int>)
    requires Accepted(resolve, i) && TargetsOf(i, image) && OperandOf(i.opcode).value.InlineSwitch?
    ensures var patches := PatchesOf(resolve, i, |front|);
            && Fits(patches, |front| + OutSize(resolve, i), image)
            && FillAll(front + Blank(resolve, i), patches, image)
               == front + Emit(resolve, i, |front| + OutSize(resolve, i), image)
  {
    hide OpcodeBytes, OpcodeSize, Fill, FillAll, Fits, Le32, Zeros, SwitchPatches, Distances, Blank, Emit, PatchesOf,
         OutSize, Accepted;
    SwitchParts(resolve, i, |front|, image);
    var count := |i.targets|;
    var head, word := OpcodeBytes(i.opcode), Le32(count);
    var counted := front + head + word;
    var base := |counted| + 4 * count;
    FillSwitch(counted, i.targets, count, base, image);
    var patches := SwitchPatches(i.targets, |counted|, base);
    SwitchPatchCount(i.targets, |counted|, base);
    assert patches[..count] == patches && i.targets[..count] == i.targets;
    Regroup(front, head, word, Zeros(4 * count));
    Regroup(front, head, word, Distances(i.targets, base, image));
    ZeroNothing(counted + Distances(i.targets, base, image));
  }

  lemma SwitchParts(resolve: Resolver, i: Instruction, at: nat, image: map<int, int>)
    requires Accepted(resolve, i) && TargetsOf(i, image) && OperandOf(i.opcode).value.InlineSwitch?
    ensures 0 <= i.opcode < 0xfe || 0xfe00 <= i.opcode < 0xff00 || i.opcode == 0xff
    ensures var count, operand := |i.targets|, at + OpcodeSize(i.opcode);
            var base := operand + 4 + 4 * count;
            && OutSize(resolve, i) == base - at
            && PatchesOf(resolve, i, at) == SwitchPatches(i.targets, operand + 4, base)
            && Blank(resolve, i) == OpcodeBytes(i.opcode) + (Le32(count) + Zeros(4 * count))
            && Emit(resolve, i, base, image)
               == OpcodeBytes(i.opcode) + (Le32(count) + Distances(i.targets, base, image))
  {
    hide OperandOf, OpcodeBytes, OpcodeSize, Le32, Zeros, IsAllowed, SwitchPatches, Distances;
    CallTakesToken();
  }

  lemma ZeroNothing(s: seq<Byte>)
    ensures s + Zeros(0) == s
  {
  }

  lemma SwitchPatchCount(targets: seq<int>, at: nat, base: int)
    ensures |SwitchPatches(targets, at, base)| == |targets|
  {
  }

  lemma FillPlain(resolve: Resolver, front: seq<Byte>, i: Instruction, image: map<int, int>)
    requires Accepted(resolve, i) && TargetsOf(i, image) && !IsBranch(OperandOf(i.opcode).value)
    ensures PatchesOf(resolve, i, |front|) == []
    ensures Blank(resolve, i) == Emit(resolve, i, |front| + OutSize(resolve, i), image)
  {
    hide OperandOf, OpcodeBytes, OpcodeSize, Le32, Zeros, IsAllowed, Plain, EmptyArray, Distances;
  }

  lemma FillBranch(resolve: Resolver, front: seq<Byte>, i: Instruction, image: map<int, int>)
    requires Accepted(resolve, i) && TargetsOf(i, image)
    requires OperandOf(i.opcode).value in {ShortInlineBrTarget, InlineBrTarget}
    ensures var patches := PatchesOf(resolve, i, |front|);
            && Fits(patches, |front| + OutSize(resolve, i), image)
            && FillAll(front + Blank(resolve, i), patches, image)
               == front + Emit(resolve, i, |front| + OutSize(resolve, i), image)
  {
    hide OpcodeBytes, OpcodeSize, Fill, FillAll, Fits, Distance, Blank, Emit, PatchesOf, OutSize, Accepted;
    var p, hole := BranchParts(resolve, i, |front|, image);
    var code := OpcodeBytes(i.opcode);
    FillOneHole(front + code, hole, p, image);
    Associate(front, code, hole);
    Associate(front, code, Distance(p, image));
  }

  lemma BranchParts(resolve: Resolver, i: Instruction, at: nat, image: map<int, int>)
    returns (p: Patch, hole: seq<Byte>)
    requires Accepted(resolve, i) && TargetsOf(i, image)
    requires OperandOf(i.opcode).value in {ShortInlineBrTarget, InlineBrTarget}
    ensures 0 <= i.opcode < 0xfe || 0xfe00 <= i.opcode < 0xff00 || i.opcode == 0xff
    ensures p.position == at + OpcodeSize(i.opcode) && p.width == |hole| && p.width in {1, 4} && p.target in image
    ensures PatchesOf(resolve, i, at) == [p] && OutSize(resolve, i) == OpcodeSize(i.opcode) + p.width
    ensures Blank(resolve, i) == OpcodeBytes(i.opcode) + hole
    ensures Emit(resolve, i, at + OutSize(resolve, i), image) == OpcodeBytes(i.opcode) + Distance(p, image)
  {
    hide OperandOf, OpcodeBytes, OpcodeSize, Le32, IsAllowed, Zeros, Distances, Plain;
    CallTakesToken();
    p := PatchesOf(resolve, i, at)[0];
    hole := if OperandOf(i.opcode).value.ShortInlineBrTarget? then [0] else [0, 0, 0, 0];
  }

  lemma Associate<T>(a: seq<T>, b: seq<T>, c: seq<T>)
    ensures a + (b + c) == a + b + c
  {
  }

  lemma FillOne(resolve: Resolver, front: seq<Byte>, i: Instruction, image: map<int, int>)
    requires Accepted(resolve, i) && TargetsOf(i, image)
    ensures var patches := PatchesOf(resolve, i, |front|);
            && Fits(patches, |front| + OutSize(resolve, i), image)
            && FillAll(front + Blank(resolve, i), patches, image)
               == front + Emit(resolve, i, |front| + OutSize(resolve, i), image)
  {
    hide OperandOf, OpcodeBytes, Fill, Le32, Zeros, IsAllowed, PatchesOf, Blank, Emit, OutSize;
    if OperandOf(i.opcode).value.InlineSwitch? {
      FillSwitchOf(resolve, front, i, image);
    } else if IsBranch(OperandOf(i.opcode).value) {
      FillBranch(resolve, front, i, image);
    } else {
      FillPlain(resolve, front, i, image);
    }
  }

  lemma CallTakesToken()
    ensures OperandOf(CALL) == Some(InlineMethod)
  {
  }

  /** Filling every hole of the blank output gives the assembled output. */
  lemma {:induction false} FillingAssembles(resolve: Resolver, instrs: seq<Instruction>, k: nat, image: map<int, int>)
    requires k <= |instrs| && AllAccepted(resolve, instrs) && TargetsIn(instrs, image)
    ensures Fits(Patches(resolve, instrs, k), NewOffset(resolve, instrs, k), image)
    ensures FillAll(Blanks(resolve, instrs, k), Patches(resolve, instrs, k), image)
            == Assembled(resolve, instrs, k, image)
  {
    hide WellFormed, OutSize, Blank, Emit, PatchesOf, Fill, FillAll, Fits, Accepted;
    if k > 0 {
      FillingAssembles(resolve, instrs, k - 1, image);
      var done := Blanks(resolve, instrs, k - 1);
      var i := instrs[k - 1];
      FillAllFrame(done, Blank(resolve, i), Patches(resolve, instrs, k - 1), image);
      FillOne(resolve, Assembled(resolve, instrs, k - 1, image), i, image);
      FillAllSplit(done + Blank(resolve, i), Patches(resolve, instrs, k - 1),
                   PatchesOf(resolve, i, |done|), image);
    } else {
      FillNothing(image);
    }
  }

  lemma FillNothing(image: map<int, int>)
    ensures Fits([], 0, image) && FillAll([], [], image) == []
  {
  }

  // ---- Offsets: a monotone, contracting relocation ----

  /** Instructions follow one another without gaps from `lo`. */
  predicate Consecutive(instrs: seq<Instruction>, lo: nat) {
    forall k :: 0 <= k < |instrs| ==>
      instrs[k].size > 0 && instrs[k].offset == (if k == 0 then lo else instrs[k - 1].End())
  }

  /** Input offset of instruction k, or the end of the body for k == |instrs|. */
  function OldOffset(instrs: seq<Instruction>, lo: nat, k: nat): int
    requires k <= |instrs|
  {
    if k == 0 then lo else instrs[k - 1].End()
  }

  lemma OffsetIs(instrs: seq<Instruction>, lo: nat, k: nat)
    requires Consecutive(instrs, lo) && k < |instrs|
    ensures instrs[k].offset == OldOffset(instrs, lo, k) && instrs[k].End() == OldOffset(instrs, lo, k + 1)
  {
  }

  lemma {:induction false} DecodesConsecutive(code: seq<Byte>, lo: nat, hi: nat, instrs: seq<Instruction>)
    requires Decodes(code, lo, hi, instrs)
    ensures Consecutive(instrs, lo) && OldOffset(instrs, lo, |instrs|) == hi
    ensures forall k :: 0 <= k < |instrs| ==> WellFormed(instrs[k])
    decreases |instrs|
  {
    hide DecodeAt, WellFormed, OperandOf;
    if instrs != [] {
      var first, rest := instrs[0], instrs[1..];
      DecodesConsecutive(code, first.End(), hi, rest);
      DecodedIsWellFormed(code, lo);
      assert DecodeAt(code, lo).value == first;
      forall k | 0 <= k < |instrs|
        ensures WellFormed(instrs[k])
        ensures instrs[k].size > 0 && instrs[k].offset == (if k == 0 then lo else instrs[k - 1].End())
      {
        if k > 0 { assert instrs[k] == rest[k - 1]; }
        if k > 1 { assert instrs[k - 1] == rest[k - 2]; }
      }
      if rest != [] { assert instrs[|instrs| - 1] == rest[|rest| - 1]; }
    }
  }

  /** Between any two instructions the output distance is at most the input distance. */
  lemma {:induction false} RelocationContracts(resolve: Resolver, instrs: seq<Instruction>, lo: nat, j: nat, k: nat)
    requires AllAccepted(resolve, instrs) && Consecutive(instrs, lo) && j <= k <= |instrs|
    ensures 0 <= NewOffset(resolve, instrs, k) - NewOffset(resolve, instrs, j)
              <= OldOffset(instrs, lo, k) - OldOffset(instrs, lo, j)
    ensures j < k ==> OldOffset(instrs, lo, j) < OldOffset(instrs, lo, k)
    decreases k - j
  {
    hide WellFormed, OperandOf, IsAllowed;
    if j < k {
      RelocationContracts(resolve, instrs, lo, j, k - 1);
      OutSizeShrinks(resolve, instrs[k - 1]);
    }
  }

  lemma OutSizeShrinks(resolve: Resolver, i: Instruction)
    requires Accepted(resolve, i)
    ensures 0 < OutSize(resolve, i) <= i.size
  {
  }

  /** The dictionary sends exactly the instruction offsets to their output offsets. */
  lemma {:induction false} OffsetsSound(resolve: Resolver, instrs: seq<Instruction>, k: nat)
    requires AllAccepted(resolve, instrs) && Consecutive(instrs, 0) && k <= |instrs|
    ensures forall j :: 0 <= j < k ==> instrs[j].offset in Offsets(resolve, instrs, k) &&
                                       Offsets(resolve, instrs, k)[instrs[j].offset] == NewOffset(resolve, instrs, j)
    ensures forall t :: t in Offsets(resolve, instrs, k) ==> exists j :: 0 <= j < k && instrs[j].offset == t
  {
    hide WellFormed, OutSize, OperandOf, IsAllowed, NewOffset, Accepted;
    OffsetsOnly(resolve, instrs, k);
    if k > 0 {
      OffsetsSound(resolve, instrs, k - 1);
      forall j | 0 <= j < k - 1
        ensures instrs[j].offset < instrs[k - 1].offset
      {
        OffsetsAscend(resolve, instrs, j, k - 1);
      }
    }
  }

  lemma OffsetsAscend(resolve: Resolver, instrs: seq<Instruction>, j: nat, k: nat)
    requires AllAccepted(resolve, instrs) && Consecutive(instrs, 0) && j < k < |instrs|
    ensures instrs[j].offset < instrs[k].offset
  {
    hide Accepted, OldOffset, NewOffset;
    RelocationContracts(resolve, instrs, 0, j, k);
    OffsetIs(instrs, 0, j);
    OffsetIs(instrs, 0, k);
  }

  lemma {:induction false} OffsetsOnly(resolve: Resolver, instrs: seq<Instruction>, k: nat)
    requires AllAccepted(resolve, instrs) && k <= |instrs|
    ensures forall t :: t in Offsets(resolve, instrs, k) ==> exists j :: 0 <= j < k && instrs[j].offset == t
  {
    hide WellFormed, OutSize, OperandOf, IsAllowed, NewOffset, Accepted;
    if k > 0 {
      OffsetsOnly(resolve, instrs, k - 1);
      forall t | t in Offsets(resolve, instrs, k)
        ensures exists j :: 0 <= j < k && instrs[j].offset == t
      {
        if t != instrs[k - 1].offset { assert t in Offsets(resolve, instrs, k - 1); }
      }
    }
  }

  lemma OffsetIndex(resolve: Resolver, instrs: seq<Instruction>, target: int) returns (j: nat)
    requires AllAccepted(resolve, instrs) && Consecutive(instrs, 0)
    requires target in Offsets(resolve, instrs, |instrs|)
    ensures j < |instrs| && instrs[j].offset == target
    ensures Offsets(resolve, instrs, |instrs|)[target] == NewOffset(resolve, instrs, j)
  {
    hide WellFormed, OutSize, OperandOf, IsAllowed, Offsets, NewOffset;
    OffsetsSound(resolve, instrs, |instrs|);
    j :| 0 <= j < |instrs| && instrs[j].offset == target;
  }

  /** A relocated branch never travels further than the original one, in either direction. */
  lemma BranchContracts(resolve: Resolver, instrs: seq<Instruction>, k: nat, target: int)
    requires AllAccepted(resolve, instrs) && Consecutive(instrs, 0) && k < |instrs|
    requires target in Offsets(resolve, instrs, |instrs|)
    ensures var before := target - instrs[k].End();
            var after := Offsets(resolve, instrs, |instrs|)[target] - NewOffset(resolve, instrs, k + 1);
            0 <= after <= before || before <= after <= 0
  {
    hide WellFormed, OutSize, OperandOf, IsAllowed, Offsets, NewOffset, AllAccepted, Consecutive, OldOffset;
    var j := OffsetIndex(resolve, instrs, target);
    OffsetIs(instrs, 0, j);
    OffsetIs(instrs, 0, k);
    if j >= k + 1 {
      RelocationContracts(resolve, instrs, 0, k + 1, j);
    } else {
      RelocationContracts(resolve, instrs, 0, j, k + 1);
    }
  }

  /** A branch target that leaves the 32-bit range wraps to a negative offset, so whether the
      source wraps or throws, the branch is refused as this model's unbounded sum is. */
  lemma WrappedTargetIsNoInstruction(length: int, target: int)
    requires 0 <= length < 0x8000_0000 && -0x8000_0000 <= target < 0x1_0000_0000
    ensures var wrapped := (target + 0x8000_0000) % 0x1_0000_0000 - 0x8000_0000;
            if target < 0x8000_0000 then wrapped == target else wrapped < 0 && target >= length
  {
  }
}
