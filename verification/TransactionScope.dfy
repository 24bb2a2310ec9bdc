/** RewriteTransactionScope: recognise the one try/finally a C# `using var` declaration of a
    TransactionScope compiles to, and replace it by straight-line Begin and Commit or Abort calls. */
module TransactionScope {
  import opened Wrappers
  import opened Bytes
  import opened Cil
  import opened CilReading
  import opened Compaction
  import opened Splicing

  /** TransactionControl: 0, 1, 2 and 3. A nil token controls nothing. */
  datatype Control = NoControl | Constructor | Complete | Dispose

  type Controls = int -> Control

  datatype RegionKind = Finally | OtherKind

  datatype Region = Region(kind: RegionKind, tryOffset: nat, tryLength: nat, handlerOffset: nat, handlerLength: nat)
  {
    function TryEnd(): nat { tryOffset + tryLength }
    function HandlerEnd(): nat { handlerOffset + handlerLength }
  }

  datatype Projection = Begin | Commit | Abort

  function ProjectionOf(control: Control): Option<Projection> {
    match control
    case NoControl => None
    case Constructor => Some(Begin)
    case Complete => Some(Commit)
    case Dispose => Some(Abort)
  }

  /** LocalIndex: the local an instruction stores to, or loads from. */
  function LocalIndex(i: Instruction, store: bool): Option<int> {
    if !store && 0x06 <= i.opcode <= 0x09 then Some(i.opcode - 0x06)
    else if store && 0x0a <= i.opcode <= 0x0d then Some(i.opcode - 0x0a)
    else if !store && i.opcode in {0x11, 0xfe0c} then Some(i.variable)
    else if store && i.opcode in {0x13, 0xfe0e} then Some(i.variable)
    else None
  }

  /** The parts of a recognised body, in order. `completion` is empty or ldloc; callvirt Complete. */
  datatype Scope = Scope(prefix: seq<Instruction>, ctor: Instruction, store: Instruction, payload: seq<Instruction>,
                         completion: seq<Instruction>, exit: Instruction, handler: seq<Instruction>,
                           tail: seq<Instruction>)
  {
    function Whole(): seq<Instruction> {
      prefix + [ctor, store] + payload + completion + [exit] + handler + tail
    }

    predicate Completed() { completion != [] }

    function PayloadEnd(region: Region): int {
      if payload == [] then region.tryOffset else payload[|payload| - 1].End()
    }

    /** The member the closing call names. */
    function Closing(): int
      requires |completion| in {0, 2} && |handler| == 5
    {
      if Completed() then completion[1].token else handler[3].token
    }
  }

  predicate BranchesWithin(i: Instruction, lo: int, hi: int) {
    forall j :: 0 <= j < |i.targets| ==> lo <= i.targets[j] < hi
  }

  predicate AllWithin(instrs: seq<Instruction>, lo: int, hi: int) {
    forall k :: 0 <= k < |instrs| ==> BranchesWithin(instrs[k], lo, hi)
  }

  predicate IsCompletion(controls: Controls, completion: seq<Instruction>, local: int) {
    completion == [] ||
    (|completion| == 2 && LocalIndex(completion[0], false) == Some(local) &&
     completion[1].opcode == CALLVIRT && controls(completion[1].token) == Complete)
  }

  predicate IsDisposal(controls: Controls, handler: seq<Instruction>, local: int) {
    && |handler| == 5
    && LocalIndex(handler[0], false) == Some(local)
    && handler[1].opcode in {0x2c, 0x39} && handler[1].targets == [handler[4].offset]
    && LocalIndex(handler[2], false) == Some(local)
    && handler[3].opcode == CALLVIRT && controls(handler[3].token) == Dispose
    && handler[4].opcode == ENDFINALLY
  }

  predicate IsPayload(controls: Controls, i: Instruction, local: int, lo: int, hi: int) {
    && controls(i.token) == NoControl
    && LocalIndex(i, false) != Some(local) && LocalIndex(i, true) != Some(local)
    && i.opcode !in {LEAVE, LEAVE_S, ENDFINALLY, RET}
    && BranchesWithin(i, lo, hi)
  }

  predicate IsOpening(controls: Controls, region: Region, ctor: Instruction, store: Instruction) {
    && ctor.opcode == NEWOBJ && controls(ctor.token) == Constructor
    && store.End() == region.tryOffset && LocalIndex(store, true).Some?
  }

  predicate IsExit(region: Region, exit: Instruction) {
    exit.End() == region.TryEnd() && exit.opcode in {LEAVE, LEAVE_S} && exit.targets == [region.HandlerEnd()]
  }

  predicate ArePayload(controls: Controls, payload: seq<Instruction>, local: int, lo: int, hi: int) {
    forall k :: 0 <= k < |payload| ==> IsPayload(controls, payload[k], local, lo, hi)
  }

  /** The canonical body: exactly what the source demands of the parts. */
  predicate IsScope(controls: Controls, length: nat, region: Region, s: Scope) {
    && region.kind == Finally
    && region.TryEnd() == region.handlerOffset && region.HandlerEnd() <= length
    && IsOpening(controls, region, s.ctor, s.store)
    && var local := LocalIndex(s.store, true).value;
       && IsExit(region, s.exit)
       && IsCompletion(controls, s.completion, local)
       && IsDisposal(controls, s.handler, local) && s.handler[4].End() == region.HandlerEnd()
       && ArePayload(controls, s.payload, local, region.tryOffset, s.PayloadEnd(region))
       && AllWithin(s.prefix, 0, s.ctor.offset)
       && AllWithin(s.tail, region.HandlerEnd(), length)
  }

  predicate IsScopeOf(controls: Controls, code: seq<Byte>, region: Region, s: Scope) {
    DecodeFrom(code, 0) == Some(s.Whole()) && IsScope(controls, |code|, region, s)
  }

  function ProjectedCall(token: int): (r: seq<Byte>)
    ensures |r| == 5
  {
    [CALL] + Le32(token)
  }

  /** The rewritten octets. */
  function Spliced(code: seq<Byte>, region: Region, s: Scope): seq<Byte>
    requires s.ctor.offset <= |code| && region.tryOffset <= s.PayloadEnd(region) <= |code|
             && region.HandlerEnd() <= |code|
    requires |s.completion| in {0, 2} && |s.handler| == 5
  {
    code[..s.ctor.offset] + ProjectedCall(s.ctor.token) +
    code[region.tryOffset..s.PayloadEnd(region)] + ProjectedCall(s.Closing()) + code[region.HandlerEnd()..]
  }

  // ---- The parts as the source finds them ----

  /** The LINQ filter on offsets, in list order. */
  function Between(instrs: seq<Instruction>, lo: int, hi: int): seq<Instruction> {
    if instrs == [] then []
    else
      var last := instrs[|instrs| - 1];
      Between(instrs[..|instrs| - 1], lo, hi) + if lo <= last.offset < hi then [last] else []
  }

  /** The last three try instructions before and at the exit read as a Complete call. */
  predicate EndsCompleted(controls: Controls, store: Instruction, body: seq<Instruction>) {
    var n := |body|;
    n >= 3 && LocalIndex(store, true).Some? && LocalIndex(body[n - 3], false) == LocalIndex(store, true) &&
    body[n - 2].opcode == CALLVIRT && controls(body[n - 2].token) == Complete
  }

  function Joined(controls: Controls, before: seq<Instruction>, body: seq<Instruction>, handler: seq<Instruction>,
                  tail: seq<Instruction>): Scope
    requires |before| >= 2 && |body| >= 1
  {
    var b, n := |before|, |body|;
    var c := if EndsCompleted(controls, before[b - 1], body) then 2 else 0;
    Scope(before[..b - 2], before[b - 2], before[b - 1], body[..n - 1 - c], body[n - 1 - c..n - 1], body[n - 1],
          handler, tail)
  }

  /** The instructions before the try block, in it, in the handler and behind it. */
  function Parts(controls: Controls, length: nat, region: Region, instrs: seq<Instruction>): (s: Option<Scope>)
    ensures s.Some? ==> |s.value.completion| in {0, 2} && |s.value.handler| == 5
  {
    var before := Between(instrs, 0, region.tryOffset);
    var body := Between(instrs, region.tryOffset, region.TryEnd());
    var handler := Between(instrs, region.handlerOffset, region.HandlerEnd());
    if |before| < 2 || |body| == 0 || |handler| != 5 then None
    else Some(Joined(controls, before, body, handler, Between(instrs, region.HandlerEnd(), length)))
  }

  /** Branches before the constructor stay before it; branches behind the handler stay behind it. */
  predicate Guarded(instrs: seq<Instruction>, constructorStart: int, handlerEnd: int, length: int) {
    forall k :: 0 <= k < |instrs| ==>
      if instrs[k].offset < constructorStart then BranchesWithin(instrs[k], 0, constructorStart)
      else instrs[k].offset >= handlerEnd ==> BranchesWithin(instrs[k], handlerEnd, length)
  }

  /** What the source demands of the parts. */
  predicate Canonical(controls: Controls, length: nat, region: Region, instrs: seq<Instruction>, s: Scope) {
    && region.kind == Finally
    && region.TryEnd() == region.handlerOffset && region.HandlerEnd() <= length
    && IsOpening(controls, region, s.ctor, s.store)
    && var local := LocalIndex(s.store, true).value;
       && IsExit(region, s.exit)
       && IsDisposal(controls, s.handler, local) && s.handler[4].End() == region.HandlerEnd()
       && ArePayload(controls, s.payload, local, region.tryOffset, s.PayloadEnd(region))
       && Guarded(instrs, s.ctor.offset, region.HandlerEnd(), length)
  }

  /** The ranges the stream is given lie in the body. */
  predicate Writable(code: seq<Byte>, region: Region, s: Scope) {
    s.ctor.offset <= |code| && region.tryOffset <= s.PayloadEnd(region) <= |code| && region.HandlerEnd() <= |code|
  }

  predicate Recognises(controls: Controls, code: seq<Byte>, regions: seq<Region>, instrs: seq<Instruction>) {
    |regions| == 1 && Parts(controls, |code|, regions[0], instrs).Some? &&
    Canonical(controls, |code|, regions[0], instrs, Parts(controls, |code|, regions[0], instrs).value)
  }

  /** When RewriteTransactionScope returns, given the list Decode gave it. */
  predicate Rewritable(controls: Controls, code: seq<Byte>, regions: seq<Region>, instrs: seq<Instruction>) {
    if regions == [] then forall k :: 0 <= k < |instrs| ==> controls(instrs[k].token) == NoControl
    else Recognises(controls, code, regions, instrs) &&
         Writable(code, regions[0], Parts(controls, |code|, regions[0], instrs).value)
  }

  // ---- The parts are determined by the exception region ----

  /** How many leading instructions start before `x`. */
  function Below(instrs: seq<Instruction>, x: int): (n: nat)
    ensures n <= |instrs|
  {
    if instrs == [] || instrs[0].offset >= x then 0 else 1 + Below(instrs[1..], x)
  }

  lemma {:induction false} BelowIs(instrs: seq<Instruction>, k: nat, x: int)
    requires forall j :: 0 <= j < |instrs| - 1 ==> instrs[j].offset < instrs[j + 1].offset
    requires k <= |instrs| && (k < |instrs| ==> instrs[k].offset >= x) && (k > 0 ==> instrs[k - 1].offset < x)
    ensures Below(instrs, x) == k
    decreases k
  {
    if k > 0 {
      OffsetsAscend(instrs, 0, k - 1);
      BelowIs(instrs[1..], k - 1, x);
    }
  }

  lemma {:induction false} OffsetsAscend(instrs: seq<Instruction>, j: nat, k: nat)
    requires forall m :: 0 <= m < |instrs| - 1 ==> instrs[m].offset < instrs[m + 1].offset
    requires j <= k < |instrs|
    ensures instrs[j].offset <= instrs[k].offset && (j < k ==> instrs[j].offset < instrs[k].offset)
    decreases k - j
  {
    if j < k { OffsetsAscend(instrs, j, k - 1); }
  }

  lemma {:induction false} BelowSplits(instrs: seq<Instruction>, x: int)
    requires forall j :: 0 <= j < |instrs| - 1 ==> instrs[j].offset < instrs[j + 1].offset
    ensures forall k :: 0 <= k < |instrs| ==> (instrs[k].offset < x <==> k < Below(instrs, x))
  {
    if instrs != [] {
      if instrs[0].offset < x {
        BelowSplits(instrs[1..], x);
        forall k | 0 <= k < |instrs|
          ensures instrs[k].offset < x <==> k < Below(instrs, x)
        {
          if k > 0 { assert instrs[k] == instrs[1..][k - 1]; }
        }
      } else {
        forall k | 0 <= k < |instrs|
          ensures instrs[k].offset >= x
        {
          OffsetsAscend(instrs, 0, k);
        }
      }
    }
  }

  /** The parts cut at instruction indices p, q and h, with or without a completion. */
  function Cut(instrs: seq<Instruction>, p: nat, q: nat, h: nat, completed: bool): Scope
    requires 2 <= p < q <= h <= |instrs| && (completed ==> p + 3 <= q)
  {
    var c := if completed then 2 else 0;
    Scope(instrs[..p - 2], instrs[p - 2], instrs[p - 1], instrs[p..q - 1 - c], instrs[q - 1 - c..q - 1],
          instrs[q - 1], instrs[q..h], instrs[h..])
  }

  lemma CutWhole(instrs: seq<Instruction>, p: nat, q: nat, h: nat, completed: bool)
    requires 2 <= p < q <= h <= |instrs| && (completed ==> p + 3 <= q)
    ensures Cut(instrs, p, q, h, completed).Whole() == instrs
  {
  }

  lemma WholeCuts(s: Scope)
    requires |s.completion| in {0, 2} && |s.handler| == 5
    ensures var p := |s.prefix| + 2;
            var q := p + |s.payload| + |s.completion| + 1;
            && q + 5 <= |s.Whole()| && s.Whole()[p - 1] == s.store && s.Whole()[q - 1] == s.exit
            && s.Whole()[q + 4] == s.handler[4] && s == Cut(s.Whole(), p, q, q + 5, s.Completed())
  {
    var w := s.Whole();
    var p := |s.prefix| + 2;
    var q := p + |s.payload| + |s.completion| + 1;
    var c := |s.completion|;
    assert w[..p - 2] == s.prefix && w[p - 2] == s.ctor && w[p - 1] == s.store;
    assert w[p..q - 1 - c] == s.payload && w[q - 1 - c..q - 1] == s.completion && w[q - 1] == s.exit;
    assert w[q..q + 5] == s.handler && w[q + 5..] == s.tail;
    assert w[q + 4] == w[q..q + 5][4];
  }

  /** A recognised scope is the cut at the region's boundaries. */
  lemma ScopeIsCut(controls: Controls, length: nat, region: Region, s: Scope)
    requires IsScope(controls, length, region, s) && Consecutive(s.Whole(), 0)
    ensures var p, q, h := Below(s.Whole(), region.tryOffset), Below(s.Whole(), region.TryEnd()),
            Below(s.Whole(), region.HandlerEnd());
            && 2 <= p < q && h == q + 5 <= |s.Whole()| && (s.Completed() ==> p + 3 <= q)
            && s == Cut(s.Whole(), p, q, h, s.Completed())
  {
    hide IsPayload, AllWithin, Below, Cut, Scope.Whole, LocalIndex;
    WholeCuts(s);
    var w := s.Whole();
    var p := |s.prefix| + 2;
    var q := p + |s.payload| + |s.completion| + 1;
    BelowIs(w, p, region.tryOffset);
    BelowIs(w, q, region.TryEnd());
    BelowIs(w, q + 5, region.HandlerEnd());
  }

  // ---- The method ----

  /** The writer's record of projected members; `controls` answers TransactionControl. */
  class ScopeRewriter {
    const controls: Controls
    var projected: map<int, Projection>

    constructor (controls: Controls)
      ensures this.controls == controls && projected == map[] && Valid()
    {
      this.controls := controls;
      projected := map[];
    }

    /** Every member is projected to the name its control demands. */
    ghost predicate Valid()
      reads this
    {
      forall t :: t in projected ==> ProjectionOf(controls(t)) == Some(projected[t])
    }

    /** False is the "Conflicting TransactionScope projection" exception. */
    method ProjectTransaction(member: int, name: Projection) returns (ok: bool)
      requires Valid() && ProjectionOf(controls(member)) == Some(name)
      modifies this
      ensures ok && Valid() && projected == old(projected)[member := name]
    {
      if member in projected && projected[member] != name { return false; }
      projected := projected[member := name];
      return true;
    }

    /** None is an exception, or a body whose decoding never ends. */
    method RewriteTransactionScope(code: seq<Byte>, regions: seq<Region>) returns (result: Option<seq<Byte>>)
      requires Valid()
      modifies this
      ensures Valid()
      ensures var reading := ReadFrom(Decoder, code, 0, {});
              result.Some? <==> reading.Listed? && Rewritable(controls, code, regions, reading.instrs)
      ensures result.Some? && regions == [] ==> result.value == code
      ensures result.Some? && regions != [] ==>
                var s := Parts(controls, |code|, regions[0], ReadFrom(Decoder, code, 0, {}).instrs).value;
                && result.value == Spliced(code, regions[0], s)
                && projected == old(projected)[s.ctor.token := Begin]
                                              [s.Closing() := if s.Completed() then Commit else Abort]
      ensures var reading := ReadFrom(Decoder, code, 0, {});
              !reading.Listed? || !Recognises(controls, code, regions, reading.instrs) ==> projected == old(projected)
    {
      hide Parts, Canonical, Spliced, ProjectedCall, Scope.PayloadEnd, Scope.Closing, ReadFrom;
      var reading := Decode(code);
      if !reading.Listed? { return None; }
      var instructions := reading.instrs;
      if regions == [] {
        for k := 0 to |instructions|
          invariant forall j :: 0 <= j < k ==> controls(instructions[j].token) == NoControl
        {
          if controls(instructions[k].token) != NoControl { return None; }
        }
        return Some(code);
      }
      if |regions| != 1 { return None; }
      var region := regions[0];
      var found := FindScope(controls, |code|, region, instructions);
      if found.None? { return None; }
      var s := found.value;
      RecognisedControls(controls, |code|, region, instructions);
      var begun := ProjectTransaction(s.ctor.token, Begin);
      var closed := ProjectTransaction(s.Closing(), if s.Completed() then Commit else Abort);
      if !begun || !closed || !Writable(code, region, s) { return None; }
      var output := WriteSpliced(code, region, s);
      return Some(output);
    }
  }

  /** The stream writes. */
  method WriteSpliced(code: seq<Byte>, region: Region, s: Scope) returns (output: seq<Byte>)
    requires Writable(code, region, s) && |s.completion| in {0, 2} && |s.handler| == 5
    ensures output == Spliced(code, region, s)
  {
    hide ProjectedCall, Scope.PayloadEnd, Scope.Closing;
    output := code[..s.ctor.offset];
    output := output + ProjectedCall(s.ctor.token);
    output := output + code[region.tryOffset..s.PayloadEnd(region)];
    output := output + ProjectedCall(s.Closing());
    output := output + code[region.HandlerEnd()..];
  }

  /** The two members the rewrite names control what their projections say. */
  lemma RecognisedControls(controls: Controls, length: nat, region: Region, instrs: seq<Instruction>)
    requires Parts(controls, length, region, instrs).Some?
    requires Canonical(controls, length, region, instrs, Parts(controls, length, region, instrs).value)
    ensures var s := Parts(controls, length, region, instrs).value;
            && controls(s.ctor.token) == Constructor
            && controls(s.Closing()) == if s.Completed() then Complete else Dispose
  {
    hide Between, ArePayload, Guarded;
    var body := Between(instrs, region.tryOffset, region.TryEnd());
    var s := Parts(controls, length, region, instrs).value;
    if s.Completed() { assert s.completion[1] == body[|body| - 2]; }
  }

  lemma IsScopeControls(controls: Controls, length: nat, region: Region, s: Scope)
    requires IsScope(controls, length, region, s)
    ensures |s.completion| in {0, 2} && |s.handler| == 5
    ensures controls(s.ctor.token) == Constructor
    ensures controls(s.Closing()) == if s.Completed() then Complete else Dispose
  {
  }

  lemma DecodedFacts(code: seq<Byte>, instrs: seq<Instruction>) returns (ok: bool)
    requires DecodeFrom(code, 0) == Some(instrs)
    ensures Decodes(code, 0, |code|, instrs) && Consecutive(instrs, 0)
    ensures forall j :: 0 <= j < |instrs| - 1 ==> instrs[j].offset < instrs[j + 1].offset
  {
    hide DecodeAt, WellFormed;
    DecodeFills(code, 0);
    DecodesConsecutive(code, 0, |code|, instrs);
    ok := true;
  }

  /** Where the parts lie in the body. */
  predicate Partition(code: seq<Byte>, region: Region, s: Scope) {
    && |s.completion| in {0, 2} && |s.handler| == 5
    && s.ctor.offset <= region.tryOffset <= s.PayloadEnd(region) <= region.TryEnd() <= region.HandlerEnd() <= |code|
    && Decodes(code, 0, s.ctor.offset, s.prefix)
    && Decodes(code, s.ctor.offset, region.tryOffset, [s.ctor, s.store])
    && Decodes(code, region.tryOffset, s.PayloadEnd(region), s.payload)
    && Decodes(code, s.PayloadEnd(region), region.TryEnd(), s.completion + [s.exit])
    && Decodes(code, region.TryEnd(), region.HandlerEnd(), s.handler)
    && Decodes(code, region.HandlerEnd(), |code|, s.tail)
  }

  lemma ScopePartition(controls: Controls, code: seq<Byte>, region: Region, s: Scope)
    requires IsScopeOf(controls, code, region, s)
    ensures Partition(code, region, s)
  {
    hide DecodeAt, IsPayload, AllWithin, LocalIndex, Decodes, DecodeFrom;
    var ok := DecodedFacts(code, s.Whole());
    var part := s.completion + [s.exit];
    var a := s.prefix + ([s.ctor, s.store] + (s.payload + (part + (s.handler + s.tail))));
    assert s.Whole() == a;
    var m1 := DecodesSplit(code, 0, |code|, s.prefix, [s.ctor, s.store] + (s.payload + (part + (s.handler + s.tail))));
    var m2 := DecodesSplit(code, m1, |code|, [s.ctor, s.store], s.payload + (part + (s.handler + s.tail)));
    var m3 := DecodesSplit(code, m2, |code|, s.payload, part + (s.handler + s.tail));
    var m4 := DecodesSplit(code, m3, |code|, part, s.handler + s.tail);
    var m5 := DecodesSplit(code, m4, |code|, s.handler, s.tail);
    DecodesBounds(code, m1, m2, [s.ctor, s.store]);
    DecodesBounds(code, m2, m3, s.payload);
    DecodesBounds(code, m3, m4, part);
    DecodesBounds(code, m4, m5, s.handler);
    DecodesBounds(code, m5, |code|, s.tail);
    assert [s.ctor, s.store][0] == s.ctor && [s.ctor, s.store][1] == s.store && part[|part| - 1] == s.exit;
  }

  /** The LINQ filter `Offset >= lo && Offset < hi`. */
  method FilterOffsets(instrs: seq<Instruction>, lo: int, hi: int) returns (kept: seq<Instruction>)
    ensures kept == Between(instrs, lo, hi)
  {
    kept := [];
    for k := 0 to |instrs|
      invariant kept == Between(instrs[..k], lo, hi)
    {
      assert instrs[..k + 1][..k] == instrs[..k];
      if lo <= instrs[k].offset < hi { kept := kept + [instrs[k]]; }
    }
    assert instrs[..|instrs|] == instrs;
  }

  /** The parts, if they have the canonical shape. */
  method FindScope(controls: Controls, length: nat, region: Region, instrs: seq<Instruction>)
    returns (found: Option<Scope>)
    ensures var parts := Parts(controls, length, region, instrs);
            found == if parts.Some? && Canonical(controls, length, region, instrs, parts.value) then parts else None
  {
    hide Between, LocalIndex, EndsCompleted, ArePayload, Guarded;
    if region.kind != Finally || region.TryEnd() != region.handlerOffset
       || region.HandlerEnd() > length { return None; }
    var beforeTry := FilterOffsets(instrs, 0, region.tryOffset);
    if |beforeTry| < 2 { return None; }
    var tryInstructions := FilterOffsets(instrs, region.tryOffset, region.TryEnd());
    if |tryInstructions| == 0 { return None; }
    var handler := FilterOffsets(instrs, region.handlerOffset, region.HandlerEnd());
    if |handler| != 5 { return None; }
    var behind := FilterOffsets(instrs, region.HandlerEnd(), length);
    var s := Joined(controls, beforeTry, tryInstructions, handler, behind);
    var canonical := CheckScope(controls, length, region, instrs, s);
    return if canonical then Some(s) else None;
  }

  /** The opcode, token, local and branch checks on the parts. */
  method CheckScope(controls: Controls, length: nat, region: Region, instrs: seq<Instruction>, s: Scope)
    returns (canonical: bool)
    requires |s.handler| == 5
    ensures canonical <==> Canonical(controls, length, region, instrs, s)
  {
    hide LocalIndex, ArePayload, Guarded;
    if region.kind != Finally || region.TryEnd() != region.handlerOffset
       || region.HandlerEnd() > length { return false; }
    if s.ctor.opcode != NEWOBJ || controls(s.ctor.token) != Constructor { return false; }
    if s.store.End() != region.tryOffset || LocalIndex(s.store, true).None? { return false; }
    var local := LocalIndex(s.store, true).value;
    if s.exit.End() != region.TryEnd() || s.exit.opcode !in {LEAVE, LEAVE_S}
       || s.exit.targets != [region.HandlerEnd()] {
      return false;
    }
    var handler := s.handler;
    if handler[4].End() != region.HandlerEnd() || LocalIndex(handler[0], false) != Some(local) ||
       handler[1].opcode !in {0x2c, 0x39} || handler[1].targets != [handler[4].offset] ||
       LocalIndex(handler[2], false) != Some(local) || handler[3].opcode != CALLVIRT ||
       controls(handler[3].token) != Dispose || handler[4].opcode != ENDFINALLY {
      return false;
    }
    var confined := CheckPayload(controls, s.payload, local, region.tryOffset, s.PayloadEnd(region));
    if !confined { return false; }
    canonical := CheckOutside(instrs, s.ctor.offset, region.HandlerEnd(), length);
  }

  method CheckPayload(controls: Controls, payload: seq<Instruction>, local: int, start: int, end: int)
    returns (ok: bool)
    ensures ok <==> ArePayload(controls, payload, local, start, end)
  {
    hide LocalIndex;
    for k := 0 to |payload|
      invariant forall j :: 0 <= j < k ==> IsPayload(controls, payload[j], local, start, end)
    {
      var i := payload[k];
      if controls(i.token) != NoControl || LocalIndex(i, false) == Some(local) || LocalIndex(i, true) == Some(local) ||
         i.opcode in {LEAVE, LEAVE_S, ENDFINALLY, RET} { return false; }
      var inside := ValidateBranches(i, start, end);
      if !inside { return false; }
    }
    return true;
  }

  method CheckOutside(instrs: seq<Instruction>, constructorStart: nat, handlerEnd: nat, length: nat) returns (ok: bool)
    ensures ok <==> Guarded(instrs, constructorStart, handlerEnd, length)
  {
    hide BranchesWithin;
    for k := 0 to |instrs|
      invariant Guarded(instrs[..k], constructorStart, handlerEnd, length)
    {
      assert instrs[..k + 1] == instrs[..k] + [instrs[k]];
      if instrs[k].offset < constructorStart {
        var inside := ValidateBranches(instrs[k], 0, constructorStart);
        if !inside { return false; }
      } else if instrs[k].offset >= handlerEnd {
        var inside := ValidateBranches(instrs[k], handlerEnd, length);
        if !inside { return false; }
      }
    }
    assert instrs[..|instrs|] == instrs;
    return true;
  }

  method ValidateBranches(instruction: Instruction, start: int, end: int) returns (inside: bool)
    ensures inside <==> BranchesWithin(instruction, start, end)
  {
    for j := 0 to |instruction.targets|
      invariant forall k :: 0 <= k < j ==> start <= instruction.targets[k] < end
    {
      var target := instruction.targets[j];
      if target < start || target >= end { return false; }
    }
    return true;
  }

  // ---- Read left to right, the parts are consecutive ----

  /** A payload may not end in the Complete call itself, so completion is read off those three. */
  lemma CompletionDetected(controls: Controls, length: nat, region: Region, s: Scope)
    requires IsScope(controls, length, region, s)
    ensures s.Completed() <==> EndsCompleted(controls, s.store, s.payload + s.completion + [s.exit])
  {
    hide LocalIndex, AllWithin, IsDisposal;
    var body := s.payload + s.completion + [s.exit];
    var n := |body|;
    if !s.Completed() && n >= 3 {
      assert s.payload[|s.payload| - 1] in body;
    }
  }

  lemma CutBody(instrs: seq<Instruction>, p: nat, q: nat, h: nat, completed: bool)
    requires 2 <= p < q <= h <= |instrs| && (completed ==> p + 3 <= q)
    ensures var s := Cut(instrs, p, q, h, completed);
            s.store == instrs[p - 1] && s.payload + s.completion + [s.exit] == instrs[p..q]
  {
  }

  lemma BelowZero(instrs: seq<Instruction>)
    ensures Below(instrs, 0) == 0
  {
  }

  /** The part of instrs[a..b] among the first k. */
  function Clamped(instrs: seq<Instruction>, a: nat, b: nat, k: nat): seq<Instruction>
    requires a <= b <= |instrs| && k <= |instrs|
  {
    if k <= a then [] else if k <= b then instrs[a..k] else instrs[a..b]
  }

  lemma {:induction false} BetweenPrefix(instrs: seq<Instruction>, lo: int, hi: int, a: nat, b: nat, k: nat)
    requires a <= b <= |instrs| && k <= |instrs|
    requires forall j :: 0 <= j < |instrs| ==> (instrs[j].offset < lo <==> j < a) && (instrs[j].offset < hi <==> j < b)
    ensures Between(instrs[..k], lo, hi) == Clamped(instrs, a, b, k)
    decreases k
  {
    if k > 0 {
      BetweenPrefix(instrs, lo, hi, a, b, k - 1);
      assert instrs[..k][..k - 1] == instrs[..k - 1] && instrs[..k][k - 1] == instrs[k - 1];
      if a < k <= b { assert instrs[a..k] == instrs[a..k - 1] + [instrs[k - 1]]; }
    }
  }

  /** On ascending offsets the filter is a slice. */
  lemma BetweenIsSlice(instrs: seq<Instruction>, lo: int, hi: int)
    requires (forall j :: 0 <= j < |instrs| - 1 ==> instrs[j].offset < instrs[j + 1].offset) && lo <= hi
    ensures Below(instrs, lo) <= Below(instrs, hi)
    ensures Between(instrs, lo, hi) == instrs[Below(instrs, lo)..Below(instrs, hi)]
  {
    var a, b := Below(instrs, lo), Below(instrs, hi);
    BelowSplits(instrs, lo);
    BelowSplits(instrs, hi);
    hide Below, Between;
    if b < |instrs| { assert instrs[b].offset >= hi; }
    BetweenPrefix(instrs, lo, hi, a, b, |instrs|);
    assert instrs[..|instrs|] == instrs;
  }

  /** The last filter takes everything behind the handler. */
  lemma TailIsSlice(code: seq<Byte>, instrs: seq<Instruction>, lo: nat)
    requires Decodes(code, 0, |code|, instrs) && lo <= |code|
    requires forall j :: 0 <= j < |instrs| - 1 ==> instrs[j].offset < instrs[j + 1].offset
    ensures Between(instrs, lo, |code|) == instrs[Below(instrs, lo)..]
  {
    hide Below, Between, Decodes;
    BetweenIsSlice(instrs, lo, |code|);
    DecodesBounds(code, 0, |code|, instrs);
    BelowIs(instrs, |instrs|, |code|);
    assert instrs[Below(instrs, lo)..|instrs|] == instrs[Below(instrs, lo)..];
  }

  /** The parts of a body read left to right are its cut at the region's boundaries. */
  lemma PartsAreCut(controls: Controls, code: seq<Byte>, region: Region, instrs: seq<Instruction>)
    requires DecodeFrom(code, 0) == Some(instrs) && region.TryEnd() == region.handlerOffset
             && region.HandlerEnd() <= |code|
    ensures var p, q, h := Below(instrs, region.tryOffset), Below(instrs, region.TryEnd()),
            Below(instrs, region.HandlerEnd());
            && p <= q <= h <= |instrs|
            && Parts(controls, |code|, region, instrs) ==
               if p < 2 || p == q || h != q + 5 then None
               else Some(Joined(controls, instrs[..p], instrs[p..q], instrs[q..h], instrs[h..]))
  {
    var ok := DecodedFacts(code, instrs);
    BelowZero(instrs);
    hide Between, DecodeFrom, Decodes, Below, Joined, Consecutive;
    BetweenIsSlice(instrs, 0, region.tryOffset);
    BetweenIsSlice(instrs, region.tryOffset, region.TryEnd());
    BetweenIsSlice(instrs, region.handlerOffset, region.HandlerEnd());
    TailIsSlice(code, instrs, region.HandlerEnd());
    var p := Below(instrs, region.tryOffset);
    assert instrs[0..p] == instrs[..p];
  }

  /** A scope is what the source finds, and passes its checks. */
  lemma ScopeIsFound(controls: Controls, code: seq<Byte>, region: Region, s: Scope)
    requires IsScopeOf(controls, code, region, s)
    ensures Parts(controls, |code|, region, s.Whole()) == Some(s)
    ensures Canonical(controls, |code|, region, s.Whole(), s) && Writable(code, region, s)
  {
    hide Below, LocalIndex, Between, DecodeFrom, Decodes, IsPayload, EndsCompleted, Parts, Scope.PayloadEnd;
    var w := s.Whole();
    var p, q, h := Below(w, region.tryOffset), Below(w, region.TryEnd()), Below(w, region.HandlerEnd());
    var ok := DecodedFacts(code, w);
    PartsAreCut(controls, code, region, w);
    ScopeIsCut(controls, |code|, region, s);
    CutBody(w, p, q, h, s.Completed());
    CompletionDetected(controls, |code|, region, s);
    assert w[..p][p - 2] == w[p - 2] && w[..p][p - 1] == w[p - 1] && w[..p][..p - 2] == w[..p - 2];
    JoinedIsCut(controls, w, p, q, h, s.Completed());
    ScopePartition(controls, code, region, s);
    WholeIsGuarded(controls, code, region, s);
  }

  lemma JoinedIsCut(controls: Controls, w: seq<Instruction>, p: nat, q: nat, h: nat, completed: bool)
    requires 2 <= p < q <= h <= |w| && (completed ==> p + 3 <= q)
    requires completed == EndsCompleted(controls, w[p - 1], w[p..q])
    ensures Joined(controls, w[..p], w[p..q], w[q..h], w[h..]) == Cut(w, p, q, h, completed)
  {
    hide EndsCompleted;
    var c := if completed then 2 else 0;
    assert w[..p][..p - 2] == w[..p - 2];
    Subslice(w, p, q, 0, q - p - 1 - c);
    Subslice(w, p, q, q - p - 1 - c, q - p - 1);
  }

  lemma WholeIsGuarded(controls: Controls, code: seq<Byte>, region: Region, s: Scope)
    requires IsScopeOf(controls, code, region, s) && Partition(code, region, s)
    ensures Guarded(s.Whole(), s.ctor.offset, region.HandlerEnd(), |code|)
  {
    hide LocalIndex, DecodeFrom, Decodes, IsPayload, IsOpening, IsExit, IsCompletion, IsDisposal, BranchesWithin,
         Guarded, Scope.PayloadEnd;
    var a, h := s.ctor.offset, region.HandlerEnd();
    var open, part := [s.ctor, s.store], s.completion + [s.exit];
    PrefixGuarded(code, s.prefix, a, h);
    SegmentGuarded(code, a, region.tryOffset, open, a, h);
    SegmentGuarded(code, region.tryOffset, s.PayloadEnd(region), s.payload, a, h);
    SegmentGuarded(code, s.PayloadEnd(region), region.TryEnd(), part, a, h);
    SegmentGuarded(code, region.TryEnd(), h, s.handler, a, h);
    TailGuarded(code, s.tail, a, h);
    GuardedJoin(s.prefix, open, a, h, |code|);
    GuardedJoin(s.prefix + open, s.payload, a, h, |code|);
    GuardedJoin(s.prefix + open + s.payload, part, a, h, |code|);
    GuardedJoin(s.prefix + open + s.payload + part, s.handler, a, h, |code|);
    GuardedJoin(s.prefix + open + s.payload + part + s.handler, s.tail, a, h, |code|);
    assert s.Whole() == s.prefix + open + s.payload + part + s.handler + s.tail;
  }

  lemma GuardedJoin(instrs: seq<Instruction>, more: seq<Instruction>, a: int, h: int, length: int)
    requires Guarded(instrs, a, h, length) && Guarded(more, a, h, length)
    ensures Guarded(instrs + more, a, h, length)
  {
    hide BranchesWithin;
  }

  lemma PrefixGuarded(code: seq<Byte>, instrs: seq<Instruction>, a: nat, h: nat)
    requires Decodes(code, 0, a, instrs) && AllWithin(instrs, 0, a)
    ensures Guarded(instrs, a, h, |code|)
  {
    hide Decodes, BranchesWithin;
    DecodesBounds(code, 0, a, instrs);
  }

  lemma SegmentGuarded(code: seq<Byte>, lo: nat, hi: nat, instrs: seq<Instruction>, a: nat, h: nat)
    requires Decodes(code, lo, hi, instrs) && a <= lo && hi <= h
    ensures Guarded(instrs, a, h, |code|)
  {
    hide Decodes, BranchesWithin;
    DecodesBounds(code, lo, hi, instrs);
  }

  lemma TailGuarded(code: seq<Byte>, instrs: seq<Instruction>, a: nat, h: nat)
    requires Decodes(code, h, |code|, instrs) && AllWithin(instrs, h, |code|) && a <= h
    ensures Guarded(instrs, a, h, |code|)
  {
    hide Decodes, BranchesWithin;
    DecodesBounds(code, h, |code|, instrs);
  }

  /** Where the parts found in a body read left to right come from. */
  lemma FoundIsCut(controls: Controls, code: seq<Byte>, region: Region, instrs: seq<Instruction>)
    returns (p: nat, h: nat)
    requires DecodeFrom(code, 0) == Some(instrs) && Parts(controls, |code|, region, instrs).Some?
    requires region.TryEnd() == region.handlerOffset && region.HandlerEnd() <= |code|
    ensures var s := Parts(controls, |code|, region, instrs).value;
            && 2 <= p <= h <= |instrs| && h == Below(instrs, region.HandlerEnd())
            && s.Whole() == instrs && s.prefix == instrs[..p - 2] && s.ctor == instrs[p - 2] && s.tail == instrs[h..]
            && (LocalIndex(s.store, true).Some? ==>
                  IsCompletion(controls, s.completion, LocalIndex(s.store, true).value))
  {
    hide Below, DecodeFrom, Parts, EndsCompleted, Joined, LocalIndex, IsCompletion, Scope.Whole;
    p, h := Below(instrs, region.tryOffset), Below(instrs, region.HandlerEnd());
    var q := Below(instrs, region.TryEnd());
    PartsAreCut(controls, code, region, instrs);
    var completed := EndsCompleted(controls, instrs[p - 1], instrs[p..q]);
    LongWhenCompleted(controls, instrs[p - 1], instrs[p..q]);
    JoinedIsCut(controls, instrs, p, q, h, completed);
    CutWhole(instrs, p, q, h, completed);
    CutBody(instrs, p, q, h, completed);
    CutCompletion(controls, instrs, p, q, h, completed);
  }

  lemma CutCompletion(controls: Controls, instrs: seq<Instruction>, p: nat, q: nat, h: nat, completed: bool)
    requires 2 <= p < q <= h <= |instrs| && (completed ==> p + 3 <= q)
    requires completed == EndsCompleted(controls, instrs[p - 1], instrs[p..q])
    ensures var s := Cut(instrs, p, q, h, completed);
            LocalIndex(s.store, true).Some? ==> IsCompletion(controls, s.completion, LocalIndex(s.store, true).value)
  {
    hide LocalIndex;
    if completed {
      Subslice(instrs, p, q, q - p - 3, q - p - 1);
      assert instrs[p..q][q - p - 3] == instrs[q - 3] && instrs[p..q][q - p - 2] == instrs[q - 2];
    }
  }

  /** What the source finds in a body read left to right is a scope of it. */
  lemma FoundIsScope(controls: Controls, code: seq<Byte>, region: Region, instrs: seq<Instruction>)
    requires DecodeFrom(code, 0) == Some(instrs) && Parts(controls, |code|, region, instrs).Some?
    requires Canonical(controls, |code|, region, instrs, Parts(controls, |code|, region, instrs).value)
    ensures IsScopeOf(controls, code, region, Parts(controls, |code|, region, instrs).value)
  {
    hide Below, DecodeFrom, Decodes, ArePayload, AllWithin, Parts, Guarded, IsDisposal, LocalIndex, IsCompletion,
         Scope.Whole, Scope.PayloadEnd, Consecutive;
    var p, h := FoundIsCut(controls, code, region, instrs);
    var ok := DecodedFacts(code, instrs);
    OutsideIsWithin(instrs, p, h, region.HandlerEnd(), |code|);
  }

  lemma LongWhenCompleted(controls: Controls, store: Instruction, body: seq<Instruction>)
    ensures EndsCompleted(controls, store, body) ==> |body| >= 3
  {
  }

  lemma OutsideIsWithin(instrs: seq<Instruction>, p: nat, h: nat, handlerEnd: nat, length: nat)
    requires forall j :: 0 <= j < |instrs| - 1 ==> instrs[j].offset < instrs[j + 1].offset
    requires 2 <= p <= h <= |instrs| && h == Below(instrs, handlerEnd)
             && Guarded(instrs, instrs[p - 2].offset, handlerEnd, length)
    ensures AllWithin(instrs[..p - 2], 0, instrs[p - 2].offset) && AllWithin(instrs[h..], handlerEnd, length)
  {
    BelowSplits(instrs, handlerEnd);
    hide Below, BranchesWithin;
    forall k | 0 <= k < p - 2
      ensures BranchesWithin(instrs[k], 0, instrs[p - 2].offset)
    {
      OffsetsAscend(instrs, k, p - 2);
    }
    forall k | h <= k < |instrs|
      ensures BranchesWithin(instrs[k], handlerEnd, length)
    {
      OffsetsAscend(instrs, p - 2, k);
    }
  }

  /** For a body without a negative switch count, RewriteTransactionScope returns exactly when there
      is no region and no control call, or one canonical scope, and it rewrites that scope. */
  lemma RewritableIffScope(controls: Controls, code: seq<Byte>, regions: seq<Region>)
    requires !ReachesNegative(code, 0)
    ensures var reading := ReadFrom(Decoder, code, 0, {});
            (reading.Listed? && Rewritable(controls, code, regions, reading.instrs)) <==>
            (DecodeFrom(code, 0).Some? && AllPass(Decoder, DecodeFrom(code, 0).value) &&
             if regions == [] then forall k :: 0 <= k < |DecodeFrom(code, 0).value| ==>
                                     controls(DecodeFrom(code, 0).value[k].token) == NoControl
             else |regions| == 1 && exists s :: IsScopeOf(controls, code, regions[0], s))
    ensures |regions| == 1 ==>
              forall s :: IsScopeOf(controls, code, regions[0], s) && AllPass(Decoder, s.Whole()) ==>
                Parts(controls, |code|, regions[0], ReadFrom(Decoder, code, 0, {}).instrs) == Some(s)
  {
    hide ReadFrom, DecodeFrom, IsScope, Parts, Canonical, Writable, AllPass;
    ReadsForward(Decoder, code, 0, {});
    if |regions| == 1 {
      forall s | IsScopeOf(controls, code, regions[0], s)
        ensures DecodeFrom(code, 0) == Some(s.Whole()) && Parts(controls, |code|, regions[0], s.Whole()) == Some(s)
        ensures Canonical(controls, |code|, regions[0], s.Whole(), s) && Writable(code, regions[0], s)
      {
        ScopeIsFound(controls, code, regions[0], s);
      }
      if DecodeFrom(code, 0).Some? && Recognises(controls, code, regions, DecodeFrom(code, 0).value) {
        FoundIsScope(controls, code, regions[0], DecodeFrom(code, 0).value);
      }
    }
  }
}
