/** Which octets name which local, and the compiled scopes of every local and every encoding through the
    rewrite. */
module ScopeLocals {
  import opened Wrappers
  import opened Bytes
  import opened Cil
  import opened CilEncoding
  import opened CilReading
  import opened Splicing
  import opened TransactionScope

  /** The one-, two- and four-octet instructions. */
  datatype Form = Shortest | Short | Long

  predicate Fits(n: int, form: Form) {
    0 <= n < if form.Shortest? then 4 else if form.Short? then 0x100 else 0x1_0000
  }

  /** ldloc.n; ldloc.s n; ldloc n */
  function LoadOctets(n: int, form: Form): seq<Byte>
    requires Fits(n, form)
  {
    match form
    case Shortest => [0x06 + n]
    case Short => [0x11, n]
    case Long => [0xfe, 0x0c, n % 256, n / 256]
  }

  /** stloc.n; stloc.s n; stloc n */
  function StoreOctets(n: int, form: Form): seq<Byte>
    requires Fits(n, form)
  {
    match form
    case Shortest => [0x0a + n]
    case Short => [0x13, n]
    case Long => [0xfe, 0x0e, n % 256, n / 256]
  }

  function LocalOctets(n: int, form: Form, store: bool): seq<Byte>
    requires Fits(n, form)
  {
    if store then StoreOctets(n, form) else LoadOctets(n, form)
  }

  function LocalAt(offset: nat, n: int, form: Form, store: bool): Instruction
    requires Fits(n, form)
  {
    match form
    case Shortest => Instruction(offset, 1, (if store then 0x0a else 0x06) + n, 0, -1, [], [])
    case Short => Instruction(offset, 2, if store then 0x13 else 0x11, 0, n, [], [n])
    case Long => Instruction(offset, 4, if store then 0xfe0e else 0xfe0c, 0, n, [], [n % 256, n / 256])
  }

  lemma LocalEncodes(offset: nat, n: int, form: Form, store: bool)
    requires Fits(n, form)
    ensures var i := LocalAt(offset, n, form, store);
            && Encodable(i) && Encoding(i) == LocalOctets(n, form, store) && i.size == |LocalOctets(n, form, store)|
            && LocalIndex(i, store) == Some(n) && LocalIndex(i, !store) == None
  {
    var i := LocalAt(offset, n, form, store);
    OperandKinds(i.opcode);
    OperandLengths(i.opcode);
  }

  /** An instruction loads from or stores to local n exactly when its octets are one of the three encodings. */
  lemma LocalIff(code: seq<Byte>, pc: nat, n: int, store: bool)
    requires pc < |code|
    ensures (DecodeAt(code, pc).Some? && LocalIndex(DecodeAt(code, pc).value, store) == Some(n)) <==>
            exists form :: StandsAt(code, pc, n, form, store)
    ensures forall form :: StandsAt(code, pc, n, form, store) ==>
              DecodeAt(code, pc) == Some(LocalAt(pc, n, form, store))
  {
    hide DecodeAt, Encodable, Encoding, LocalIndex, LocalOctets, LocalAt;
    forall form | StandsAt(code, pc, n, form, store)
      ensures DecodeAt(code, pc) == Some(LocalAt(pc, n, form, store))
      ensures LocalIndex(LocalAt(pc, n, form, store), store) == Some(n)
    {
      LocalEncodes(pc, n, form, store);
      PlacedAt(pc, n, form, store);
      DecodeIffEncoding(code, pc, LocalAt(pc, n, form, store));
    }
    if DecodeAt(code, pc).Some? && LocalIndex(DecodeAt(code, pc).value, store) == Some(n) {
      var i := DecodeAt(code, pc).value;
      DecodeIffEncoding(code, pc, i);
      var form := FormOf(i, n, store);
      LocalEncodes(pc, n, form, store);
      assert StandsAt(code, pc, n, form, store);
    }
  }

  lemma PlacedAt(offset: nat, n: int, form: Form, store: bool)
    requires Fits(n, form)
    ensures LocalAt(offset, n, form, store).offset == offset
  {
  }

  predicate StandsAt(code: seq<Byte>, pc: nat, n: int, form: Form, store: bool) {
    Fits(n, form) && pc + |LocalOctets(n, form, store)| <= |code|
    && code[pc..pc + |LocalOctets(n, form, store)|] == LocalOctets(n, form, store)
  }

  lemma FormOf(i: Instruction, n: int, store: bool) returns (form: Form)
    requires Encodable(i) && LocalIndex(i, store) == Some(n)
    ensures Fits(n, form) && i == LocalAt(i.offset, n, form, store)
  {
    OperandKinds(i.opcode);
    OperandLengths(i.opcode);
    form := if i.opcode < 0x0e then Shortest else if i.opcode < 0x100 then Short else Long;
    if form == Long {
      var low: int, high: int := i.immediate[0], i.immediate[1];
      assert n == low + 256 * high && n % 256 == low && n / 256 == high;
      assert i.immediate == [i.immediate[0], i.immediate[1]];
    } else if form == Short {
      assert i.immediate == [i.immediate[0]];
    } else {
      assert i.immediate == [];
    }
  }

  // ---- Compiled scopes ----

  /** What a compiler may choose: the local, how each instruction names it, and short or long branches. */
  datatype Choice = Choice(n: int, stored: Form, tested: Form, disposed: Form, completed: Form, longLeave: bool,
                           longTest: bool)
  {
    predicate Valid() {
      Fits(n, stored) && Fits(n, tested) && Fits(n, disposed) && Fits(n, completed)
    }
  }

  /** The members the body names; `complete` is the scope's Complete when it is called. */
  datatype Members = Members(ctor: int, complete: Option<int>, dispose: int)
  {
    predicate Valid(controls: Controls) {
      && IsEntity(ctor) && IsEntity(dispose) && (complete.Some? ==> IsEntity(complete.value))
      && controls(ctor) == Constructor && controls(dispose) == Dispose
      && (complete.Some? ==> controls(complete.value) == Complete)
    }

    function Closing(): int { if complete.Some? then complete.value else dispose }
  }

  /** The octets of newobj; stloc; (ldloc; callvirt Complete;) leave; ldloc; brfalse; ldloc; callvirt Dispose;
      endfinally; ret. */
  function CompiledOctets(m: Members, c: Choice): seq<Byte>
    requires c.Valid()
  {
    MemberOctets(0x73, m.ctor) + (StoreOctets(c.n, c.stored) + (CompletionOctets(m, c) +
      (BranchOctets(c.longLeave, 0xdd, 0xde, HandlerSize(c)) + (HandlerOctets(m, c) + [0x2a]))))
  }

  function MemberOctets(opcode: Byte, token: int): (s: seq<Byte>)
    ensures |s| == 5
  {
    [opcode] + Le32(token)
  }

  function BranchOctets(long: bool, longOpcode: Byte, shortOpcode: Byte, distance: Byte): (s: seq<Byte>)
    ensures |s| == if long then 5 else 2
  {
    if long then [longOpcode] + Le32(distance) else [shortOpcode, distance]
  }

  /** ldloc; brfalse; ldloc; callvirt Dispose; endfinally */
  function HandlerOctets(m: Members, c: Choice): seq<Byte>
    requires c.Valid()
  {
    LoadOctets(c.n, c.tested) + (BranchOctets(c.longTest, 0x39, 0x2c, CallSize(c)) +
      (LoadOctets(c.n, c.disposed) + (MemberOctets(0x6f, m.dispose) + [0xdc])))
  }

  function CompletionOctets(m: Members, c: Choice): seq<Byte>
    requires c.Valid()
  {
    if m.complete.Some? then LoadOctets(c.n, c.completed) + MemberOctets(0x6f, m.complete.value) else []
  }

  /** Octets of ldloc; callvirt Dispose. */
  function CallSize(c: Choice): (n: nat)
    requires c.Valid()
    ensures n <= 9
  {
    |LoadOctets(c.n, c.disposed)| + 5
  }

  function HandlerSize(c: Choice): (n: nat)
    requires c.Valid()
    ensures n <= 19
  {
    |LoadOctets(c.n, c.tested)| + (if c.longTest then 5 else 2) + CallSize(c) + 1
  }

  function TryOffset(c: Choice): nat
    requires c.Valid()
  {
    5 + |StoreOctets(c.n, c.stored)|
  }

  function LeaveOffset(m: Members, c: Choice): nat
    requires c.Valid()
  {
    TryOffset(c) + |CompletionOctets(m, c)|
  }

  function HandlerOffset(m: Members, c: Choice): nat
    requires c.Valid()
  {
    LeaveOffset(m, c) + (if c.longLeave then 5 else 2)
  }

  function CompiledRegion(m: Members, c: Choice): Region
    requires c.Valid()
  {
    Region(Finally, TryOffset(c), HandlerOffset(m, c) - TryOffset(c), HandlerOffset(m, c), HandlerSize(c))
  }

  function MemberAt(offset: nat, opcode: int,
                    token: int): Instruction { Instruction(offset, 5, opcode, token, -1, [], []) }

  function BranchAt(offset: nat, long: bool, longOpcode: int, shortOpcode: int, target: int): Instruction {
    if long then Instruction(offset, 5, longOpcode, 0, -1, [target], [])
    else Instruction(offset, 2, shortOpcode, 0, -1, [target], [])
  }

  function OctetAt(offset: nat, opcode: int): Instruction { Instruction(offset, 1, opcode, 0, -1, [], []) }

  function CompiledHandler(m: Members, c: Choice): seq<Instruction>
    requires c.Valid()
  {
    var h := HandlerOffset(m, c);
    var test := h + |LoadOctets(c.n, c.tested)|;
    var load := test + if c.longTest then 5 else 2;
    var call := load + |LoadOctets(c.n, c.disposed)|;
    [LocalAt(h, c.n, c.tested, false), BranchAt(test, c.longTest, 0x39, 0x2c, call + 5),
     LocalAt(load, c.n, c.disposed, false), MemberAt(call, CALLVIRT, m.dispose), OctetAt(call + 5, ENDFINALLY)]
  }

  function CompiledCompletion(m: Members, c: Choice): seq<Instruction>
    requires c.Valid()
  {
    if m.complete.None? then []
    else [LocalAt(TryOffset(c), c.n, c.completed, false),
          MemberAt(TryOffset(c) + |LoadOctets(c.n, c.completed)|, CALLVIRT, m.complete.value)]
  }

  function CompiledScope(m: Members, c: Choice): Scope
    requires c.Valid()
  {
    var end := HandlerOffset(m, c) + HandlerSize(c);
    Scope([], MemberAt(0, NEWOBJ, m.ctor), LocalAt(5, c.n, c.stored, true), [], CompiledCompletion(m, c),
          BranchAt(LeaveOffset(m, c), c.longLeave, LEAVE, LEAVE_S, end), CompiledHandler(m, c), [OctetAt(end, RET)])
  }

  // ---- One instruction of it after the other ----

  /** `s` abuts from `lo` to `hi`, encodes to `octets` and passes the decoder. */
  ghost predicate Spells(s: seq<Instruction>, lo: int, hi: int, octets: seq<Byte>) {
    Abutting(s, lo, hi) && EncodedAll(s) == octets && AllPass(Decoder, s)
  }

  lemma SpellsNothing(at: int)
    ensures Spells([], at, at, [])
  {
  }

  lemma SpellsOne(i: Instruction, octets: seq<Byte>)
    requires Encodable(i) && Encoding(i) == octets && Passes(Decoder, i)
    ensures Spells([i], i.offset, i.End(), octets)
  {
    hide Encodable, Encoding, Passes;
    var none: seq<Instruction> := [];
    assert [i][1..] == none && EncodedAll(none) == [] && Abutting(none, i.End(), i.End());
    assert EncodedAll([i]) == octets + EncodedAll(none);
    assert octets + [] == octets;
  }

  lemma {:induction false} SpellsJoin(s: seq<Instruction>, lo: int, mid: int, a: seq<Byte>, t: seq<Instruction>,
                                      hi: int,
                                      b: seq<Byte>)
    requires Spells(s, lo, mid, a) && Spells(t, mid, hi, b)
    ensures Spells(s + t, lo, hi, a + b)
    decreases |s|
  {
    hide Encodable, Encoding, Passes;
    if s == [] {
      assert s + t == t && a + b == b;
    } else {
      var rest := s[1..];
      AbuttingFacts(rest, s[0].End(), mid);
      assert AllPass(Decoder, rest)
        by { forall k | 0 <= k < |rest| ensures Passes(Decoder, rest[k]) { assert rest[k] == s[k + 1]; } }
      SpellsJoin(rest, s[0].End(), mid, EncodedAll(rest), t, hi, b);
      assert (s + t)[1..] == rest + t;
      assert Encoding(s[0]) + (EncodedAll(rest) + b) == a + b;
      forall k | 0 <= k < |s + t|
        ensures Passes(Decoder, (s + t)[k])
      {
        if k < |s| { assert (s + t)[k] == s[k]; } else { assert (s + t)[k] == t[k - |s|]; }
      }
    }
  }

  lemma SpellsMember(offset: nat, opcode: int, token: int)
    requires opcode in {NEWOBJ, CALLVIRT} && IsEntity(token)
    ensures Spells([MemberAt(offset, opcode, token)], offset, offset + 5, MemberOctets(opcode, token))
  {
    hide Le32;
    OperandKinds(opcode);
    SpellsOne(MemberAt(offset, opcode, token), MemberOctets(opcode, token));
  }

  lemma SpellsLocal(offset: nat, n: int, form: Form, store: bool)
    requires Fits(n, form)
    ensures Spells([LocalAt(offset, n, form, store)], offset, offset + |LocalOctets(n, form, store)|,
                   LocalOctets(n, form, store))
  {
    LocalEncodes(offset, n, form, store);
    var i := LocalAt(offset, n, form, store);
    OperandKinds(i.opcode);
    hide LocalIndex, Encoding, Encodable, OperandOf;
    SpellsOne(i, LocalOctets(n, form, store));
  }

  lemma SpellsBranch(offset: nat, long: bool, longOpcode: int, shortOpcode: int, distance: nat)
    requires distance < 128
    requires (longOpcode == LEAVE && shortOpcode == LEAVE_S) || (longOpcode == 0x39 && shortOpcode == 0x2c)
    ensures var size := if long then 5 else 2;
            Spells([BranchAt(offset, long, longOpcode, shortOpcode, offset + size + distance)], offset, offset + size,
                   BranchOctets(long, longOpcode, shortOpcode, distance))
  {
    hide Le32;
    var size := if long then 5 else 2;
    var i := BranchAt(offset, long, longOpcode, shortOpcode, offset + size + distance);
    OperandKinds(i.opcode);
    SpellsOne(i, BranchOctets(long, longOpcode, shortOpcode, distance));
  }

  lemma SpellsOctet(offset: nat, opcode: int)
    requires opcode in {ENDFINALLY, RET}
    ensures Spells([OctetAt(offset, opcode)], offset, offset + 1, [opcode])
  {
    OperandKinds(opcode);
    SpellsOne(OctetAt(offset, opcode), [opcode]);
  }

  lemma CompletionSpells(controls: Controls, m: Members, c: Choice)
    requires m.Valid(controls) && c.Valid()
    ensures Spells(CompiledCompletion(m, c), TryOffset(c), LeaveOffset(m, c), CompletionOctets(m, c))
  {
    hide Spells, LoadOctets, MemberOctets;
    if m.complete.None? {
      SpellsNothing(TryOffset(c));
    } else {
      var at, n := TryOffset(c), |LoadOctets(c.n, c.completed)|;
      SpellsLocal(at, c.n, c.completed, false);
      SpellsMember(at + n, CALLVIRT, m.complete.value);
      SpellsJoin([LocalAt(at, c.n, c.completed, false)], at, at + n, LoadOctets(c.n, c.completed),
                 [MemberAt(at + n, CALLVIRT, m.complete.value)], at + n + 5, MemberOctets(0x6f, m.complete.value));
      assert LoadOctets(c.n, c.completed) + (MemberOctets(0x6f, m.complete.value)) == CompletionOctets(m, c);
      assert CompiledCompletion(m, c) ==
             [LocalAt(at, c.n, c.completed, false)] + [MemberAt(at + n, CALLVIRT, m.complete.value)];
    }
  }

  lemma HandlerSpells(controls: Controls, m: Members, c: Choice)
    requires m.Valid(controls) && c.Valid()
    ensures Spells(CompiledHandler(m, c), HandlerOffset(m, c), HandlerOffset(m, c) + HandlerSize(c),
                   HandlerOctets(m, c))
  {
    hide Spells, LoadOctets, MemberOctets, BranchOctets, HandlerOffset, BranchAt, LocalAt;
    var h := HandlerOffset(m, c);
    var test := h + |LoadOctets(c.n, c.tested)|;
    var load := test + if c.longTest then 5 else 2;
    var call := load + |LoadOctets(c.n, c.disposed)|;
    var end := call + 6;
    var s := CompiledHandler(m, c);
    SpellsOctet(call + 5, ENDFINALLY);
    SpellsMember(call, CALLVIRT, m.dispose);
    SpellsJoin([s[3]], call, call + 5, MemberOctets(0x6f, m.dispose), [s[4]], end, [0xdc]);
    SpellsLocal(load, c.n, c.disposed, false);
    var tail := (MemberOctets(0x6f, m.dispose)) + [0xdc];
    SpellsJoin([s[2]], load, call, LoadOctets(c.n, c.disposed), [s[3]] + [s[4]], end, tail);
    SpellsBranch(test, c.longTest, 0x39, 0x2c, CallSize(c));
    var branch := BranchOctets(c.longTest, 0x39, 0x2c, CallSize(c));
    SpellsJoin([s[1]], test, load, branch, [s[2]] + ([s[3]] + [s[4]]), end, LoadOctets(c.n, c.disposed) + tail);
    SpellsLocal(h, c.n, c.tested, false);
    SpellsJoin([s[0]], h, test, LoadOctets(c.n, c.tested), [s[1]] + ([s[2]] + ([s[3]] + [s[4]])), end,
               branch + (LoadOctets(c.n, c.disposed) + tail));
    assert s == [s[0]] + ([s[1]] + ([s[2]] + ([s[3]] + [s[4]])));
  }

  lemma BodySpells(controls: Controls, m: Members, c: Choice)
    requires m.Valid(controls) && c.Valid()
    ensures Spells(CompiledScope(m, c).Whole(), 0, HandlerOffset(m, c) + HandlerSize(c) + 1, CompiledOctets(m, c))
  {
    hide Spells, LoadOctets, StoreOctets, MemberOctets, BranchOctets, BranchAt, LocalAt, CompiledHandler,
         CompiledCompletion,
         CompletionOctets, HandlerOctets, Encodable, Passes;
    var s, t, l, h := CompiledScope(m, c), TryOffset(c), LeaveOffset(m, c), HandlerOffset(m, c);
    var end := h + HandlerSize(c);
    var leave := BranchOctets(c.longLeave, 0xdd, 0xde, HandlerSize(c));
    SpellsOctet(end, RET);
    HandlerSpells(controls, m, c);
    SpellsJoin(s.handler, h, end, HandlerOctets(m, c), s.tail, end + 1, [0x2a]);
    SpellsBranch(l, c.longLeave, LEAVE, LEAVE_S, HandlerSize(c));
    SpellsJoin([s.exit], l, h, leave, s.handler + s.tail, end + 1, HandlerOctets(m, c) + [0x2a]);
    CompletionSpells(controls, m, c);
    SpellsJoin(s.completion, t, l, CompletionOctets(m, c), [s.exit] + (s.handler + s.tail), end + 1,
               leave + (HandlerOctets(m, c) + [0x2a]));
    SpellsLocal(5, c.n, c.stored, true);
    SpellsJoin([s.store], 5, t, StoreOctets(c.n, c.stored), s.completion + ([s.exit] + (s.handler + s.tail)), end + 1,
               CompletionOctets(m, c) + (leave + (HandlerOctets(m, c) + [0x2a])));
    SpellsMember(0, NEWOBJ, m.ctor);
    SpellsJoin([s.ctor], 0, 5, MemberOctets(0x73, m.ctor),
               [s.store] + (s.completion + ([s.exit] + (s.handler + s.tail))), end + 1,
               StoreOctets(c.n, c.stored) + (CompletionOctets(m, c) + (leave + (HandlerOctets(m, c) + [0x2a]))));
    assert s.Whole() == [s.ctor] + ([s.store] + (s.completion + ([s.exit] + (s.handler + s.tail))));
  }

  // ---- Main result ----

  lemma OpeningCompiled(controls: Controls, m: Members, c: Choice)
    requires m.Valid(controls) && c.Valid()
    ensures var s := CompiledScope(m, c);
            && IsOpening(controls, CompiledRegion(m, c), s.ctor, s.store) && LocalIndex(s.store, true) == Some(c.n)
            && IsExit(CompiledRegion(m, c), s.exit)
  {
    hide LocalIndex, LocalAt, CompiledHandler, CompiledCompletion, CompletionOctets, StoreOctets, LoadOctets;
    LocalEncodes(5, c.n, c.stored, true);
    LocalPlaced(5, c.n, c.stored, true);
  }

  lemma CompletionCompiled(controls: Controls, m: Members, c: Choice)
    requires m.Valid(controls) && c.Valid()
    ensures IsCompletion(controls, CompiledScope(m, c).completion, c.n)
  {
    hide LocalIndex, LocalAt, CompiledHandler, StoreOctets, LoadOctets;
    LocalEncodes(TryOffset(c), c.n, c.completed, false);
  }

  lemma DisposalCompiled(controls: Controls, m: Members, c: Choice)
    requires m.Valid(controls) && c.Valid()
    ensures var h := CompiledHandler(m, c);
            IsDisposal(controls, h, c.n) && h[4].End() == CompiledRegion(m, c).HandlerEnd()
  {
    hide LocalIndex, LocalAt, CompiledCompletion, CompletionOctets, StoreOctets, LoadOctets;
    var test := HandlerOffset(m, c) + |LoadOctets(c.n, c.tested)|;
    var load := test + if c.longTest then 5 else 2;
    LocalEncodes(HandlerOffset(m, c), c.n, c.tested, false);
    LocalEncodes(load, c.n, c.disposed, false);
  }

  lemma CompiledIsScope(controls: Controls, m: Members, c: Choice)
    requires m.Valid(controls) && c.Valid()
    ensures IsScope(controls, |CompiledOctets(m, c)|, CompiledRegion(m, c), CompiledScope(m, c))
  {
    hide CompiledOctets, Spells, LocalIndex, LocalAt, Scope.Whole, CompiledHandler, CompiledCompletion, IsOpening,
         IsExit,
         IsCompletion, IsDisposal, StoreOctets, LoadOctets, CompletionOctets;
    BodySpells(controls, m, c);
    Spelled(CompiledScope(m, c).Whole(), 0, HandlerOffset(m, c) + HandlerSize(c) + 1, CompiledOctets(m, c));
    OpeningCompiled(controls, m, c);
    CompletionCompiled(controls, m, c);
    DisposalCompiled(controls, m, c);
  }

  lemma LocalPlaced(offset: nat, n: int, form: Form, store: bool)
    requires Fits(n, form)
    ensures LocalAt(offset, n, form, store).End() == offset + |LocalOctets(n, form, store)|
    ensures LocalAt(offset, n, form, store).targets == []
  {
  }

  /** Every compiled scope that holds no code is rewritten, whatever its local and its encodings, to call
      Begin, call Commit or Abort, and what stood behind it. */
  lemma CompiledScopesAreRewritten(controls: Controls, m: Members, c: Choice)
    requires m.Valid(controls) && c.Valid()
    ensures var code, region, s := CompiledOctets(m, c), CompiledRegion(m, c), CompiledScope(m, c);
            var reading := ReadFrom(Decoder, code, 0, {});
            && reading.Listed? && Rewritable(controls, code, [region], reading.instrs)
            && Parts(controls, |code|, region, reading.instrs) == Some(s) && Partition(code, region, s)
            && Spliced(code, region, s) == [0x28] + Le32(m.ctor) + [0x28] + Le32(m.Closing()) + [0x2a]
  {
    var code, region, s := CompiledOctets(m, c), CompiledRegion(m, c), CompiledScope(m, c);
    hide *;
    CompiledDecodes(controls, m, c);
    ScopeIsAccepted(controls, code, region, s);
    SplicedOctets(controls, m, c);
  }

  lemma CompiledDecodes(controls: Controls, m: Members, c: Choice)
    requires m.Valid(controls) && c.Valid()
    ensures IsScopeOf(controls, CompiledOctets(m, c), CompiledRegion(m, c), CompiledScope(m, c))
    ensures AllPass(Decoder, CompiledScope(m, c).Whole())
  {
    hide Spells, CompiledOctets, CompiledRegion, CompiledScope, IsScope, Scope.Whole, AllPass, HandlerOffset,
         HandlerSize,
         DecodeFrom;
    var s, code := CompiledScope(m, c).Whole(), CompiledOctets(m, c);
    BodySpells(controls, m, c);
    CompiledIsScope(controls, m, c);
    Spelled(s, 0, HandlerOffset(m, c) + HandlerSize(c) + 1, code);
    SpellingDecodes(code, s);
  }

  /** A scope in a body that Decode reads is rewritten. */
  lemma ScopeIsAccepted(controls: Controls, code: seq<Byte>, region: Region, s: Scope)
    requires IsScopeOf(controls, code, region, s) && AllPass(Decoder, s.Whole())
    ensures var reading := ReadFrom(Decoder, code, 0, {});
            && reading.Listed? && Rewritable(controls, code, [region], reading.instrs)
            && Parts(controls, |code|, region, reading.instrs) == Some(s) && Partition(code, region, s)
  {
    hide IsScope, Rewritable, Parts, ReadFrom, DecodeFrom, Partition, Scope.Whole, Passes, AllPass;
    if ReachesNegative(code, 0) { NegativeStopsReading(code, 0); }
    RewritableIffScope(controls, code, [region]);
    ReadsForward(Decoder, code, 0, {});
    ScopePartition(controls, code, region, s);
  }

  lemma SplicedOctets(controls: Controls, m: Members, c: Choice)
    requires m.Valid(controls) && c.Valid()
    requires Partition(CompiledOctets(m, c), CompiledRegion(m, c), CompiledScope(m, c))
    ensures Spliced(CompiledOctets(m, c), CompiledRegion(m, c), CompiledScope(m, c))
            == [0x28] + Le32(m.ctor) + [0x28] + Le32(m.Closing()) + [0x2a]
  {
    hide Spells, Le32, Abutting, EncodedAll, Scope.Whole, Partition, CompiledOctets, LocalAt;
    BodySpells(controls, m, c);
    Spelled(CompiledScope(m, c).Whole(), 0, HandlerOffset(m, c) + HandlerSize(c) + 1, CompiledOctets(m, c));
    ReturnStandsLast(m, c);
    ClosingIs(m, c);
    var code := CompiledOctets(m, c);
    assert code[|code| - 1..] == [0x2a];
    NothingKept(code, CompiledRegion(m, c), CompiledScope(m, c), m);
  }

  lemma Spelled(s: seq<Instruction>, lo: int, hi: int, octets: seq<Byte>)
    requires Spells(s, lo, hi, octets)
    ensures |octets| == hi - lo
  {
    AbuttingFacts(s, lo, hi);
  }

  lemma SpellingDecodes(code: seq<Byte>, s: seq<Instruction>)
    requires Spells(s, 0, |code|, code)
    ensures DecodeFrom(code, 0) == Some(s) && AllPass(Decoder, s)
  {
    hide DecodeFrom, Decodes;
    assert code[0..|code|] == code;
    DecodesIffEncoded(code, 0, |code|, s);
    DecodesWhole(code, s);
  }

  lemma ReturnStandsLast(m: Members, c: Choice)
    requires c.Valid()
    ensures |CompiledOctets(m, c)| > 0 && CompiledOctets(m, c)[|CompiledOctets(m, c)| - 1] == 0x2a
  {
  }

  lemma ClosingIs(m: Members, c: Choice)
    requires c.Valid()
    ensures var s := CompiledScope(m, c);
            |s.completion| in {0, 2} && |s.handler| == 5 && s.Closing() == m.Closing()
  {
  }

  lemma NothingKept(code: seq<Byte>, region: Region, s: Scope, m: Members)
    requires |s.completion| in {0, 2} && |s.handler| == 5 && s.Closing() == m.Closing() && s.ctor.token == m.ctor
    requires s.payload == [] && s.ctor.offset == 0 && region.tryOffset <= region.HandlerEnd() < |code|
    requires code[region.HandlerEnd()..] == [0x2a]
    ensures Spliced(code, region, s) == [0x28] + Le32(m.ctor) + [0x28] + Le32(m.Closing()) + [0x2a]
  {
    hide Le32, Scope.Closing;
    assert code[..0] == [] && code[region.tryOffset..region.tryOffset] == [];
  }
}
