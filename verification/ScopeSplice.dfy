/** What the rewritten octets decode to: the three kept segments, each moved as a block,
    around the two projected calls. */
module ScopeSplice {
  import opened Wrappers
  import opened Bytes
  import opened Cil
  import opened Compaction
  import opened Splicing
  import opened TransactionScope

  function CallAt(offset: nat, token: int): Instruction {
    Instruction(offset, 5, CALL, token, -1, [], [])
  }

  /** Distances the payload and the tail move. */
  function PayloadShift(region: Region, s: Scope): int { s.ctor.offset + 5 - region.tryOffset }
  function TailShift(region: Region, s: Scope): int {
    s.PayloadEnd(region) + PayloadShift(region, s) + 5 - region.HandlerEnd()
  }

  /** Offset of the inserted Commit or Abort call. */
  function CloseAt(region: Region, s: Scope): int { s.PayloadEnd(region) + PayloadShift(region, s) }

  ghost predicate Movable(region: Region, s: Scope) {
    && |s.completion| in {0, 2} && |s.handler| == 5
    && s.ctor.offset <= region.tryOffset <= s.PayloadEnd(region) <= region.HandlerEnd()
    && (forall k :: 0 <= k < |s.payload| ==> s.payload[k].offset >= region.tryOffset)
    && (forall k :: 0 <= k < |s.tail| ==> s.tail[k].offset >= region.HandlerEnd())
  }

  ghost function Rewritten(region: Region, s: Scope): seq<Instruction>
    requires Movable(region, s)
  {
    s.prefix + [CallAt(s.ctor.offset, s.ctor.token)] + ShiftAll(s.payload, PayloadShift(region, s)) +
    [CallAt(s.PayloadEnd(region) + PayloadShift(region, s), s.Closing())] + ShiftAll(s.tail, TailShift(region, s))
  }

  lemma ProjectedCallDecodes(code: seq<Byte>, at: nat, token: int)
    requires at + 5 <= |code| && code[at..at + 5] == ProjectedCall(token) && -0x8000_0000 <= token < 0x8000_0000
    ensures Decodes(code, at, at + 5, [CallAt(at, token)])
  {
    hide Le32;
    CallTakesToken();
    Le32Reads(token);
    var s := code[at..at + 5];
    assert code[at] == s[0] == CALL && code[at + 1] == s[1] && code[at + 2] == s[2] && code[at + 3] == s[3]
           && code[at + 4] == s[4];
    assert Int32At(code, at + 1) == token;
    CallDecodes(code, at);
    assert [CallAt(at, token)][1..] == [];
  }

  lemma CallDecodes(code: seq<Byte>, at: nat)
    requires at + 5 <= |code| && code[at] == CALL
    ensures DecodeAt(code, at) == Some(CallAt(at, Int32At(code, at + 1)))
  {
  }

  /** A member token read out of the body is a 32-bit integer. */
  lemma TokenIsInt32(code: seq<Byte>, instrs: seq<Instruction>, k: nat)
    requires DecodeFrom(code, 0) == Some(instrs) && k < |instrs|
    ensures -0x8000_0000 <= instrs[k].token < 0x8000_0000
  {
    hide DecodeAt, OperandOf;
    DecodeFills(code, 0);
    DecodesConsecutive(code, 0, |code|, instrs);
    assert WellFormed(instrs[k]);
  }

  lemma ClosingIsInt32(code: seq<Byte>, controls: Controls, region: Region, s: Scope)
    requires IsScopeOf(controls, code, region, s)
    ensures |s.completion| in {0, 2} && |s.handler| == 5
    ensures -0x8000_0000 <= s.ctor.token < 0x8000_0000 && -0x8000_0000 <= s.Closing() < 0x8000_0000
  {
    hide DecodeAt, IsPayload, AllWithin, LocalIndex, DecodeFrom;
    var w, p := s.Whole(), |s.prefix| + 2;
    WholeCuts(s);
    TokenIsInt32(code, w, p - 2);
    assert w[p - 2] == s.ctor;
    var q := p + |s.payload| + |s.completion| + 1;
    if s.Completed() {
      TokenIsInt32(code, w, q - 2);
      assert w[q - 2] == w[q - 3..q - 1][1] == s.completion[1];
    } else {
      TokenIsInt32(code, w, q + 3);
      assert w[q + 3] == w[q..q + 5][3] == s.handler[3];
    }
  }

  lemma PartitionMoves(code: seq<Byte>, region: Region, s: Scope)
    requires Partition(code, region, s)
    ensures Movable(region, s)
  {
    hide DecodeAt, Decodes;
    DecodesBounds(code, region.tryOffset, s.PayloadEnd(region), s.payload);
    DecodesBounds(code, region.HandlerEnd(), |code|, s.tail);
  }

  /** Decoding the rewritten octets gives the rewritten instruction list: every kept
      instruction and every branch lands on the moved image of what it was. */
  lemma SpliceDecodes(code: seq<Byte>, controls: Controls, region: Region, s: Scope)
    requires IsScopeOf(controls, code, region, s)
    ensures Partition(code, region, s) && Movable(region, s)
    ensures DecodeFrom(Spliced(code, region, s), 0) == Some(Rewritten(region, s))
  {
    hide DecodeAt, Decodes, IsScope, ShiftAll, Le32, Scope.PayloadEnd, Scope.Closing;
    ScopePartition(controls, code, region, s);
    PartitionMoves(code, region, s);
    ClosingIsInt32(code, controls, region, s);
    var out := Spliced(code, region, s);
    var c0, p0, p1, h := s.ctor.offset, region.tryOffset, s.PayloadEnd(region), region.HandlerEnd();
    var a := c0 + 5;
    var b := a + (p1 - p0);
    var t := b + 5;
    SplicedLayout(code, region, s);
    DecodesMoved(code, 0, c0, s.prefix, out, 0);
    NoShift(s.prefix);
    ProjectedCallDecodes(out, c0, s.ctor.token);
    DecodesMoved(code, p0, p1, s.payload, out, a);
    ProjectedCallDecodes(out, b, s.Closing());
    DecodesMoved(code, h, |code|, s.tail, out, t);
    var one, two := [CallAt(c0, s.ctor.token)], [CallAt(b, s.Closing())];
    var body := ShiftAll(s.payload, PayloadShift(region, s));
    var rest := ShiftAll(s.tail, TailShift(region, s));
    DecodesJoin(out, 0, c0, a, s.prefix, one);
    DecodesJoin(out, 0, a, b, s.prefix + one, body);
    DecodesJoin(out, 0, b, t, s.prefix + one + body, two);
    DecodesJoin(out, 0, t, |out|, s.prefix + one + body + two, rest);
    DecodesWhole(out, s.prefix + one + body + two + rest);
  }

  lemma NoShift(instrs: seq<Instruction>)
    ensures ShiftAll(instrs, 0) == instrs
  {
    forall k | 0 <= k < |instrs|
      ensures Shift(instrs[k], 0) == instrs[k]
    {
      assert Shift(instrs[k], 0).targets == instrs[k].targets;
    }
  }

  lemma SplicedLayout(code: seq<Byte>, region: Region, s: Scope)
    requires Partition(code, region, s)
    ensures var out := Spliced(code, region, s);
            var c0, p0, p1, h := s.ctor.offset, region.tryOffset, s.PayloadEnd(region), region.HandlerEnd();
            var b := c0 + 5 + (p1 - p0);
            && |out| == b + 5 + (|code| - h)
            && SameOctets(code, 0, out, 0, c0)
            && out[c0..c0 + 5] == ProjectedCall(s.ctor.token)
            && SameOctets(code, p0, out, c0 + 5, p1 - p0)
            && out[b..b + 5] == ProjectedCall(s.Closing())
            && SameOctets(code, h, out, b + 5, |code| - h)
  {
    hide Decodes, ProjectedCall, Scope.PayloadEnd, Scope.Closing;
    var out := Spliced(code, region, s);
    var c0, p0, p1, h := s.ctor.offset, region.tryOffset, s.PayloadEnd(region), region.HandlerEnd();
    var b := c0 + 5 + (p1 - p0);
    Layout(code[..c0], ProjectedCall(s.ctor.token), code[p0..p1], ProjectedCall(s.Closing()), code[h..]);
    SliceSame(code, 0, out, 0, c0);
    SliceSame(code, p0, out, c0 + 5, p1 - p0);
    SliceSame(code, h, out, b + 5, |code| - h);
  }

  lemma Layout<T>(a: seq<T>, x: seq<T>, b: seq<T>, y: seq<T>, c: seq<T>)
    ensures var out := a + x + b + y + c;
            && out[0..|a|] == a && out[|a|..|a| + |x|] == x && out[|a| + |x|..|a| + |x| + |b|] == b
            && out[|a| + |x| + |b|..|a| + |x| + |b| + |y|] == y
            && out[|a| + |x| + |b| + |y|..|a| + |x| + |b| + |y| + |c|] == c
  {
  }
}
