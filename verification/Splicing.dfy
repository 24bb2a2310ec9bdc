/** Moving decoded instructions: a run of instructions keeps its meaning wherever its
    octets are copied, with offsets and branch targets moved by the same distance. */
module Splicing {
  import opened Wrappers
  import opened Bytes
  import opened Cil

  function Shift(i: Instruction, d: int): Instruction
    requires i.offset + d >= 0
  {
    i.(offset := i.offset + d, targets := seq(|i.targets|, j requires 0 <= j < |i.targets| => i.targets[j] + d))
  }

  function ShiftAll(instrs: seq<Instruction>, d: int): (r: seq<Instruction>)
    requires forall k :: 0 <= k < |instrs| ==> instrs[k].offset + d >= 0
    ensures |r| == |instrs|
  {
    seq(|instrs|, k requires 0 <= k < |instrs| => Shift(instrs[k], d))
  }

  lemma SameWord(code: seq<Byte>, at: nat, copy: seq<Byte>, to: nat, n: nat, x: nat)
    requires SameOctets(code, at, copy, to, n) && x + 4 <= n
    ensures Int32At(copy, to + x) == Int32At(code, at + x)
  {
  }

  lemma SamePart(code: seq<Byte>, at: nat, copy: seq<Byte>, to: nat, n: nat, x: nat, m: nat)
    requires SameOctets(code, at, copy, to, n) && x + m <= n
    ensures SameOctets(code, at + x, copy, to + x, m)
  {
  }

  lemma SameOperand(kind: OperandType, code: seq<Byte>, at: nat, copy: seq<Byte>, to: nat, n: nat)
    requires OperandLength(kind, code, at) == Some(n) && SameOctets(code, at, copy, to, n)
    ensures OperandLength(kind, copy, to) == Some(n)
    ensures VariableAt(kind, copy, to) == VariableAt(kind, code, at)
    ensures IsToken(kind) ==> n == 4 && Int32At(copy, to) == Int32At(code, at)
    ensures copy[to..to + n] == code[at..at + n]
  {
    if kind.InlineSwitch? || IsToken(kind) { SameWord(code, at, copy, to, n, 0); }
    assert copy[to..to + n] == code[at..at + n];
  }

  lemma SameTargets(kind: OperandType, code: seq<Byte>, at: nat, copy: seq<Byte>, to: nat, n: nat)
    requires OperandLength(kind, code, at) == Some(n) && SameOctets(code, at, copy, to, n)
    requires OperandLength(kind, copy, to) == Some(n)
    ensures var before, moved := BranchTargets(kind, code, at), BranchTargets(kind, copy, to);
            |moved| == |before| && forall j :: 0 <= j < |before| ==> moved[j] == before[j] + (to - at)
  {
    if kind.InlineBrTarget? { SameWord(code, at, copy, to, n, 0); }
    if kind.InlineSwitch? {
      SameWord(code, at, copy, to, n, 0);
      forall j | 0 <= j < Int32At(code, at)
        ensures Int32At(copy, to + 4 + 4 * j) == Int32At(code, at + 4 + 4 * j)
      {
        SameWord(code, at, copy, to, n, 4 + 4 * j);
      }
    }
  }

  /** Decoding one instruction depends on its own octets only. */
  lemma DecodeMoved(code: seq<Byte>, pc: nat, copy: seq<Byte>, to: nat)
    requires pc < |code| && DecodeAt(code, pc).Some?
    requires SameOctets(code, pc, copy, to, DecodeAt(code, pc).value.size)
    ensures to < |copy| && DecodeAt(copy, to) == Some(Shift(DecodeAt(code, pc).value, to - pc))
  {
    hide OperandOf, OperandLength, VariableAt, BranchTargets;
    var i := DecodeAt(code, pc).value;
    assert copy[to] == code[pc];
    if code[pc] == 0xfe { assert copy[to + 1] == code[pc + 1]; }
    assert OpcodeAt(copy, to) == OpcodeAt(code, pc);
    var kind := OperandOf(i.opcode).value;
    var skip := OpcodeSize(i.opcode);
    var n := OperandLength(kind, code, pc + skip).value;
    SamePart(code, pc, copy, to, i.size, skip, n);
    SameOperand(kind, code, pc + skip, copy, to + skip, n);
    SameTargets(kind, code, pc + skip, copy, to + skip, n);
    assert DecodeAt(copy, to).value.targets == Shift(i, to - pc).targets;
  }

  lemma {:induction false} DecodesBounds(code: seq<Byte>, lo: nat, hi: nat, instrs: seq<Instruction>)
    requires Decodes(code, lo, hi, instrs)
    ensures lo <= hi && (lo <= |code| ==> hi <= |code|)
    ensures forall k :: 0 <= k < |instrs| ==> lo <= instrs[k].offset < instrs[k].End() <= hi
    ensures instrs != [] ==> instrs[|instrs| - 1].End() == hi && instrs[0].offset == lo
    decreases |instrs|
  {
    hide DecodeAt;
    if instrs != [] {
      var rest := instrs[1..];
      DecodesBounds(code, instrs[0].End(), hi, rest);
      forall k | 0 <= k < |instrs|
        ensures lo <= instrs[k].offset < instrs[k].End() <= hi
      {
        if k > 0 { assert instrs[k] == rest[k - 1]; }
      }
      if rest != [] { assert instrs[|instrs| - 1] == rest[|rest| - 1]; }
    }
  }

  lemma {:induction false} DecodesMoved(code: seq<Byte>, lo: nat, hi: nat, instrs: seq<Instruction>, copy: seq<Byte>,
                                        to: nat)
    requires Decodes(code, lo, hi, instrs) && lo <= hi && SameOctets(code, lo, copy, to, hi - lo)
    ensures forall k :: 0 <= k < |instrs| ==> instrs[k].offset + (to - lo) >= 0
    ensures Decodes(copy, to, to + (hi - lo), ShiftAll(instrs, to - lo))
    decreases |instrs|
  {
    hide DecodeAt, Shift;
    DecodesBounds(code, lo, hi, instrs);
    if instrs != [] {
      var first, rest := instrs[0], instrs[1..];
      assert first.End() <= hi;
      SamePart(code, lo, copy, to, hi - lo, 0, first.size);
      DecodeMoved(code, lo, copy, to);
      SamePart(code, lo, copy, to, hi - lo, first.size, hi - first.End());
      DecodesMoved(code, first.End(), hi, rest, copy, to + first.size);
      assert ShiftAll(instrs, to - lo)[1..] == ShiftAll(rest, to - lo);
      ShiftEnd(first, to - lo);
    }
  }

  lemma ShiftEnd(i: Instruction, d: int)
    requires i.offset + d >= 0
    ensures Shift(i, d).End() == i.End() + d
  {
  }

  lemma {:induction false} DecodesJoin(code: seq<Byte>, lo: nat, mid: nat, hi: nat, a: seq<Instruction>,
                                       b: seq<Instruction>)
    requires Decodes(code, lo, mid, a) && Decodes(code, mid, hi, b)
    ensures Decodes(code, lo, hi, a + b)
    decreases |a|
  {
    hide DecodeAt;
    if a == [] {
      assert a + b == b;
    } else {
      DecodesJoin(code, a[0].End(), mid, hi, a[1..], b);
      assert (a + b)[1..] == a[1..] + b;
    }
  }

  /** A part of a decoded run is a decoded run. */
  lemma {:induction false} DecodesSplit(code: seq<Byte>, lo: nat, hi: nat, a: seq<Instruction>, b: seq<Instruction>)
    returns (mid: nat)
    requires Decodes(code, lo, hi, a + b)
    ensures Decodes(code, lo, mid, a) && Decodes(code, mid, hi, b)
    ensures a != [] ==> mid == a[|a| - 1].End()
    ensures a == [] ==> mid == lo
    ensures b != [] ==> mid == b[0].offset
    decreases |a|
  {
    hide DecodeAt;
    if a == [] {
      assert a + b == b;
      mid := lo;
    } else {
      assert (a + b)[1..] == a[1..] + b;
      mid := DecodesSplit(code, a[0].End(), hi, a[1..], b);
    }
    if b != [] { DecodesBounds(code, mid, hi, b); }
  }

  /** A run that fills the whole body is what Decode returns. */
  lemma DecodesWhole(code: seq<Byte>, instrs: seq<Instruction>)
    requires Decodes(code, 0, |code|, instrs)
    ensures DecodeFrom(code, 0) == Some(instrs)
  {
    hide DecodeAt;
    DecodePrefix(code, 0, |code|, instrs);
    assert instrs + [] == instrs;
  }
}
