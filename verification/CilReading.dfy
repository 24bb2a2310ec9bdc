/** When the decoder's loop is the left-to-right reading of the body, and what a negative switch
    count does instead. */
module CilReading {
  import opened Wrappers
  import opened Bytes
  import opened Cil

  /** Reading left to right comes to a switch with a negative count. */
  predicate ReachesNegative(code: seq<Byte>, pc: nat)
    decreases |code| - pc
  {
    pc < |code| &&
    (NegativeAt(code, pc) || (DecodeAt(code, pc).Some? && ReachesNegative(code, DecodeAt(code, pc).value.End())))
  }

  function LeftToRight(reader: Reader, code: seq<Byte>, pc: nat): Reading
    requires pc <= |code|
  {
    if DecodeFrom(code, pc).Some? && AllPass(reader, DecodeFrom(code, pc).value) then Listed(DecodeFrom(code, pc).value)
    else Throws
  }

  lemma NegativeIsNotRead(code: seq<Byte>, pc: nat)
    requires pc < |code| && NegativeAt(code, pc)
    ensures DecodeAt(code, pc).None?
  {
    hide Int32At;
    SwitchTurn(code, pc);
  }

  lemma {:induction false} NegativeStopsReading(code: seq<Byte>, pc: nat)
    requires pc <= |code| && ReachesNegative(code, pc)
    ensures DecodeFrom(code, pc).None?
    decreases |code| - pc
  {
    if NegativeAt(code, pc) {
      NegativeIsNotRead(code, pc);
    } else {
      NegativeStopsReading(code, DecodeAt(code, pc).value.End());
    }
  }

  /** Without a negative count the cursor only goes forward. */
  lemma {:induction false} ReadsForward(reader: Reader, code: seq<Byte>, pc: nat, seen: set<int>)
    requires pc <= |code| && !ReachesNegative(code, pc) && forall x :: x in seen ==> x < pc
    ensures ReadFrom(reader, code, pc, seen) == LeftToRight(reader, code, pc)
    decreases |code| - pc
  {
    hide DecodeAt, Passes;
    if pc < |code| && DecodeAt(code, pc).Some? {
      var i := DecodeAt(code, pc).value;
      ReadsForward(reader, code, i.End(), seen + {pc});
      if DecodeFrom(code, i.End()).Some? { AllPassFirst(reader, i, DecodeFrom(code, i.End()).value); }
    } else if pc < |code| {
      NothingHere(reader, code, pc);
    }
  }

  lemma AllPassFirst(reader: Reader, first: Instruction, rest: seq<Instruction>)
    ensures AllPass(reader, [first] + rest) <==> Passes(reader, first) && AllPass(reader, rest)
  {
    hide Passes;
    var all := [first] + rest;
    assert all[0] == first && forall k :: 0 <= k < |rest| ==> all[k + 1] == rest[k];
  }

  lemma NothingHere(reader: Reader, code: seq<Byte>, pc: nat)
    requires pc < |code| && DecodeAt(code, pc).None? && !NegativeAt(code, pc)
    ensures TurnAt(reader, code, pc).None?
  {
    hide DecodeAt;
  }

  /** What Decode lists is the body from left to right exactly when reading it that way comes to no
      switch with a negative count. */
  lemma ListedLeftToRightIff(code: seq<Byte>)
    requires ReadFrom(Decoder, code, 0, {}).Listed?
    ensures Decodes(code, 0, |code|, ReadFrom(Decoder, code, 0, {}).instrs) <==> !ReachesNegative(code, 0)
  {
    hide ReadFrom, ReachesNegative, DecodeFrom, Decodes, Passes, AllPass;
    if ReachesNegative(code, 0) {
      NegativeStopsReading(code, 0);
      if Decodes(code, 0, |code|, ReadFrom(Decoder, code, 0, {}).instrs) { DecodesWholeBody(code); }
    } else {
      ReadsForward(Decoder, code, 0, {});
      DecodeFills(code, 0);
    }
  }

  lemma DecodesWholeBody(code: seq<Byte>)
    requires ReadFrom(Decoder, code, 0, {}).Listed?
    requires Decodes(code, 0, |code|, ReadFrom(Decoder, code, 0, {}).instrs)
    ensures DecodeFrom(code, 0).Some?
  {
    hide DecodeAt, ReadFrom;
    DecodePrefix(code, 0, |code|, ReadFrom(Decoder, code, 0, {}).instrs);
  }

  /** Where Decode does not throw, every reader takes its turns. */
  lemma {:induction false} SameTurns(reader: Reader, code: seq<Byte>, pc: int, seen: set<int>)
    requires ReadFrom(Decoder, code, pc, seen) != Throws
    ensures ReadFrom(reader, code, pc, seen) == ReadFrom(Decoder, code, pc, seen)
    decreases Cursors(|code|) - seen
  {
    hide ShapeAt, Passes;
    if 0 <= pc < |code| && pc !in seen {
      assert pc in Cursors(|code|) - seen;
      DecoderIsStrictest(reader, ShapeAt(code, pc).value);
      SameTurns(reader, code, TurnAt(Decoder, code, pc).value.End(), seen + {pc});
    }
  }

  lemma DecoderIsStrictest(reader: Reader, i: Instruction)
    ensures Passes(Decoder, i) ==> Passes(reader, i)
  {
  }

  // ---- Endless means endless ----

  /** The loop body runs at least `n` times from `pc`. */
  predicate Turns(reader: Reader, code: seq<Byte>, pc: int, n: nat)
    decreases n
  {
    || n == 0
    || (0 <= pc < |code| && TurnAt(reader, code, pc).Some? &&
        Turns(reader, code, TurnAt(reader, code, pc).value.End(), n - 1))
  }

  /** Cursors from which the loop always comes to another of them. */
  ghost predicate Trapped(reader: Reader, code: seq<Byte>, cursors: set<int>) {
    forall pc :: pc in cursors ==>
      0 <= pc < |code| && TurnAt(reader, code, pc).Some? && TurnAt(reader, code, pc).value.End() in cursors
  }

  lemma {:induction false} TrappedTurns(reader: Reader, code: seq<Byte>, cursors: set<int>, pc: int, n: nat)
    requires Trapped(reader, code, cursors) && pc in cursors
    ensures Turns(reader, code, pc, n)
    decreases n
  {
    hide TurnAt;
    if n > 0 { TrappedTurns(reader, code, cursors, TurnAt(reader, code, pc).value.End(), n - 1); }
  }

  /** Every cursor seen leads to another one, the last to `pc`. */
  ghost predicate Chained(reader: Reader, code: seq<Byte>, pc: int, seen: set<int>) {
    forall x :: x in seen ==>
      0 <= x < |code| && TurnAt(reader, code, x).Some? &&
      (TurnAt(reader, code, x).value.End() in seen || TurnAt(reader, code, x).value.End() == pc)
  }

  lemma {:induction false} EndlessIsTrapped(reader: Reader, code: seq<Byte>, pc: int, seen: set<int>)
    returns (cursors: set<int>)
    requires ReadFrom(reader, code, pc, seen).Endless? && Chained(reader, code, pc, seen)
    ensures Trapped(reader, code, cursors) && seen <= cursors && pc in cursors
    decreases Cursors(|code|) - seen
  {
    hide TurnAt;
    if pc in seen {
      cursors := seen;
    } else {
      assert pc in Cursors(|code|) - seen;
      cursors := EndlessIsTrapped(reader, code, TurnAt(reader, code, pc).value.End(), seen + {pc});
    }
  }

  lemma {:induction false} OthersStop(reader: Reader, code: seq<Byte>, pc: int, seen: set<int>) returns (n: nat)
    requires !ReadFrom(reader, code, pc, seen).Endless?
    ensures !Turns(reader, code, pc, n)
    decreases Cursors(|code|) - seen
  {
    hide TurnAt;
    n := 1;
    if 0 <= pc < |code| && TurnAt(reader, code, pc).Some? {
      assert pc in Cursors(|code|) - seen;
      var rest := OthersStop(reader, code, TurnAt(reader, code, pc).value.End(), seen + {pc});
      n := rest + 1;
    }
  }

  /** The model's third outcome is a loop that never ends, and nothing else is. */
  lemma EndlessIff(reader: Reader, code: seq<Byte>)
    ensures ReadFrom(reader, code, 0, {}).Endless? <==> forall n: nat :: Turns(reader, code, 0, n)
  {
    hide ReadFrom, Turns;
    if ReadFrom(reader, code, 0, {}).Endless? {
      var cursors := EndlessIsTrapped(reader, code, 0, {});
      forall n: nat
        ensures Turns(reader, code, 0, n)
      {
        TrappedTurns(reader, code, cursors, 0, n);
      }
    } else {
      var n := OthersStop(reader, code, 0, {});
    }
  }

  // ---- Two bodies ----

  function Lone(offset: nat, opcode: int): Instruction { Instruction(offset, 1, opcode, 0, -1, [], []) }

  lemma LoneTurn(code: seq<Byte>, pc: nat)
    requires pc < |code| && code[pc] in {0, 0xff}
    ensures TurnAt(Decoder, code, pc) == Some(Lone(pc, code[pc]))
  {
    assert code[pc + 1..pc + 1] == [];
  }

  lemma MinusOne(code: seq<Byte>)
    requires code == [SWITCH, 0xff, 0xff, 0xff, 0xff]
    ensures TurnAt(Decoder, code, 0) == Some(Lone(0, SWITCH)) && DecodeFrom(code, 0).None?
  {
    hide DecodeFrom, ShapeAt;
    assert Int32At(code, 1) == -1;
    SwitchTurn(code, 0);
    assert NegativeAt(code, 0);
    NegativeStopsReading(code, 0);
  }

  lemma BodyEnds(code: seq<Byte>, seen: set<int>)
    ensures ReadFrom(Decoder, code, |code|, seen) == Listed([])
  {
  }

  /** A count of minus one has its own four octets read again as instructions. */
  lemma CountReadAsCode()
    ensures var code := [SWITCH, 0xff, 0xff, 0xff, 0xff];
            && ReadFrom(Decoder, code, 0, {}) ==
               Listed([Lone(0, SWITCH), Lone(1, 0xff), Lone(2, 0xff), Lone(3, 0xff), Lone(4, 0xff)])
            && DecodeFrom(code, 0).None?
  {
    hide TurnAt, DecodeFrom, ReadFrom;
    var code := [SWITCH, 0xff, 0xff, 0xff, 0xff];
    MinusOne(code);
    LoneTurn(code, 1);
    LoneTurn(code, 2);
    LoneTurn(code, 3);
    LoneTurn(code, 4);
    BodyEnds(code, {0} + {1} + {2} + {3} + {4});
    assert {} + {0} == {0};
    Turn(code, 4, {0} + {1} + {2} + {3}, Listed([]));
    Turn(code, 3, {0} + {1} + {2}, Listed([Lone(4, 0xff)]));
    Turn(code, 2, {0} + {1}, Listed([Lone(3, 0xff)] + [Lone(4, 0xff)]));
    Turn(code, 1, {0}, Listed([Lone(2, 0xff)] + ([Lone(3, 0xff)] + [Lone(4, 0xff)])));
    Turn(code, 0, {}, Listed([Lone(1, 0xff)] + ([Lone(2, 0xff)] + ([Lone(3, 0xff)] + [Lone(4, 0xff)]))));
  }

  lemma Turn(code: seq<Byte>, pc: nat, seen: set<int>, rest: Reading)
    requires pc < |code| && pc !in seen && TurnAt(Decoder, code, pc).Some?
    requires ReadFrom(Decoder, code, TurnAt(Decoder, code, pc).value.End(), seen + {pc}) == rest
    ensures ReadFrom(Decoder, code, pc, seen) == Prefixed([TurnAt(Decoder, code, pc).value], rest)
  {
    hide TurnAt;
  }

  /** A count of minus two behind three nops sends the cursor back to the start, for ever. */
  lemma CountLoopsForEver()
    ensures ReadFrom(Decoder, [0, 0, 0, SWITCH, 0xfe, 0xff, 0xff, 0xff], 0, {}).Endless?
  {
    var code := [0, 0, 0, SWITCH, 0xfe, 0xff, 0xff, 0xff];
    assert Int32At(code, 4) == -2;
    SwitchTurn(code, 3);
    LoneTurn(code, 0);
    LoneTurn(code, 1);
    LoneTurn(code, 2);
    hide TurnAt;
    var back := TurnAt(Decoder, code, 3).value;
    assert {} + {0} == {0} && back.End() == 0;
    assert ReadFrom(Decoder, code, 0, {0} + {1} + {2} + {3}) == Endless([]);
    Turn(code, 3, {0} + {1} + {2}, Endless([]));
    Turn(code, 2, {0} + {1}, Endless([back] + []));
    Turn(code, 1, {0}, Endless([Lone(2, 0)] + ([back] + [])));
    Turn(code, 0, {}, Endless([Lone(1, 0)] + ([Lone(2, 0)] + ([back] + []))));
  }
}
