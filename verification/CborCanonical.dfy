/** Encoding and decoding are inverse: every record has one accepted encoding, and every
    accepted encoding is the encoding of its record. */
module CborCanonical {
  import opened Wrappers
  import opened Bytes
  import opened Utf8
  import opened Cbor

  // ---- Heads ----

  lemma Powers()
    ensures Pow256(1) == 0x100 && Pow256(2) == 0x1_0000 && Pow256(4) == 0x1_0000_0000
    ensures Pow256(8) == 0x1_0000_0000_0000_0000
  {
    assert Pow256(0) == 1;
    assert Pow256(3) == 0x100_0000;
    assert Pow256(6) == 256 * 256 * Pow256(4);
  }

  /** A written head reads back, whatever follows it. */
  lemma HeadReads(major: Major, value: int, data: seq<Byte>, at: nat, negatives: bool)
    requires major <= 4 && (major == 1 ==> negatives)
    requires Argument(major, value).Some?
             && SameOctets(Argument(major, value).value, 0, data, at, |Argument(major, value).value|)
    ensures HeadAt(data, at, negatives) == Some(Head(major, value, at + |Argument(major, value).value|))
    ensures SimpleAt(data, at).None?
  {
    hide BigEndian, FromBigEndian, Argument, Width, Least;
    var head := Argument(major, value).value;
    var additional := HeadShape(major, value);
    var initial: int := major * 32 + additional;
    assert data[at] == head[0] == initial;
    assert initial / 32 == major && initial % 32 == additional;
    if value >= 24 {
      var n := Width(additional);
      assert data[at + 1..at + 1 + n] == head[1..] == BigEndian(value, n);
      BigEndianReads(value, n);
    }
  }

  /** The additional information of a head, and how long its argument is. */
  lemma HeadShape(major: Major, value: int) returns (additional: int)
    requires Argument(major, value).Some?
    ensures 0 <= additional <= 27
    ensures value < 24 <==> additional < 24
    ensures value < 24 ==> additional == value && Argument(major, value).value == [major * 32 + value]
    ensures value >= 24 ==>
              && Argument(major, value).value == [major * 32 + additional] + BigEndian(value, Width(additional))
              && Least(additional) <= value < Pow256(Width(additional))
  {
    hide BigEndian;
    Powers();
    additional := if value < 24 then value else if value < 0x100 then 24 else if value < 0x1_0000 then 25
                  else if value < 0x1_0000_0000 then 26 else 27;
  }

  /** The major type in the three high bits; then the argument, or 24 to 27 and the argument in one,
      two, four or eight octets, the highest first, and never in more than it needs. */
  lemma HeadSays(major: Major, value: int)
    requires Argument(major, value).Some?
    ensures var s := Argument(major, value).value;
            && s != [] && s[0] / 32 == major
            && (value < 24 ==> |s| == 1 && s[0] % 32 == value)
            && (24 <= value < 0x100 ==> |s| == 2 && s[0] % 32 == 24)
            && (0x100 <= value < 0x1_0000 ==> |s| == 3 && s[0] % 32 == 25)
            && (0x1_0000 <= value < 0x1_0000_0000 ==> |s| == 5 && s[0] % 32 == 26)
            && (0x1_0000_0000 <= value ==> |s| == 9 && s[0] % 32 == 27)
            && forall k :: 1 <= k < |s| ==> s[k] == value / Pow256(|s| - 1 - k) % 256
  {
    hide BigEndian, Pow256;
    var s := Argument(major, value).value;
    forall k | 1 <= k < |s| ensures s[k] == value / Pow256(|s| - 1 - k) % 256 {
      BigEndianAt(value, |s| - 1, k - 1);
      assert s[k] == s[1..][k - 1];
    }
  }

  /** The major type of each kind of value, and the three simple values. */
  lemma EncodedSays(value: Value)
    requires Encode(value).Some?
    ensures var s := Encode(value).value;
            match value
            case Null => s == [0xF6]
            case Boolean(flag) => s == [if flag then 0xF5 else 0xF4]
            case Integer(number) =>
              s != [] && if number < 0 then s[0] / 32 == 1 && Some(s) == Argument(1, -1 - number) else s[0] / 32 == 0
            case Binary(octets) => s != [] && s[0] / 32 == 2 && |octets| <= |s| && s[|s| - |octets|..] == octets
            case Text(characters) => s != [] && s[0] / 32 == 3
            case List(items) => s != [] && s[0] / 32 == 4
  {
    hide Argument;
    match value
    case Null =>
    case Boolean(_) =>
    case Integer(number) => if number < 0 { HeadSays(1, -1 - number); } else { HeadSays(0, number); }
    case Binary(octets) => HeadSays(2, |octets|);
    case Text(characters) => HeadSays(3, |Utf8Of(characters)|);
    case List(items) => HeadSays(4, |items|);
  }

  /** An accepted head is the written one: the argument's shortest form. */
  lemma HeadWrites(data: seq<Byte>, at: nat, negatives: bool)
    requires HeadAt(data, at, negatives).Some?
    ensures var h := HeadAt(data, at, negatives).value; Argument(h.major, h.argument) == Some(data[at..h.next])
  {
    hide BigEndian, FromBigEndian;
    var h := HeadAt(data, at, negatives).value;
    Powers();
    assert data[at..at + 1] == [data[at]];
    var initial: int := data[at];
    assert initial == initial / 32 * 32 + initial % 32;
    if h.next > at + 1 {
      BigEndianWrites(data[at + 1..h.next]);
      assert data[at..h.next] == [data[at]] + data[at + 1..h.next];
    }
  }

  // ---- Values ----

  /** No integer below zero anywhere, which ManifestCbor does not read. */
  predicate NonNegative(value: Value) {
    match value
    case Integer(number) => number >= 0
    case List(items) => AllNonNegative(items)
    case _ => true
  }

  predicate AllNonNegative(items: seq<Value>) {
    items == [] || (NonNegative(items[0]) && AllNonNegative(items[1..]))
  }

  function Octets(value: Value): seq<Byte>
    requires Encode(value).Some?
  {
    Encode(value).value
  }

  lemma {:induction false} EveryItemTakesRoom(items: seq<Value>)
    requires EncodeAll(items).Some?
    ensures |EncodeAll(items).value| >= |items|
  {
    if items != [] {
      EncodedNonempty(items[0]);
      EveryItemTakesRoom(items[1..]);
    }
  }

  lemma EncodedNonempty(value: Value)
    requires Encode(value).Some?
    ensures |Octets(value)| >= 1
  {
  }

  /** `data` holds these octets at `at`. */
  predicate Holds(data: seq<Byte>, at: nat, octets: seq<Byte>) {
    SameOctets(octets, 0, data, at, |octets|)
  }

  lemma HoldsSplit(data: seq<Byte>, at: nat, a: seq<Byte>, b: seq<Byte>)
    requires Holds(data, at, a + b)
    ensures Holds(data, at, a) && Holds(data, at + |a|, b)
  {
    forall p | 0 <= p < |a|
      ensures a[p] == data[p + at]
    {
      assert (a + b)[p] == a[p];
    }
    forall p | 0 <= p < |b|
      ensures b[p] == data[p + (at + |a|)]
    {
      assert (a + b)[p + |a|] == b[p];
    }
  }

  lemma HoldsSlice(data: seq<Byte>, at: nat, octets: seq<Byte>)
    requires Holds(data, at, octets)
    ensures at + |octets| <= |data| && data[at..at + |octets|] == octets
  {
  }

  /** A value no deeper than the limit reads back from its octets, whatever follows them. */
  lemma {:induction false} EncodedReads(value: Value, data: seq<Byte>, at: nat, depth: int, negatives: bool)
    requires Encode(value).Some? && Holds(data, at, Octets(value))
    requires depth + Depth(value) <= MAXIMUM_DEPTH && (negatives || NonNegative(value))
    ensures ItemAt(data, at, depth, negatives) == Some(Item(value, at + |Octets(value)|))
    decreases value, 0
  {
    hide HeadAt, Argument, TextOf, Utf8Of, SameOctets, ItemsAt, EncodeAll;
    match value
    case Null => LoneOctet(data, at, 0xF6);
    case Boolean(flag) => LoneOctet(data, at, if flag then 0xF5 else 0xF4);
    case Integer(number) =>
      HeadReads(if number >= 0 then 0 else 1, if number >= 0 then number else -1 - number, data, at, negatives);
    case Binary(octets) =>
      PayloadReads(2, |octets|, octets, data, at, negatives);
    case Text(characters) =>
      TextReads(characters);
      PayloadReads(3, |Utf8Of(characters)|, Utf8Of(characters), data, at, negatives);
    case List(items) =>
      var body := EncodeAll(items).value;
      PayloadReads(4, |items|, body, data, at, negatives);
      var next := at + |Argument(4, |items|).value|;
      EveryItemTakesRoom(items);
      AllReads(items, data, next, depth + 1, negatives);
  }

  lemma LoneOctet(data: seq<Byte>, at: nat, octet: Byte)
    requires Holds(data, at, [octet])
    ensures at < |data| && data[at] == octet
  {
    assert [octet][0] == data[at];
  }

  lemma PayloadReads(major: Major, count: int, payload: seq<Byte>, data: seq<Byte>, at: nat, negatives: bool)
    requires 2 <= major <= 4 && Argument(major, count).Some? && Holds(data, at, Argument(major, count).value + payload)
    ensures var next := at + |Argument(major, count).value|;
            && SimpleAt(data, at).None? && HeadAt(data, at, negatives) == Some(Head(major, count, next))
            && next + |payload| <= |data| && Holds(data, next, payload) && data[next..next + |payload|] == payload
  {
    hide HeadAt, Argument, SameOctets;
    var head := Argument(major, count).value;
    HoldsSplit(data, at, head, payload);
    HeadReads(major, count, data, at, negatives);
    HoldsSlice(data, at + |head|, payload);
  }

  lemma {:induction false} AllReads(items: seq<Value>, data: seq<Byte>, at: nat, depth: int, negatives: bool)
    requires EncodeAll(items).Some? && Holds(data, at, EncodeAll(items).value)
    requires depth + DepthAll(items) <= MAXIMUM_DEPTH + 1 && (negatives || AllNonNegative(items))
    ensures at <= |data|
            && ItemsAt(data, at, depth, negatives, |items|) == Some(Items(items, at + |EncodeAll(items).value|))
    decreases items, 1
  {
    hide HeadAt, Argument, SameOctets, Encode, ItemAt;
    HoldsSlice(data, at, EncodeAll(items).value);
    if items != [] {
      var first, rest := items[0], items[1..];
      HoldsSplit(data, at, Octets(first), EncodeAll(rest).value);
      EncodedReads(first, data, at, depth, negatives);
      AllReads(rest, data, at + |Octets(first)|, depth, negatives);
      assert items == [first] + rest;
    }
  }

  /** An accepted item's octets are the encoding of its value. */
  lemma {:induction false} DecodedWrites(data: seq<Byte>, at: nat, depth: int, negatives: bool)
    requires at <= |data| && ItemAt(data, at, depth, negatives).Some?
    ensures var item := ItemAt(data, at, depth, negatives).value;
            && Encode(item.value) == Some(data[at..item.next])
            && depth + Depth(item.value) <= MAXIMUM_DEPTH && (negatives || NonNegative(item.value))
    decreases |data| - at, 0
  {
    hide Argument, TextOf, Utf8Of, ItemsAt, EncodeAll, HeadAt;
    if SimpleAt(data, at).Some? {
      assert data[at..at + 1] == [data[at]];
    } else {
      var item := ItemAt(data, at, depth, negatives).value;
      HeadWrites(data, at, negatives);
      HeadMajor(data, at, negatives);
      var h := HeadAt(data, at, negatives).value;
      if h.major >= 2 {
        assert data[at..item.next] == data[at..h.next] + data[h.next..item.next];
        if h.major == 3 {
          TextWrites(data[h.next..item.next]);
        } else if h.major == 4 {
          AllWrites(data, h.next, depth + 1, negatives, h.argument);
        }
      }
    }
  }

  lemma HeadMajor(data: seq<Byte>, at: nat, negatives: bool)
    requires HeadAt(data, at, negatives).Some?
    ensures HeadAt(data, at, negatives).value.major == 1 ==> negatives
  {
  }

  lemma {:induction false} AllWrites(data: seq<Byte>, at: nat, depth: int, negatives: bool, count: nat)
    requires at <= |data| && depth <= MAXIMUM_DEPTH + 1 && ItemsAt(data, at, depth, negatives, count).Some?
    ensures var items := ItemsAt(data, at, depth, negatives, count).value;
            && EncodeAll(items.values) == Some(data[at..items.next])
            && depth + DepthAll(items.values) <= MAXIMUM_DEPTH + 1 && (negatives || AllNonNegative(items.values))
    decreases |data| - at, 1 + count
  {
    hide Argument, Encode, ItemAt;
    if count > 0 {
      var first := ItemAt(data, at, depth, negatives).value;
      DecodedWrites(data, at, depth, negatives);
      var rest := ItemsAt(data, first.next, depth, negatives, count - 1).value;
      AllWrites(data, first.next, depth, negatives, count - 1);
      assert ([first.value] + rest.values)[1..] == rest.values;
      assert data[at..rest.next] == data[at..first.next] + data[first.next..rest.next];
    } else {
      assert data[at..at] == [];
    }
  }

  // ---- Main results ----

  /** Decoding inverts encoding on exactly the values within the nesting and size limits, and
      accepts nothing else. */
  lemma DecodeIffEncode(data: seq<Byte>, value: Value)
    ensures Decode(data) == Some(value) <==>
            Encode(value) == Some(data) && Depth(value) <= 16 && |data| <= 16384
  {
    hide ItemAt, Encode, Depth;
    if Decode(data) == Some(value) {
      DecodedWrites(data, 0, 0, true);
      assert data[0..|data|] == data;
    }
    if Encode(value) == Some(data) && Depth(value) <= MAXIMUM_DEPTH && |data| <= QUOTA {
      assert Holds(data, 0, data);
      EncodedReads(value, data, 0, 0, true);
    }
  }

  /** No encoding starts another, at any nesting or size. */
  lemma EncodingsPrefixFree(v: Value, w: Value, rest: seq<Byte>)
    requires Encode(v).Some? && Encode(w) == Some(Octets(v) + rest)
    ensures v == w && rest == []
  {
    hide ItemAt, Encode, Depth;
    var data := Octets(w);
    var depth := MAXIMUM_DEPTH - Depth(v) - Depth(w);
    assert Holds(data, 0, data);
    HoldsSplit(data, 0, Octets(v), rest);
    EncodedReads(v, data, 0, depth, true);
    EncodedReads(w, data, 0, depth, true);
  }

  /** ManifestCbor reads what device_cbor reads, less the records with a negative integer. */
  lemma ReadersAgree(data: seq<Byte>, at: nat, depth: int)
    requires at <= |data|
    ensures var all := ItemAt(data, at, depth, true);
            ItemAt(data, at, depth, false) == if all.Some? && NonNegative(all.value.value) then all else None
  {
    hide ItemAt, Encode, Depth, NonNegative;
    if ItemAt(data, at, depth, false).Some? {
      var item := ItemAt(data, at, depth, false).value;
      DecodedWrites(data, at, depth, false);
      EncodedReads(item.value, data, at, depth, true);
    }
    if ItemAt(data, at, depth, true).Some? && NonNegative(ItemAt(data, at, depth, true).value.value) {
      var item := ItemAt(data, at, depth, true).value;
      DecodedWrites(data, at, depth, true);
      EncodedReads(item.value, data, at, depth, false);
    }
  }
}
