/** The two CBOR readers as their sources run them: each advances an offset over the input. */
module CborReaders {
  import opened Wrappers
  import opened Bytes
  import opened Utf8
  import opened Cbor

  /** The nested functions of decode in scripts/device_cbor.py and the offset they share. */
  class Decoder {
    const data: seq<Byte>
    var offset: nat

    constructor (data: seq<Byte>)
      ensures this.data == data && offset == 0
    {
      this.data := data;
      offset := 0;
    }

    method Take(length: nat) returns (taken: Option<seq<Byte>>)
      requires offset <= |data|
      modifies this
      ensures offset == if taken.Some? then old(offset) + length else old(offset)
      ensures taken == if length > |data| - old(offset) then None else Some(data[old(offset)..old(offset) + length])
    {
      if length > |data| - offset { return None; }
      taken := Some(data[offset..offset + length]);
      offset := offset + length;
    }

    method ReadItem(depth: int) returns (value: Option<Value>)
      requires offset <= |data|
      modifies this
      ensures offset <= |data|
      ensures value.Some? <==> ItemAt(data, old(offset), depth, true).Some?
      ensures value.Some? ==> ItemAt(data, old(offset), depth, true).value == Item(value.value, offset)
      decreases |data| - offset, 0
    {
      hide FromBigEndian, TextOf, ItemsAt;
      if depth > MAXIMUM_DEPTH { return None; }
      ghost var start := offset;
      var taken := Take(1);
      if taken.None? { return None; }
      var initial: int := taken.value[0];
      if initial == 0xF4 { return Some(Boolean(false)); }
      if initial == 0xF5 { return Some(Boolean(true)); }
      if initial == 0xF6 { return Some(Null); }
      var major, additional := initial / 32, initial % 32;
      if major > 4 || additional > 27 { return None; }
      var argument := additional;
      if additional >= 24 {
        taken := Take(Width(additional));
        if taken.None? { return None; }
        argument := FromBigEndian(taken.value);
        if argument < Least(additional) { return None; }
      }
      assert HeadAt(data, start, true) == Some(Head(major, argument, offset));
      if major == 0 { return Some(Integer(argument)); }
      if major == 1 { return Some(Integer(-1 - argument)); }
      if argument > |data| - offset { return None; }
      if major == 2 {
        taken := Take(argument);
        return Some(Binary(taken.value));
      }
      if major == 3 {
        taken := Take(argument);
        var text := TextOf(taken.value);
        return if text.None? then None else Some(Text(text.value));
      }
      var items := ReadItems(depth + 1, argument);
      return if items.None? then None else Some(List(items.value));
    }

    /** The items of an array. */
    method ReadItems(depth: int, count: nat) returns (items: Option<seq<Value>>)
      requires offset <= |data|
      modifies this
      ensures offset <= |data|
      ensures items.Some? <==> ItemsAt(data, old(offset), depth, true, count).Some?
      ensures items.Some? ==> ItemsAt(data, old(offset), depth, true, count).value == Items(items.value, offset)
      decreases |data| - offset, 1
    {
      hide ItemAt, ItemsAt;
      ghost var first := offset;
      var read: seq<Value> := [];
      FirstItem(data, first, depth, true, count);
      for i := 0 to count
        invariant |read| == i && first <= offset <= |data|
        invariant ItemsAt(data, first, depth, true, count) ==
                  Prepended(read, ItemsAt(data, offset, depth, true, count - i))
      {
        NextItem(data, offset, depth, true, count - i, read);
        var next := ReadItem(depth);
        if next.None? { return None; }
        read := read + [next.value];
      }
      NoItems(data, offset, depth, true, read);
      return Some(read);
    }
  }

  function Prepended(values: seq<Value>, items: Option<Items>): Option<Items> {
    if items.None? then None else Some(Items(values + items.value.values, items.value.next))
  }

  lemma NextItem(data: seq<Byte>, at: nat, depth: int, negatives: bool, count: nat, values: seq<Value>)
    requires at <= |data| && count > 0
    ensures var first := ItemAt(data, at, depth, negatives);
            Prepended(values, ItemsAt(data, at, depth, negatives, count)) ==
            if first.None? then None
            else Prepended(values + [first.value.value], ItemsAt(data, first.value.next, depth, negatives, count - 1))
  {
    hide ItemAt;
    var first := ItemAt(data, at, depth, negatives);
    if first.Some? {
      var rest := ItemsAt(data, first.value.next, depth, negatives, count - 1);
      if rest.Some? {
        assert values + ([first.value.value] + rest.value.values) == (values + [first.value.value]) + rest.value.values;
      }
    }
  }

  lemma NoItems(data: seq<Byte>, at: nat, depth: int, negatives: bool, values: seq<Value>)
    requires at <= |data|
    ensures Prepended(values, ItemsAt(data, at, depth, negatives, 0)) == Some(Items(values, at))
  {
    assert values + [] == values;
  }

  lemma FirstItem(data: seq<Byte>, at: nat, depth: int, negatives: bool, count: nat)
    requires at <= |data|
    ensures Prepended([], ItemsAt(data, at, depth, negatives, count)) == ItemsAt(data, at, depth, negatives, count)
  {
    hide ItemsAt;
    var items := ItemsAt(data, at, depth, negatives, count);
    if items.Some? { assert [] + items.value.values == items.value.values; }
  }

  /** decode, against its specification. */
  method DecodeRecord(data: seq<Byte>) returns (value: Option<Value>)
    ensures value == Decode(data)
  {
    hide ItemAt;
    if |data| > QUOTA { return None; }
    var decoder := new Decoder(data);
    value := decoder.ReadItem(0);
    if value.None? || decoder.offset != |data| { return None; }
  }

  /** The local functions of ReadRecord in managed/MicroCard.Build/ManifestCbor.cs. */
  class RecordReader {
    const bytes: seq<Byte>
    var offset: nat

    constructor (bytes: seq<Byte>)
      ensures this.bytes == bytes && offset == 0
    {
      this.bytes := bytes;
      offset := 0;
    }

    method Take(count: int) returns (result: Option<seq<Byte>>)
      requires offset <= |bytes|
      modifies this
      ensures offset == if result.Some? then old(offset) + count else old(offset)
      ensures result == if count < 0 || count > |bytes| - old(offset) then None
                        else Some(bytes[old(offset)..old(offset) + count])
    {
      if count < 0 || count > |bytes| - offset { return None; }
      result := Some(bytes[offset..offset + count]);
      offset := offset + count;
    }

    /** The big-endian accumulation of an argument. */
    method Accumulate(octets: seq<Byte>) returns (value: nat)
      ensures value == FromBigEndian(octets)
    {
      value := 0;
      for i := 0 to |octets|
        invariant value == FromBigEndian(octets[..i])
      {
        assert octets[..i + 1][..i] == octets[..i];
        value := value * 256 + octets[i];
      }
      assert octets[..|octets|] == octets;
    }

    method Read(depth: int) returns (value: Option<Value>)
      requires offset <= |bytes| < 0x8000_0000
      modifies this
      ensures offset <= |bytes|
      ensures value.Some? <==> ItemAt(bytes, old(offset), depth, false).Some?
      ensures value.Some? ==> ItemAt(bytes, old(offset), depth, false).value == Item(value.value, offset)
      decreases |bytes| - offset, 0
    {
      hide FromBigEndian, TextOf, ItemsAt;
      if depth > MAXIMUM_DEPTH { return None; }
      ghost var start := offset;
      var taken := Take(1);
      if taken.None? { return None; }
      var initial: int := taken.value[0];
      if initial == 0xF4 { return Some(Boolean(false)); }
      if initial == 0xF5 { return Some(Boolean(true)); }
      if initial == 0xF6 { return Some(Null); }
      var major, additional := initial / 32, initial % 32;
      if (major != 0 && major != 2 && major != 3 && major != 4) || additional > 27 { return None; }
      var argument: nat := additional;
      if additional >= 24 {
        taken := Take(Width(additional));
        if taken.None? { return None; }
        argument := Accumulate(taken.value);
        if argument < Least(additional) { return None; }
      }
      assert HeadAt(bytes, start, false) == Some(Head(major, argument, offset));
      if major == 0 { return Some(Integer(argument)); }
      if argument >= 0x8000_0000 || argument > |bytes| - offset { return None; }
      if major == 2 {
        taken := Take(argument);
        return Some(Binary(taken.value));
      }
      if major == 3 {
        taken := Take(argument);
        var text := TextOf(taken.value);
        return if text.None? then None else Some(Text(text.value));
      }
      var elements := ReadElements(depth + 1, argument);
      return if elements.None? then None else Some(List(elements.value));
    }

    /** The elements of an array. */
    method ReadElements(depth: int, count: nat) returns (elements: Option<seq<Value>>)
      requires offset <= |bytes| < 0x8000_0000
      modifies this
      ensures offset <= |bytes|
      ensures elements.Some? <==> ItemsAt(bytes, old(offset), depth, false, count).Some?
      ensures elements.Some? ==> ItemsAt(bytes, old(offset), depth, false, count).value == Items(elements.value, offset)
      decreases |bytes| - offset, 1
    {
      hide ItemAt, ItemsAt;
      ghost var first := offset;
      var read: seq<Value> := [];
      FirstItem(bytes, first, depth, false, count);
      for i := 0 to count
        invariant |read| == i && first <= offset <= |bytes|
        invariant ItemsAt(bytes, first, depth, false, count) ==
                  Prepended(read, ItemsAt(bytes, offset, depth, false, count - i))
      {
        NextItem(bytes, offset, depth, false, count - i, read);
        var next := Read(depth);
        if next.None? { return None; }
        read := read + [next.value];
      }
      NoItems(bytes, offset, depth, false, read);
      return Some(read);
    }
  }

  method ReadRecord(bytes: seq<Byte>, maximum: Int32) returns (value: Option<Value>)
    ensures value == if |bytes| > maximum then None
                     else
                       var item := ItemAt(bytes, 0, 0, false);
                       if item.None? || item.value.next != |bytes| then None else Some(item.value.value)
  {
    hide ItemAt;
    if |bytes| > maximum { return None; }
    var reader := new RecordReader(bytes);
    value := reader.Read(0);
    if value.None? || reader.offset != |bytes| { return None; }
  }

  /** Sixty-four bits, most significant octet first, then the last `length` of the eight. */
  method WriteArgument(major: Major, value: int) returns (bytes: seq<Byte>)
    requires 0 <= value <= 0xFFFF_FFFF_FFFF_FFFF
    ensures Argument(major, value) == Some(bytes)
  {
    hide BigEndian;
    var length, additional;
    if value < 24 { additional, length := value, 0; }
    else if value <= 0xFF { additional, length := 24, 1; }
    else if value <= 0xFFFF { additional, length := 25, 2; }
    else if value <= 0xFFFF_FFFF { additional, length := 26, 4; }
    else { additional, length := 27, 8; }
    var integer := BigEndian(value, 8);
    bytes := [major * 32 + additional] + integer[8 - length..];
    BigEndianSuffix(value, 8, length);
    assert bytes == [major * 32 + additional] + BigEndian(value, length);
    if length == 0 {
      assert BigEndian(value, length) == [];
      assert bytes == [major * 32 + value];
    }
  }

  lemma {:induction false} BigEndianSuffix(value: nat, width: nat, n: nat)
    requires n <= width
    ensures BigEndian(value, width)[width - n..] == BigEndian(value, n)
    decreases n
  {
    if n > 0 {
      BigEndianSuffix(value / 256, width - 1, n - 1);
      var s, d := BigEndian(value / 256, width - 1), [value % 256];
      assert (s + d)[width - n..] == s[width - n..] + d;
    }
  }
}
