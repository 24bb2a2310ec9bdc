/** The bounded tag-length-value reader and header writer of ITU-T X.690 section 8.1, with the
    DER canonical checks of section 11. Masks and shifts of the source's non-negative integers
    are written as remainders and quotients. */
module Tlv {
  import opened Wrappers
  import opened Bytes

  const RESULT_SIZE := 5
  const TAG_INDEX := 0
  const HEADER_LENGTH_INDEX := 1
  const VALUE_OFFSET_INDEX := 2
  const VALUE_LENGTH_INDEX := 3
  const NEXT_OFFSET_INDEX := 4

  const BOOLEAN_TAG := 1
  const INTEGER_TAG := 2
  const BIT_STRING_TAG := 3
  const NULL_TAG := 5
  const OBJECT_IDENTIFIER_TAG := 6

  predicate Contains(size: int, offset: int, length: int) {
    offset >= 0 && length >= 0 && offset <= size && length <= size - offset
  }

  // ---- Tags ----

  /** Identifier octets of a packed tag, or -1 when it is no tag. */
  function EncodedTagLength(tag: int): int {
    if tag <= 0 || tag > 0xFFFFFF then -1
    else if tag <= 0xFF then (if tag % 32 == 31 then -1 else 1)
    else if tag <= 0xFFFF then
      (if tag / 256 % 32 == 31 && 31 <= tag % 256 < 128 then 2 else -1)
    else
      (if tag / 65536 % 32 == 31 && tag / 256 % 256 > 128 && tag % 256 < 128 then 3 else -1)
  }

  function FirstTagByte(tag: int, length: int): int {
    if length == 3 then tag / 65536 else if length == 2 then tag / 256 else tag
  }

  predicate IsConstructed(tag: int) {
    EncodedTagLength(tag) > 0 && FirstTagByte(tag, EncodedTagLength(tag)) / 32 % 2 == 1
  }

  predicate CanonicalTagForm(tag: int) {
    var length := EncodedTagLength(tag);
    length >= 0 &&
    var first := FirstTagByte(tag, length);
    var number := first % 32;
    first >= 64 || length != 1 ||
    (number != 0 && (1 <= number <= 6 ==> first / 32 % 2 == 0) && (number in {16, 17} ==> first / 32 % 2 == 1))
  }

  // ---- Canonical contents ----

  predicate CanonicalInteger(content: seq<Byte>) {
    |content| >= 1 &&
    (|content| > 1 ==> !(content[0] == 0 && content[1] < 128) && !(content[0] == 0xFF && content[1] >= 128))
  }

  function Power2(n: nat): (p: nat)
    ensures p > 0
  {
    if n == 0 then 1 else 2 * Power2(n - 1)
  }

  predicate CanonicalBitString(content: seq<Byte>) {
    |content| >= 1 && content[0] <= 7 && (|content| == 1 ==> content[0] == 0) &&
    (content[0] == 0 || content[|content| - 1] % Power2(content[0]) == 0)
  }

  /** Every subidentifier is minimal and the last one is complete. */
  predicate CanonicalObjectIdentifier(content: seq<Byte>) {
    |content| >= 1 && content[|content| - 1] < 128 &&
    forall k :: 0 <= k < |content| && content[k] == 0x80 ==> k > 0 && content[k - 1] >= 128
  }

  predicate CanonicalContent(tag: int, content: seq<Byte>) {
    if tag == BOOLEAN_TAG then |content| == 1 && content[0] in {0, 0xFF}
    else if tag == INTEGER_TAG then CanonicalInteger(content)
    else if tag == BIT_STRING_TAG then CanonicalBitString(content)
    else if tag == NULL_TAG then content == []
    else if tag == OBJECT_IDENTIFIER_TAG then CanonicalObjectIdentifier(content)
    else true
  }

  // ---- Reading a header ----

  datatype Field = Field(value: int, next: nat)

  /** The identifier octets at `offset`. */
  function TagAt(input: seq<Byte>, offset: nat, end: nat): (r: Option<Field>)
    requires offset < end <= |input|
    ensures r.Some? ==> offset < r.value.next <= end
  {
    var first: int := input[offset];
    if first == 0 then None
    else if first % 32 != 31 then Some(Field(first, offset + 1))
    else if offset + 1 >= end then None
    else
      var second: int := input[offset + 1];
      if second % 128 == 0 then None
      else if second >= 128 then
        if offset + 2 >= end || input[offset + 2] >= 128 then None
        else Some(Field((first * 256 + second) * 256 + input[offset + 2], offset + 3))
      else if second < 31 then None
      else Some(Field(first * 256 + second, offset + 2))
  }

  /** The definite length octets at `cursor`. */
  function LengthAt(input: seq<Byte>, cursor: nat, end: nat): (r: Option<Field>)
    requires cursor <= end <= |input|
    ensures r.Some? ==> cursor < r.value.next <= end && 0 <= r.value.value <= 0xFFFF
  {
    if cursor >= end then None
    else
      var first: int := input[cursor];
      if first < 0x80 then Some(Field(first, cursor + 1))
      else if first == 0x81 then
        if cursor + 1 >= end || input[cursor + 1] < 0x80 then None else Some(Field(input[cursor + 1], cursor + 2))
      else if first == 0x82 then
        if cursor + 2 >= end then None
        else
          var high: int, low: int := input[cursor + 1], input[cursor + 2];
          if high * 256 + low < 0x100 then None else Some(Field(high * 256 + low, cursor + 3))
      else None
  }

  datatype Header = Header(tag: int, valueOffset: nat, valueLength: nat)
  {
    function Next(): nat { valueOffset + valueLength }
  }

  /** What TryRead accepts. */
  function HeaderAt(input: seq<Byte>, offset: nat, end: nat, der: bool): (r: Option<Header>)
    requires offset <= end <= |input|
    ensures r.Some? ==> offset < r.value.valueOffset <= r.value.Next() <= end
  {
    if end - offset < 2 then None
    else
      var tag := TagAt(input, offset, end);
      if tag.None? then None
      else
        var length := LengthAt(input, tag.value.next, end);
        if length.None? || length.value.value > end - length.value.next then None
        else
          var h := Header(tag.value.value, length.value.next, length.value.value);
          if der && !(CanonicalTagForm(h.tag) && CanonicalContent(h.tag, input[h.valueOffset..h.Next()])) then None
          else Some(h)
  }

  // ---- The imperative reader ----

  method ReadObjectIdentifier(input: seq<Byte>, offset: nat, length: nat) returns (canonical: bool)
    requires offset + length <= |input|
    ensures canonical <==> CanonicalObjectIdentifier(input[offset..offset + length])
  {
    if length < 1 { return false; }
    ghost var content := input[offset..offset + length];
    var firstGroup := true;
    for index := 0 to length
      invariant firstGroup <==> index == 0 || content[index - 1] < 128
      invariant forall k :: 0 <= k < index && content[k] == 0x80 ==> k > 0 && content[k - 1] >= 128
    {
      var value := input[offset + index];
      assert value == content[index];
      if firstGroup && value == 0x80 { return false; }
      firstGroup := value < 128;
    }
    return firstGroup;
  }

  method ReadCanonicalValue(input: seq<Byte>, offset: nat, length: nat, tag: int) returns (canonical: bool)
    requires offset + length <= |input|
    ensures canonical <==> CanonicalContent(tag, input[offset..offset + length])
  {
    ghost var content := input[offset..offset + length];
    if length > 0 {
      assert content[0] == input[offset] && content[length - 1] == input[offset + length - 1];
    }
    if length > 1 { assert content[1] == input[offset + 1]; }
    if tag == BOOLEAN_TAG { return length == 1 && (input[offset] == 0 || input[offset] == 0xFF); }
    if tag == INTEGER_TAG {
      if length < 1 { return false; }
      if length == 1 { return true; }
      var first, second := input[offset], input[offset + 1];
      return !((first == 0 && second < 128) || (first == 0xFF && second >= 128));
    }
    if tag == BIT_STRING_TAG {
      if length < 1 { return false; }
      var unused := input[offset];
      if unused > 7 || (length == 1 && unused != 0) { return false; }
      return unused == 0 || input[offset + length - 1] % Power2(unused) == 0;
    }
    if tag == NULL_TAG { return length == 0; }
    if tag == OBJECT_IDENTIFIER_TAG {
      canonical := ReadObjectIdentifier(input, offset, length);
      return;
    }
    return true;
  }

  /** Writes its five result slots on success and nothing otherwise. */
  method TryRead(input: seq<Byte>, offset: int, length: int, result: array<int>, resultOffset: int, der: bool)
    returns (ok: bool)
    modifies result
    ensures ok <==> && Contains(|input|, offset, length) && Contains(result.Length, resultOffset, RESULT_SIZE)
                    && HeaderAt(input, offset, offset + length, der).Some?
    ensures forall k :: 0 <= k < result.Length && !(ok && resultOffset <= k < resultOffset + RESULT_SIZE) ==>
              result[k] == old(result[k])
    ensures ok ==>
              var h := HeaderAt(input, offset, offset + length, der).value;
              result[resultOffset..resultOffset + RESULT_SIZE]
                == [h.tag, h.valueOffset - offset, h.valueOffset, h.valueLength, h.Next()]
  {
    hide CanonicalContent, CanonicalTagForm, TagAt, LengthAt;
    if !Contains(|input|, offset, length) || length < 2
       || !Contains(result.Length, resultOffset, RESULT_SIZE) { return false; }
    var end := offset + length;
    var tagField := ReadTag(input, offset, end);
    if tagField.None? { return false; }
    var Field(tag, cursor) := tagField.value;
    var lengthField := ReadLength(input, cursor, end);
    if lengthField.None? { return false; }
    var Field(valueLength, value) := lengthField.value;
    if valueLength > end - value { return false; }
    if der {
      if !CanonicalTagForm(tag) { return false; }
      var canonical := ReadCanonicalValue(input, value, valueLength, tag);
      if !canonical { return false; }
    }
    result[resultOffset + TAG_INDEX] := tag;
    result[resultOffset + HEADER_LENGTH_INDEX] := value - offset;
    result[resultOffset + VALUE_OFFSET_INDEX] := value;
    result[resultOffset + VALUE_LENGTH_INDEX] := valueLength;
    result[resultOffset + NEXT_OFFSET_INDEX] := value + valueLength;
    return true;
  }

  method ReadTag(input: seq<Byte>, start: nat, end: nat) returns (field: Option<Field>)
    requires start < end <= |input|
    ensures field == TagAt(input, start, end)
  {
    var cursor := start;
    var tag: int := input[cursor];
    cursor := cursor + 1;
    if tag == 0 { return None; }
    if tag % 32 == 31 {
      if cursor >= end { return None; }
      var next: int := input[cursor];
      cursor := cursor + 1;
      if next % 128 == 0 { return None; }
      tag := tag * 256 + next;
      if next >= 128 {
        if cursor >= end { return None; }
        next := input[cursor];
        cursor := cursor + 1;
        if next >= 128 { return None; }
        tag := tag * 256 + next;
      } else if next < 31 {
        return None;
      }
    }
    return Some(Field(tag, cursor));
  }

  method ReadLength(input: seq<Byte>, start: nat, end: nat) returns (field: Option<Field>)
    requires start <= end <= |input|
    ensures field == LengthAt(input, start, end)
  {
    var cursor := start;
    if cursor >= end { return None; }
    var firstLength: int := input[cursor];
    cursor := cursor + 1;
    if firstLength < 0x80 { return Some(Field(firstLength, cursor)); }
    if firstLength == 0x81 {
      if cursor >= end { return None; }
      var valueLength := input[cursor];
      if valueLength < 0x80 { return None; }
      return Some(Field(valueLength, cursor + 1));
    }
    if firstLength == 0x82 {
      if cursor + 1 >= end { return None; }
      var high: int, low: int := input[cursor], input[cursor + 1];
      if high * 256 + low < 0x100 { return None; }
      return Some(Field(high * 256 + low, cursor + 2));
    }
    return None;
  }

  // ---- Writing a header ----

  function EncodedLengthLength(valueLength: int): int {
    if valueLength < 0 || valueLength > 0xFFFF then -1
    else if valueLength < 0x80 then 1 else if valueLength < 0x100 then 2 else 3
  }

  function HeaderLength(tag: int, valueLength: int): int {
    if EncodedTagLength(tag) < 0 || EncodedLengthLength(valueLength) < 0 then -1
    else EncodedTagLength(tag) + EncodedLengthLength(valueLength)
  }

  function TagBytes(tag: int): seq<Byte>
    requires EncodedTagLength(tag) > 0
  {
    if EncodedTagLength(tag) == 3 then [tag / 65536, tag / 256 % 256, tag % 256]
    else if EncodedTagLength(tag) == 2 then [tag / 256, tag % 256]
    else [tag]
  }

  function LengthBytes(valueLength: int): seq<Byte>
    requires 0 <= valueLength <= 0xFFFF
  {
    if valueLength < 0x80 then [valueLength]
    else if valueLength < 0x100 then [0x81, valueLength]
    else [0x82, valueLength / 256, valueLength % 256]
  }

  function HeaderBytes(tag: int, valueLength: int): (s: seq<Byte>)
    requires HeaderLength(tag, valueLength) > 0
    ensures |s| == HeaderLength(tag, valueLength) >= 2
  {
    TagBytes(tag) + LengthBytes(valueLength)
  }

  /** -1 when the header does not fit. */
  method WriteHeader(output: array<Byte>, offset: int, capacity: int, tag: int, valueLength: int) returns (written: int)
    modifies output
    ensures written == if HeaderLength(tag, valueLength) > 0 && Contains(output.Length, offset, capacity) &&
                          HeaderLength(tag, valueLength) <= capacity then HeaderLength(tag, valueLength) else -1
    ensures written > 0 ==>
              output[..] == old(output[..offset]) + HeaderBytes(tag, valueLength) + old(output[offset + written..])
    ensures written < 0 ==> output[..] == old(output[..])
  {
    var headerLength := HeaderLength(tag, valueLength);
    if headerLength < 0 || !Contains(output.Length, offset, capacity) || headerLength > capacity { return -1; }
    WriteHeaderUnchecked(output, offset, tag, valueLength);
    return headerLength;
  }

  method WriteHeaderUnchecked(output: array<Byte>, offset: nat, tag: int, valueLength: int)
    requires HeaderLength(tag, valueLength) > 0 && offset + HeaderLength(tag, valueLength) <= output.Length
    modifies output
    ensures output[..]
            == old(output[..offset]) + HeaderBytes(tag, valueLength)
              + old(output[offset + HeaderLength(tag, valueLength)..])
  {
    ghost var before := output[..];
    var middle := WriteTag(output, offset, tag);
    ghost var half := output[..];
    assert half[middle..] == before[middle..];
    var cursor := WriteLength(output, middle, valueLength);
    TailOfTail(half, before, middle, cursor);
    Concatenate(output[..], middle, cursor);
    assert before[..offset] + TagBytes(tag) + LengthBytes(valueLength)
           == before[..offset] + HeaderBytes(tag, valueLength);
  }

  lemma Concatenate(s: seq<Byte>, i: nat, j: nat)
    requires i <= j <= |s|
    ensures s == s[..i] + s[i..j] + s[j..]
  {
  }

  lemma TailOfTail(s: seq<Byte>, t: seq<Byte>, i: nat, j: nat)
    requires i <= j <= |s| == |t| && s[i..] == t[i..]
    ensures s[j..] == t[j..]
  {
    assert s[i..][j - i..] == s[j..] && t[i..][j - i..] == t[j..];
  }

  method WriteLength(output: array<Byte>, middle: nat, valueLength: int) returns (cursor: nat)
    requires 0 <= valueLength <= 0xFFFF && middle + EncodedLengthLength(valueLength) <= output.Length
    modifies output
    ensures cursor == middle + EncodedLengthLength(valueLength)
    ensures output[..middle] == old(output[..middle])
    ensures output[middle..cursor] == LengthBytes(valueLength)
    ensures output[cursor..] == old(output[cursor..])
  {
    if valueLength < 0x80 {
      output[middle] := valueLength;
    } else if valueLength < 0x100 {
      output[middle] := 0x81;
      output[middle + 1] := valueLength;
    } else {
      output[middle] := 0x82;
      output[middle + 1] := valueLength / 256;
      output[middle + 2] := valueLength % 256;
    }
    cursor := middle + EncodedLengthLength(valueLength);
  }

  method WriteTag(output: array<Byte>, offset: nat, tag: int) returns (cursor: nat)
    requires EncodedTagLength(tag) > 0 && offset + EncodedTagLength(tag) <= output.Length
    modifies output
    ensures cursor == offset + EncodedTagLength(tag)
    ensures output[..cursor] == old(output[..offset]) + TagBytes(tag) && output[cursor..] == old(output[cursor..])
  {
    var tagLength := EncodedTagLength(tag);
    cursor := offset;
    if tagLength == 3 {
      output[cursor] := tag / 65536;
      cursor := cursor + 1;
    }
    if tagLength >= 2 {
      output[cursor] := tag / 256 % 256;
      cursor := cursor + 1;
    }
    output[cursor] := tag % 256;
    cursor := cursor + 1;
  }

  // ---- One header per tag and length ----

  /** An accepted header is exactly the octets WriteHeader writes for its tag and length. */
  lemma HeaderIsWritten(input: seq<Byte>, offset: nat, end: nat, der: bool)
    requires offset <= end <= |input| && HeaderAt(input, offset, end, der).Some?
    ensures var h := HeaderAt(input, offset, end, der).value;
            && HeaderLength(h.tag, h.valueLength) == h.valueOffset - offset
            && input[offset..h.valueOffset] == HeaderBytes(h.tag, h.valueLength)
  {
    hide CanonicalContent, CanonicalTagForm;
    var tag := TagAt(input, offset, end).value;
    TagIsWritten(input, offset, end);
    LengthIsWritten(input, tag.next, end);
  }

  lemma TagIsWritten(input: seq<Byte>, offset: nat, end: nat)
    requires offset < end <= |input| && TagAt(input, offset, end).Some?
    ensures var tag := TagAt(input, offset, end).value;
            EncodedTagLength(tag.value) == tag.next - offset && input[offset..tag.next] == TagBytes(tag.value)
  {
    var tag := TagAt(input, offset, end).value;
    if tag.next == offset + 3 {
      Pack3(input[offset], input[offset + 1], input[offset + 2]);
    }
  }

  lemma Pack3(a: Byte, b: Byte, c: Byte)
    ensures ((a * 256 + b) * 256 + c) / 65536 == a && ((a * 256 + b) * 256 + c) / 256 % 256 == b
    ensures ((a * 256 + b) * 256 + c) % 256 == c && ((a * 256 + b) * 256 + c) / 256 == a * 256 + b
  {
    var high: int := a * 256 + b;
    assert (high * 256 + c) / 256 == high;
    assert (high * 256 + c) / 65536 == high / 256;
  }

  lemma LengthIsWritten(input: seq<Byte>, cursor: nat, end: nat)
    requires cursor <= end <= |input| && LengthAt(input, cursor, end).Some?
    ensures var length := LengthAt(input, cursor, end).value;
            EncodedLengthLength(length.value) == length.next - cursor
              && input[cursor..length.next] == LengthBytes(length.value)
  {
  }

  /** Written header octets read back, whatever follows them, as long as the value fits. */
  lemma WrittenHeaderReads(input: seq<Byte>, offset: nat, end: nat, tag: int, valueLength: nat)
    requires offset <= end <= |input| && HeaderLength(tag, valueLength) > 0
    requires offset + HeaderLength(tag, valueLength) + valueLength <= end
    requires input[offset..offset + HeaderLength(tag, valueLength)] == HeaderBytes(tag, valueLength)
    ensures var value := offset + HeaderLength(tag, valueLength);
            && HeaderAt(input, offset, end, false) == Some(Header(tag, value, valueLength))
            && HeaderAt(input, offset, end, true) ==
               if CanonicalTagForm(tag) && CanonicalContent(tag, input[value..value + valueLength])
               then Some(Header(tag, value, valueLength)) else None
  {
    hide CanonicalContent, CanonicalTagForm, TagAt, LengthAt, HeaderBytes, TagBytes, LengthBytes;
    var middle := offset + EncodedTagLength(tag);
    var value := offset + HeaderLength(tag, valueLength);
    SliceOfSlice(input, offset, HeaderLength(tag, valueLength), EncodedTagLength(tag));
    HeaderSplits(tag, valueLength);
    WrittenTagReads(input, offset, end, tag);
    WrittenLengthReads(input, middle, end, valueLength);
  }

  lemma HeaderSplits(tag: int, valueLength: int)
    requires HeaderLength(tag, valueLength) > 0
    ensures HeaderBytes(tag, valueLength)[..EncodedTagLength(tag)] == TagBytes(tag)
    ensures HeaderBytes(tag, valueLength)[EncodedTagLength(tag)..] == LengthBytes(valueLength)
  {
    assert |TagBytes(tag)| == EncodedTagLength(tag);
    assert |LengthBytes(valueLength)| == EncodedLengthLength(valueLength);
  }

  lemma WrittenTagReads(input: seq<Byte>, offset: nat, end: nat, tag: int)
    requires offset <= end <= |input| && EncodedTagLength(tag) > 0 && offset + EncodedTagLength(tag) <= end
    requires input[offset..offset + EncodedTagLength(tag)] == TagBytes(tag)
    ensures TagAt(input, offset, end) == Some(Field(tag, offset + EncodedTagLength(tag)))
  {
    var n := EncodedTagLength(tag);
    var s := input[offset..offset + n];
    assert input[offset] == s[0];
    if n == 1 {
      assert input[offset] == tag;
    } else if n == 2 {
      assert input[offset] == tag / 256 && input[offset + 1] == s[1] == tag % 256;
    } else {
      var a: int, b: int, c: int := tag / 65536, tag / 256 % 256, tag % 256;
      assert input[offset] == a && input[offset + 1] == s[1] == b && input[offset + 2] == s[2] == c;
      assert tag / 65536 == tag / 256 / 256;
      assert tag == (a * 256 + b) * 256 + c;
    }
  }

  lemma WrittenLengthReads(input: seq<Byte>, cursor: nat, end: nat, valueLength: int)
    requires cursor <= end <= |input| && 0 <= valueLength <= 0xFFFF && cursor + EncodedLengthLength(valueLength) <= end
    requires input[cursor..cursor + EncodedLengthLength(valueLength)] == LengthBytes(valueLength)
    ensures LengthAt(input, cursor, end) == Some(Field(valueLength, cursor + EncodedLengthLength(valueLength)))
  {
    var n := EncodedLengthLength(valueLength);
    var s := input[cursor..cursor + n];
    assert input[cursor] == s[0];
    if n >= 2 { assert input[cursor + 1] == s[1]; }
    if n == 3 { assert input[cursor + 2] == s[2]; }
  }

  /** Reading depends only on the octets up to the end of the value: the same octets read the
      same elsewhere, whatever surrounds them. */
  lemma HeaderIsLocal(input: seq<Byte>, offset: nat, end: nat, der: bool, copy: seq<Byte>, to: nat, copyEnd: nat)
    requires offset <= end <= |input| && HeaderAt(input, offset, end, der).Some?
    requires var n := HeaderAt(input, offset, end, der).value.Next() - offset;
             to + n <= copyEnd <= |copy| && copy[to..to + n] == input[offset..offset + n]
    ensures var h := HeaderAt(input, offset, end, der).value;
            HeaderAt(copy, to, copyEnd, der) == Some(Header(h.tag, h.valueOffset - offset + to, h.valueLength))
  {
    hide CanonicalContent, CanonicalTagForm, TagAt, LengthAt;
    var h := HeaderAt(input, offset, end, der).value;
    HeaderIsWritten(input, offset, end, der);
    var n, m := h.Next() - offset, h.valueOffset - offset;
    SliceOfSlice(copy, to, n, m);
    SliceOfSlice(input, offset, n, m);
    WrittenHeaderReads(copy, to, copyEnd, h.tag, h.valueLength);
  }

  lemma SliceOfSlice(s: seq<Byte>, at: nat, n: nat, m: nat)
    requires m <= n && at + n <= |s|
    ensures s[at..at + n][..m] == s[at..at + m]
    ensures s[at..at + n][m..] == s[at + m..at + n]
  {
    Subslice(s, at, at + n, 0, m);
    Subslice(s, at, at + n, m, n);
  }
}
