/** DER validation with an explicit stack (managed/MicroCard.Encoding/Der.cs), the grammar it
    decides, and the bare primitive check beside it (managed/Shared/DerCanonical.cs). */
module Der {
  import opened Bytes
  import opened Tlv

  /** A concatenation of canonical elements whose non-empty constructed values nest at most
      `room` deep. */
  predicate ValidRegion(input: seq<Byte>, lo: nat, hi: nat, room: nat)
    requires lo <= hi <= |input|
    decreases hi - lo
  {
    lo == hi ||
    (HeaderAt(input, lo, hi, true).Some? &&
     var h := HeaderAt(input, lo, hi, true).value;
     && (Descends(h) ==> room > 0 && ValidRegion(input, h.valueOffset, h.Next(), room - 1))
     && ValidRegion(input, h.Next(), hi, room))
  }

  predicate Descends(h: Header) { IsConstructed(h.tag) && h.valueLength > 0 }

  // ---- The validator ----

  /** What is left to check: the current region, then each suspended one from where the
      region inside it ends. */
  predicate Pending(input: seq<Byte>, cursor: nat, end: nat, ends: seq<int>, limit: nat)
    decreases |ends|
  {
    && cursor <= end <= |input|
    && |ends| <= limit
    && ValidRegion(input, cursor, end, limit - |ends|)
    && (ends != [] ==> ends[|ends| - 1] >= 0 && Pending(input, end, ends[|ends| - 1], ends[..|ends| - 1], limit))
  }

  predicate Nested(end: int, ends: seq<int>, outer: int) {
    && (forall i :: 0 <= i < |ends| ==> end <= ends[i] <= outer)
    && (forall i, j :: 0 <= i < j < |ends| ==> ends[j] <= ends[i])
  }

  lemma PendingPushes(input: seq<Byte>, cursor: nat, end: nat, ends: seq<int>, limit: nat)
    requires cursor < end <= |input| && |ends| <= limit && HeaderAt(input, cursor, end, true).Some?
    ensures var h := HeaderAt(input, cursor, end, true).value;
            Pending(input, cursor, end, ends, limit) ==
            if Descends(h) then |ends| < limit && Pending(input, h.valueOffset, h.Next(), ends + [end], limit)
            else Pending(input, h.Next(), end, ends, limit)
  {
    hide HeaderAt, IsConstructed;
    assert (ends + [end])[..|ends|] == ends;
    var h := HeaderAt(input, cursor, end, true).value;
    var room := limit - |ends|;
    assert ValidRegion(input, cursor, end, room) ==
           ((Descends(h) ==> room > 0 && ValidRegion(input, h.valueOffset, h.Next(), room - 1))
            && ValidRegion(input, h.Next(), end, room));
  }

  /** The result slots the validator uses. */
  method Slots(scratch: array<int>, at: nat, ghost h: Header, ghost cursor: int)
    returns (next: int, tag: int, valueOffset: int, valueLength: int)
    requires at + RESULT_SIZE <= scratch.Length
    requires scratch[at..at + RESULT_SIZE] == [h.tag, h.valueOffset - cursor, h.valueOffset, h.valueLength, h.Next()]
    ensures next == h.Next() && tag == h.tag && valueOffset == h.valueOffset && valueLength == h.valueLength
  {
    ghost var slots := scratch[at..at + RESULT_SIZE];
    next := scratch[at + NEXT_OFFSET_INDEX];
    tag := scratch[at + TAG_INDEX];
    valueOffset := scratch[at + VALUE_OFFSET_INDEX];
    valueLength := scratch[at + VALUE_LENGTH_INDEX];
    assert tag == slots[0] && valueOffset == slots[2] && valueLength == slots[3] && next == slots[4];
  }

  method TryValidate(input: seq<Byte>, offset: int, length: int, scratch: array<int>, scratchOffset: int,
                     scratchLength: int)
    returns (valid: bool)
    modifies scratch
    ensures valid <==> && Contains(|input|, offset, length)
                       && Contains(scratch.Length, scratchOffset, scratchLength)
                       && scratchLength >= RESULT_SIZE + 1
                       && ValidRegion(input, offset, offset + length, scratchLength - RESULT_SIZE)
    ensures forall k :: 0 <= k < scratch.Length && !(scratchOffset <= k < scratchOffset + scratchLength) ==>
              scratch[k] == old(scratch[k])
  {
    hide ValidRegion, HeaderAt, IsConstructed;
    if !Contains(|input|, offset, length) || !Contains(scratch.Length, scratchOffset, scratchLength) ||
       scratchLength < RESULT_SIZE + 1 {
      return false;
    }
    var stackOffset := scratchOffset + RESULT_SIZE;
    var stackLength := scratchLength - RESULT_SIZE;
    var depth := 0;
    var cursor := offset;
    var end := offset + length;
    ghost var outer := end;
    ghost var ends: seq<int> := [];
    while true
      invariant 0 <= depth <= stackLength && offset <= cursor <= end <= outer
      invariant |ends| == depth && forall i :: 0 <= i < depth ==> scratch[stackOffset + i] == ends[i]
      invariant Nested(end, ends, outer)
      invariant ValidRegion(input, offset, outer, stackLength) == Pending(input, cursor, end, ends, stackLength)
      invariant forall k :: 0 <= k < scratch.Length && !(scratchOffset <= k < scratchOffset + scratchLength) ==>
                  scratch[k] == old(scratch[k])
      decreases outer - cursor, depth
    {
      if cursor == end {
        EmptyRegion(input, cursor, stackLength - depth);
        if depth == 0 { return true; }
        depth := depth - 1;
        end := scratch[stackOffset + depth];
        ends := ends[..depth];
        continue;
      }
      var ok := TryRead(input, cursor, end - cursor, scratch, scratchOffset, true);
      if !ok {
        RegionNeedsHeader(input, cursor, end, stackLength - depth);
        return false;
      }
      PendingPushes(input, cursor, end, ends, stackLength);
      var next, tag, valueOffset, valueLength :=
        Slots(scratch, scratchOffset, HeaderAt(input, cursor, end, true).value, cursor);
      if IsConstructed(tag) && valueLength > 0 {
        if depth >= stackLength { return false; }
        scratch[stackOffset + depth] := end;
        ends := ends + [end];
        depth := depth + 1;
        cursor := valueOffset;
        end := next;
      } else {
        cursor := next;
      }
    }
  }

  lemma EmptyRegion(input: seq<Byte>, at: nat, room: nat)
    requires at <= |input|
    ensures ValidRegion(input, at, at, room)
  {
  }

  lemma RegionNeedsHeader(input: seq<Byte>, lo: nat, hi: nat, room: nat)
    requires lo < hi <= |input| && HeaderAt(input, lo, hi, true).None?
    ensures !ValidRegion(input, lo, hi, room)
  {
  }

  // ---- The grammar ----

  /** A sequence of DER elements. */
  datatype Forest =
    | End
    | Primitive(tag: int, content: seq<Byte>, rest: Forest)
    | Constructed(tag: int, inner: Forest, rest: Forest)

  predicate Encodable(f: Forest) {
    match f
    case End => true
    case Primitive(tag, content, rest) =>
      && EncodedTagLength(tag) > 0 && !IsConstructed(tag) && CanonicalTagForm(tag)
      && |content| <= 0xFFFF && CanonicalContent(tag, content) && Encodable(rest)
    case Constructed(tag, inner, rest) =>
      && EncodedTagLength(tag) > 0 && IsConstructed(tag) && CanonicalTagForm(tag)
      && Encodable(inner) && |Encoded(inner)| <= 0xFFFF && Encodable(rest)
  }

  function Encoded(f: Forest): seq<Byte> {
    match f
    case End => []
    case Primitive(tag, content, rest) => Element(tag, content) + Encoded(rest)
    case Constructed(tag, inner, rest) => Element(tag, Encoded(inner)) + Encoded(rest)
  }

  /** An octet string no header can describe has no encoding; Encodable excludes it. */
  function Element(tag: int, content: seq<Byte>): seq<Byte> {
    if HeaderLength(tag, |content|) > 0 then HeaderBytes(tag, |content|) + content else []
  }

  /** The nesting depth of constructed values with something in them. */
  function Height(f: Forest): nat {
    match f
    case End => 0
    case Primitive(_, _, rest) => Height(rest)
    case Constructed(_, inner, rest) =>
      var here := if inner == End then 0 else 1 + Height(inner);
      if here >= Height(rest) then here else Height(rest)
  }

  function Parsed(input: seq<Byte>, lo: nat, hi: nat, room: nat): Forest
    requires lo <= hi <= |input| && ValidRegion(input, lo, hi, room)
    decreases hi - lo
  {
    if lo == hi then End
    else
      var h := HeaderAt(input, lo, hi, true).value;
      var rest := Parsed(input, h.Next(), hi, room);
      if Descends(h) then Constructed(h.tag, Parsed(input, h.valueOffset, h.Next(), room - 1), rest)
      else if IsConstructed(h.tag) then Constructed(h.tag, End, rest)
      else Primitive(h.tag, input[h.valueOffset..h.Next()], rest)
  }

  /** Every validated region is the encoding of a forest no deeper than the stack. */
  lemma {:induction false} ValidRegionIsEncoded(input: seq<Byte>, lo: nat, hi: nat, room: nat)
    requires lo <= hi <= |input| && ValidRegion(input, lo, hi, room)
    ensures var f := Parsed(input, lo, hi, room); Encodable(f) && Height(f) <= room && Encoded(f) == input[lo..hi]
    decreases hi - lo
  {
    hide CanonicalContent, CanonicalTagForm, Element, IsConstructed, EncodedTagLength, HeaderAt;
    if lo < hi {
      var h := HeaderAt(input, lo, hi, true).value;
      HeaderIsCanonical(input, lo, hi);
      var content := input[h.valueOffset..h.Next()];
      ValidRegionIsEncoded(input, h.Next(), hi, room);
      if Descends(h) {
        ValidRegionIsEncoded(input, h.valueOffset, h.Next(), room - 1);
        assert Encoded(Parsed(input, lo, hi, room)) == Element(h.tag, content) + input[h.Next()..hi];
      } else if IsConstructed(h.tag) {
        assert content == [] == Encoded(End);
        assert Encoded(Parsed(input, lo, hi, room)) == Element(h.tag, content) + input[h.Next()..hi];
      } else {
        assert Encoded(Parsed(input, lo, hi, room)) == Element(h.tag, content) + input[h.Next()..hi];
      }
    }
  }

  lemma HeaderIsCanonical(input: seq<Byte>, lo: nat, hi: nat)
    requires lo <= hi <= |input| && HeaderAt(input, lo, hi, true).Some?
    ensures var h := HeaderAt(input, lo, hi, true).value;
            var content := input[h.valueOffset..h.Next()];
            && EncodedTagLength(h.tag) > 0 && CanonicalTagForm(h.tag) && |content| == h.valueLength <= 0xFFFF
            && CanonicalContent(h.tag, content)
            && input[lo..hi] == Element(h.tag, content) + input[h.Next()..hi]
  {
    hide CanonicalContent, CanonicalTagForm, TagAt, LengthAt, HeaderBytes;
    HeaderIsWritten(input, lo, hi, true);
    var h := HeaderAt(input, lo, hi, true).value;
    assert input[lo..hi] == input[lo..h.valueOffset] + input[h.valueOffset..h.Next()] + input[h.Next()..hi];
  }

  /** Every encoding of a forest no deeper than the stack is validated, and parses back to it. */
  lemma {:induction false} EncodedIsValidRegion(f: Forest, input: seq<Byte>, lo: nat, hi: nat, room: nat)
    requires lo <= hi <= |input| && Encodable(f) && Height(f) <= room && input[lo..hi] == Encoded(f)
    ensures ValidRegion(input, lo, hi, room) && Parsed(input, lo, hi, room) == f
    decreases f
  {
    hide CanonicalContent, CanonicalTagForm, HeaderLength, HeaderBytes, IsConstructed, EncodedTagLength, HeaderAt,
         TagAt, LengthAt;
    if f != End {
      var content := if f.Primitive? then f.content else Encoded(f.inner);
      if f.Constructed? { ConstructedContent(f.tag, content); }
      ElementReads(f.tag, content, input, lo, hi, Encoded(f.rest));
      var h := HeaderAt(input, lo, hi, true).value;
      EncodedIsValidRegion(f.rest, input, h.Next(), hi, room);
      if f.Constructed? {
        EncodedNonempty(f.inner);
        if f.inner != End {
          EncodedIsValidRegion(f.inner, input, h.valueOffset, h.Next(), room - 1);
        }
      }
    }
  }

  lemma ConstructedContent(tag: int, content: seq<Byte>)
    requires IsConstructed(tag) && CanonicalTagForm(tag)
    ensures CanonicalContent(tag, content)
  {
  }

  lemma {:induction false} EncodedNonempty(f: Forest)
    requires Encodable(f)
    ensures Encoded(f) == [] <==> f == End
  {
    hide CanonicalContent, CanonicalTagForm, IsConstructed, EncodedTagLength, HeaderBytes;
    match f
    case End =>
    case Primitive(tag, content, rest) => assert |Element(tag, content)| > 0;
    case Constructed(tag, inner, rest) => assert |Element(tag, Encoded(inner))| > 0;
  }

  lemma ElementReads(tag: int, content: seq<Byte>, input: seq<Byte>, lo: nat, hi: nat, rest: seq<Byte>)
    requires lo <= hi <= |input| && input[lo..hi] == Element(tag, content) + rest
    requires EncodedTagLength(tag) > 0 && CanonicalTagForm(tag) && |content| <= 0xFFFF && CanonicalContent(tag, content)
    ensures HeaderAt(input, lo, hi, true).Some?
    ensures var h := HeaderAt(input, lo, hi, true).value;
            && h.tag == tag && h.valueLength == |content| && lo < h.valueOffset
            && input[h.valueOffset..h.Next()] == content && input[h.Next()..hi] == rest
  {
    hide CanonicalContent, CanonicalTagForm, EncodedTagLength, HeaderAt, HeaderBytes;
    var n := HeaderLength(tag, |content|);
    var head := HeaderBytes(tag, |content|);
    assert n > 0;
    ThreeParts(input, lo, hi, head, content, rest);
    WrittenHeaderReads(input, lo, hi, tag, |content|);
  }

  lemma ThreeParts(input: seq<Byte>, lo: nat, hi: nat, a: seq<Byte>, b: seq<Byte>, c: seq<Byte>)
    requires lo <= hi <= |input| && input[lo..hi] == a + b + c
    ensures hi - lo == |a| + |b| + |c|
    ensures input[lo..lo + |a|] == a && input[lo + |a|..lo + |a| + |b|] == b && input[lo + |a| + |b|..hi] == c
  {
    var s := input[lo..hi];
    var i, j := |a|, |a| + |b|;
    assert s[..i] == a && s[i..j] == b && s[j..] == c;
    Subslice(input, lo, hi, 0, i);
    Subslice(input, lo, hi, i, j);
    Subslice(input, lo, hi, j, |s|);
  }

  /** TryValidate's answer, free of headers and stacks: the region encodes a forest that fits. */
  lemma ValidRegionIff(input: seq<Byte>, lo: nat, hi: nat, room: nat)
    requires lo <= hi <= |input|
    ensures ValidRegion(input, lo, hi, room) <==>
            exists f :: Encodable(f) && Height(f) <= room && Encoded(f) == input[lo..hi]
  {
    if ValidRegion(input, lo, hi, room) {
      ValidRegionIsEncoded(input, lo, hi, room);
    }
    forall f | Encodable(f) && Height(f) <= room && Encoded(f) == input[lo..hi]
      ensures ValidRegion(input, lo, hi, room)
    {
      EncodedIsValidRegion(f, input, lo, hi, room);
    }
  }

  /** No octet string encodes two forests. */
  lemma EncodedInjective(f: Forest, g: Forest)
    requires Encodable(f) && Encodable(g) && Encoded(f) == Encoded(g)
    ensures f == g
  {
    var s := Encoded(f);
    var room := Height(f) + Height(g);
    assert s[0..|s|] == s;
    EncodedIsValidRegion(f, s, 0, |s|, room);
    EncodedIsValidRegion(g, s, 0, |s|, room);
  }
}
