/** The DER integer writer (managed/MicroCard.Encoding/Der.cs) and the check its scratch-free
    sequence writer relies on (managed/Shared/DerCanonical.cs). */
module DerWriters {
  import opened Wrappers
  import opened Bytes
  import opened Tlv
  import opened Der
  import DerValues

  // ---- Two's complement content ----

  function Signed(s: seq<Byte>): int {
    if s != [] && s[0] >= 128 then FromBigEndian(s) - Pow256(|s|) else FromBigEndian(s)
  }

  /** A digit between two bounds bounds the number it leads. */
  lemma Leads(digit: int, low: int, p: int, least: int, most: int)
    requires 0 <= low < p && least <= digit <= most
    ensures least * p <= digit * p + low < (most + 1) * p
  {
    Monotone(least, digit, p);
    Monotone(digit, most, p);
  }

  lemma Monotone(a: int, b: int, p: int)
    requires a <= b && 0 < p
    ensures a * p <= b * p
  {
  }

  lemma LeadingDigit(a: int, b: int, x: int, y: int, p: int)
    requires 0 <= x < p && 0 <= y < p && a * p + x == b * p + y
    ensures a == b && x == y
  {
    Leads(a, x, p, a, a);
    Leads(b, y, p, b, b);
    if a != b { Monotone(if a < b then a + 1 else b + 1, if a < b then b else a, p); }
  }

  /** The range of `n` octets in two's complement. */
  predicate Fits(value: int, n: nat) { n > 0 && -128 * Pow256(n - 1) <= value < 128 * Pow256(n - 1) }

  /** The first octet is the signed leading digit. */
  lemma SignedDigit(s: seq<Byte>)
    requires s != []
    ensures Signed(s) == SByteOf(s[0]) * Pow256(|s| - 1) + FromBigEndian(s[1..])
  {
    hide FromBigEndian;
    UnsignedDigit(s);
    var first: int, p := s[0], Pow256(|s| - 1);
    assert Pow256(|s|) == 256 * p;
    assert (first - 256) * p == first * p - 256 * p;
  }

  lemma SignedRange(s: seq<Byte>)
    requires s != []
    ensures Fits(Signed(s), |s|)
  {
    SignedDigit(s);
    BigEndianWrites(s[1..]);
    Leads(SByteOf(s[0]), FromBigEndian(s[1..]), Pow256(|s| - 1), -128, 127);
  }

  /** No shorter content holds the same integer. */
  lemma CanonicalIsShortest(s: seq<Byte>)
    requires |s| > 1 && CanonicalInteger(s)
    ensures !Fits(Signed(s), |s| - 1)
  {
    hide FromBigEndian, Signed;
    var low, p, q := FromBigEndian(s[1..]), Pow256(|s| - 1), Pow256(|s| - 2);
    var first := SByteOf(s[0]);
    SignedDigit(s);
    BigEndianWrites(s[1..]);
    BigEndianWrites(s[1..][1..]);
    UnsignedDigit(s[1..]);
    assert p == 256 * q;
    var second: int, lower := s[1], FromBigEndian(s[1..][1..]);
    if first >= 1 {
      Leads(first, low, p, 1, first);
    } else if first <= -2 {
      Leads(first, low, p, first, -2);
    } else if first == 0 {
      Leads(second, lower, q, 128, 255);
    } else {
      Leads(second, lower, q, 0, 127);
    }
  }

  lemma Carries(a: int, p: int)
    ensures 256 * (a * p) == a * (256 * p)
  {
  }

  /** The first octet counts for the most. */
  lemma {:induction false} UnsignedDigit(s: seq<Byte>)
    requires s != []
    ensures FromBigEndian(s) == s[0] * Pow256(|s| - 1) + FromBigEndian(s[1..])
  {
    if |s| == 1 {
      assert s[..0] == [] && s[1..] == [];
      assert FromBigEndian([]) == 0 && Pow256(0) == 1;
    } else {
      var front, rest := s[..|s| - 1], s[1..];
      var last: int, first: int, p := s[|s| - 1], s[0], Pow256(|s| - 2);
      UnsignedDigit(front);
      assert front[1..] == rest[..|s| - 2];
      hide FromBigEndian, Pow256;
      LastDigit(s);
      LastDigit(rest);
      PowerStep(|s| - 1);
      Carries(first, p);
    }
  }

  lemma LastDigit(s: seq<Byte>)
    requires s != []
    ensures FromBigEndian(s) == 256 * FromBigEndian(s[..|s| - 1]) + s[|s| - 1]
  {
  }

  lemma PowerStep(n: nat)
    requires n > 0
    ensures Pow256(n) == 256 * Pow256(n - 1)
  {
  }

  lemma {:induction false} FitsGrows(value: int, n: nat, m: nat)
    requires Fits(value, n) && n <= m
    ensures Fits(value, m)
  {
    if n < m { FitsGrows(value, n, m - 1); }
  }

  /** An integer has exactly one canonical content. */
  lemma CanonicalIntegerUnique(s: seq<Byte>, t: seq<Byte>)
    requires CanonicalInteger(s) && CanonicalInteger(t) && Signed(s) == Signed(t)
    ensures s == t
  {
    hide Fits, FromBigEndian;
    ShorterDiffers(s, t);
    ShorterDiffers(t, s);
    SignedDigit(s);
    SignedDigit(t);
    BigEndianWrites(s[1..]);
    BigEndianWrites(t[1..]);
    LeadingDigit(SByteOf(s[0]), SByteOf(t[0]), FromBigEndian(s[1..]), FromBigEndian(t[1..]), Pow256(|s| - 1));
    assert s == [s[0]] + s[1..] && t == [t[0]] + t[1..];
  }

  lemma ShorterDiffers(s: seq<Byte>, t: seq<Byte>)
    requires CanonicalInteger(s) && CanonicalInteger(t) && Signed(s) == Signed(t)
    ensures |s| >= |t|
  {
    hide Fits, FromBigEndian, Signed;
    if |s| < |t| {
      SignedRange(s);
      CanonicalIsShortest(t);
      FitsGrows(Signed(s), |s|, |t| - 1);
      assert false;
    }
  }

  // ---- Writing an integer ----

  function ShortestLength(value: Int32): (n: nat)
    ensures 1 <= n <= 4
  {
    if -128 <= value <= 127 then 1
    else if -32768 <= value <= 32767 then 2
    else if -8388608 <= value <= 8388607 then 3
    else 4
  }

  lemma ShortestFits(value: Int32)
    ensures var n := ShortestLength(value); Fits(value, n) && (n > 1 ==> !Fits(value, n - 1))
  {
    assert Pow256(0) == 1 && Pow256(1) == 256 && Pow256(2) == 65536 && Pow256(3) == 16777216;
  }

  lemma {:induction false} ContentReads(value: int, n: nat)
    requires Fits(value, n)
    ensures Signed(BigEndian(value, n)) == value
    decreases n
  {
    var c, b := BigEndian(value / 256, n - 1), value % 256;
    assert (c + [b])[..n - 1] == c;
    assert FromBigEndian(c + [b]) == 256 * FromBigEndian(c) + b;
    if n > 1 {
      ContentReads(value / 256, n - 1);
      assert (c + [b])[0] == c[0];
    }
  }

  /** A content is canonical exactly when its integer needs all of its octets. */
  lemma CanonicalIffShortest(s: seq<Byte>)
    requires s != []
    ensures CanonicalInteger(s) <==> |s| == 1 || !Fits(Signed(s), |s| - 1)
  {
    hide Fits, FromBigEndian, Signed;
    if |s| > 1 {
      if CanonicalInteger(s) {
        CanonicalIsShortest(s);
      } else {
        SignedDigit(s);
        SignedDigit(s[1..]);
        UnsignedDigit(s[1..]);
        SignedRange(s[1..]);
        var second: int, p := s[1], Pow256(|s| - 2);
        assert (second - 256) * p == second * p - 256 * p;
      }
    }
  }

  /** The integer read back from the octets written is the one given, in the only canonical form. */
  method WriteInteger(output: array<Byte>, offset: int, capacity: int, value: Int32) returns (written: int)
    modifies output
    ensures written == if Contains(output.Length, offset, capacity) && 2 + ShortestLength(value) <= capacity
                       then 2 + ShortestLength(value) else -1
    ensures written < 0 ==> output[..] == old(output[..])
    ensures written > 0 ==>
              && output[..offset] == old(output[..offset])
                 && output[offset + written..] == old(output[offset + written..])
              && HeaderAt(output[..], offset, offset + written, true)
                 == Some(Header(INTEGER_TAG, offset + 2, written - 2))
              && Signed(output[offset + 2..offset + written]) == value
              && output[offset..offset + written]
                 == [2, |DerValues.IntegerOctets(value)|] + DerValues.IntegerOctets(value)
  {
    hide HeaderAt, HeaderBytes, CanonicalInteger, Signed, BigEndian, DerValues.IntegerOctets, ShortestLength;
    var length := ShortestLength(value);
    var header := HeaderLength(INTEGER_TAG, length);
    if !Contains(output.Length, offset, capacity) || header + length > capacity { return -1; }
    ghost var before := output[..];
    var _ := WriteHeader(output, offset, capacity, INTEGER_TAG, length);
    var destination := offset + header;
    ghost var head := output[..];
    assert head[..destination] == before[..offset] + HeaderBytes(INTEGER_TAG, length);
    assert head[destination..] == before[destination..];
    FillContent(output, destination, length, value);
    ghost var after := output[..];
    var next := destination + length;
    assert after[..offset] == after[..destination][..offset] == before[..offset];
    assert after[offset..destination] == after[..destination][offset..] == HeaderBytes(INTEGER_TAG, length);
    assert after[next..] == head[destination..][length..] == before[next..];
    ShortestFits(value);
    ContentReads(value, length);
    CanonicalIffShortest(BigEndian(value, length));
    WrittenHeaderReads(after, offset, next, INTEGER_TAG, length);
    ShortestOctets(value);
    ShortHeader(length);
    JoinedSlices(after, offset, destination, next);
    return header + length;
  }

  lemma JoinedSlices(s: seq<Byte>, i: nat, j: nat, k: nat)
    requires i <= j <= k <= |s|
    ensures s[i..k] == s[i..j] + s[j..k]
  {
  }

  lemma ShortHeader(length: nat)
    requires length < 128
    ensures HeaderLength(INTEGER_TAG, length) == 2 && HeaderBytes(INTEGER_TAG, length) == [2, length]
  {
  }

  /** The octets of the shortest length are the shortest two's complement. */
  lemma {:induction false} ShortestOctets(value: Int32)
    ensures BigEndian(value, ShortestLength(value)) == DerValues.IntegerOctets(value)
    ensures |DerValues.IntegerOctets(value)| == ShortestLength(value)
    decreases ShortestLength(value)
  {
    if -128 <= value < 128 {
      assert BigEndian(value / 256, 0) == [];
    } else {
      ShortestOctets(value / 256);
    }
  }

  method FillContent(output: array<Byte>, destination: nat, length: nat, value: int)
    requires destination + length <= output.Length
    modifies output
    ensures output[..destination] == old(output[..destination])
    ensures output[destination..destination + length] == BigEndian(value, length)
    ensures output[destination + length..] == old(output[destination + length..])
  {
    var remaining := value;
    var index := length - 1;
    while index >= 0
      invariant -1 <= index < length
      invariant output[..destination] == old(output[..destination])
      invariant BigEndian(value, length)
                == BigEndian(remaining, index + 1) + output[destination + index + 1..destination + length]
      invariant output[destination + length..] == old(output[destination + length..])
    {
      ghost var rest := output[destination + index + 1..destination + length];
      output[destination + index] := remaining % 256;
      assert output[destination + index..destination + length] == [remaining % 256] + rest;
      remaining := remaining / 256;
      index := index - 1;
    }
  }

  // ---- Sequences of primitives ----

  /** What IsPrimitiveSequence accepts: elements with one primitive identifier octet each. */
  predicate PrimitiveRegion(input: seq<Byte>, lo: nat, hi: nat)
    requires lo <= hi <= |input|
    decreases hi - lo
  {
    lo == hi ||
    (HeaderAt(input, lo, hi, false).Some? &&
     var h := HeaderAt(input, lo, hi, false).value;
     && h.tag <= 0xFF && h.tag / 32 % 2 == 0
     && CanonicalContent(h.tag, input[h.valueOffset..h.Next()])
     && PrimitiveRegion(input, h.Next(), hi))
  }

  /** No element is a SEQUENCE or SET with the constructed bit left out. */
  predicate NoBareCollections(input: seq<Byte>, lo: nat, hi: nat)
    requires lo <= hi <= |input|
    decreases hi - lo
  {
    HeaderAt(input, lo, hi, false).None? ||
    (var h := HeaderAt(input, lo, hi, false).value;
     h.tag !in {16, 17} && NoBareCollections(input, h.Next(), hi))
  }

  function LengthOctets(first: Byte): nat { if first < 0x80 then 1 else if first == 0x81 then 2 else 3 }

  method ReadPrimitiveLength(input: seq<Byte>, offset: nat, end: nat) returns (length: int)
    requires offset <= end <= |input|
    ensures if length < 0 then LengthAt(input, offset, end).None?
            else
              && offset < end
              && LengthAt(input, offset, end) == Some(Field(length, offset + LengthOctets(input[offset])))
  {
    if offset >= end { return -1; }
    var first := input[offset];
    if first < 0x80 { return first; }
    if first == 0x81 && offset + 1 < end && input[offset + 1] >= 0x80 { return input[offset + 1]; }
    if first == 0x82 && offset + 2 < end {
      var value := (input[offset + 1] as int) * 256 + input[offset + 2];
      return if value >= 0x100 then value else -1;
    }
    return -1;
  }

  lemma NothingPrimitive(input: seq<Byte>, at: nat)
    requires at <= |input|
    ensures PrimitiveRegion(input, at, at)
  {
  }

  /** One element of PrimitiveRegion, from its identifier and length octets. */
  lemma PrimitiveStep(input: seq<Byte>, cursor: nat, end: nat)
    requires cursor < end <= |input|
    ensures PrimitiveRegion(input, cursor, end) ==
            (end - cursor >= 2 && input[cursor] != 0 && input[cursor] % 32 != 31 && input[cursor] / 32 % 2 == 0 &&
             LengthAt(input, cursor + 1, end).Some? &&
             var length := LengthAt(input, cursor + 1, end).value;
             length.value <= end - length.next &&
             CanonicalContent(input[cursor], input[length.next..length.next + length.value]) &&
             PrimitiveRegion(input, length.next + length.value, end))
  {
    hide CanonicalContent, LengthAt;
  }

  method IsPrimitiveSequence(input: seq<Byte>, offset: int, length: int) returns (primitive: bool)
    ensures primitive <==> Contains(|input|, offset, length) && PrimitiveRegion(input, offset, offset + length)
  {
    hide CanonicalContent, LengthAt, PrimitiveRegion;
    if !Contains(|input|, offset, length) { return false; }
    var end := offset + length;
    var cursor := offset;
    while cursor < end
      invariant offset <= cursor <= end
      invariant PrimitiveRegion(input, offset, end) == PrimitiveRegion(input, cursor, end)
    {
      PrimitiveStep(input, cursor, end);
      if end - cursor < 2 { return false; }
      var tag: int := input[cursor];
      if tag == 0 || tag % 32 == 31 { return false; }
      var valueLength := ReadPrimitiveLength(input, cursor + 1, end);
      if valueLength < 0 { return false; }
      var valueOffset := cursor + 1 + LengthOctets(input[cursor + 1]);
      if valueLength > end - valueOffset { return false; }
      var canonical := ReadCanonicalValue(input, valueOffset, valueLength, tag);
      if !canonical || tag / 32 % 2 != 0 { return false; }
      cursor := valueOffset + valueLength;
    }
    NothingPrimitive(input, end);
    return cursor == end;
  }

  /** The primitive check lets through what DER validation refuses, and only this: an element
      tagged SEQUENCE or SET whose constructed bit is clear. */
  lemma {:induction false} PrimitiveRegionValidIff(input: seq<Byte>, lo: nat, hi: nat, room: nat)
    requires lo <= hi <= |input| && PrimitiveRegion(input, lo, hi)
    ensures ValidRegion(input, lo, hi, room) <==> NoBareCollections(input, lo, hi)
    decreases hi - lo
  {
    hide CanonicalContent, TagAt, LengthAt;
    if lo < hi {
      var h := HeaderAt(input, lo, hi, false).value;
      HeaderIsWritten(input, lo, hi, false);
      PrimitiveRegionValidIff(input, h.Next(), hi, room);
    }
  }

  /** A bare SEQUENCE octet passes the primitive check but is not DER. */
  lemma BareSequenceAccepted()
    ensures PrimitiveRegion([16, 0], 0, 2) && !ValidRegion([16, 0], 0, 2, 0)
  {
    assert HeaderAt([16, 0], 0, 2, false) == Some(Header(16, 2, 0));
  }
}
