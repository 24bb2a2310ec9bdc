/** The interning metadata heaps of managed/MicroCard.Tool/Mc04Writer.Metadata.cs, against the
    readers string_at and blob_at of scripts/mcinspect.py. */
module Heaps {
  import opened Wrappers
  import opened Bytes
  import opened Utf8

  /** A metadata name. A lone UTF-16 surrogate is a code point of its own. */
  type Name = seq<CodePoint>

  const BLOB_QUOTA := 16383
  const REPLACEMENT: CodePoint := 0xFFFD

  // ---- The readers ----

  /** Python's bytes.find of the terminator; |s| stands for its -1. */
  function FindZero(s: seq<Byte>, from: nat): (end: nat)
    requires from <= |s|
    ensures from <= end <= |s| && (end < |s| ==> s[end] == 0)
    ensures forall k :: from <= k < end ==> s[k] != 0
    decreases |s| - from
  {
    if from == |s| || s[from] == 0 then from else FindZero(s, from + 1)
  }

  function StringAt(strings: seq<Byte>, offset: nat): Option<Name> {
    if offset == 0 then Some([])
    else if offset > |strings| then None
    else
      var end := FindZero(strings, offset);
      if end == |strings| then None else TextOf(strings[offset..end])
  }

  /** A slice past the end is cut short, as the source's language does. */
  function Slice(s: seq<Byte>, from: nat, to: nat): seq<Byte> {
    if from >= |s| || to <= from then [] else if to > |s| then s[from..] else s[from..to]
  }

  function BlobAt(blobs: seq<Byte>, offset: nat): Option<seq<Byte>> {
    if offset == 0 then Some([])
    else if offset >= |blobs| then None
    else
      var first: int := blobs[offset];
      if first < 0x80 then Some(Slice(blobs, offset + 1, offset + 1 + first))
      else if first < 0xC0 then
        if offset + 1 >= |blobs| then None
        else
          var length := first % 64 * 256 + blobs[offset + 1];
          Some(Slice(blobs, offset + 2, offset + 2 + length))
      else None
  }

  // ---- What the writer encodes ----

  /** UTF-8 encoding puts U+FFFD for a lone surrogate. */
  function Replaced(name: Name): (r: Name)
    ensures |r| == |name| && IsText(r)
    ensures IsText(name) ==> r == name
    ensures forall k :: 0 <= k < |r| ==> r[k] == if 0xD800 <= name[k] < 0xE000 then 0xFFFD else name[k]
  {
    seq(|name|, k requires 0 <= k < |name| => if IsScalar(name[k]) then name[k] else REPLACEMENT)
  }

  function NameOctets(name: Name): seq<Byte> { Utf8Of(Replaced(name)) }

  predicate HasZero(name: Name) { exists k :: 0 <= k < |name| && name[k] == 0 }

  function BlobHeader(length: nat): seq<Byte>
    requires length <= BLOB_QUOTA
  {
    if length < 128 then [length] else [0x80 + length / 256, length % 256]
  }

  /** A length below 128 is its own octet; a longer one follows the bits 10 in two octets, the high
      one first. */
  lemma BlobHeaderSays(length: nat)
    requires length <= BLOB_QUOTA
    ensures var s := BlobHeader(length);
            || (|s| == 1 && length < 128 && s[0] == length)
            || (|s| == 2 && length >= 128 && s[0] / 64 == 2 && var low: int := s[1]; s[0] % 64 * 256 + low == length)
  {
  }

  /** `name` is stored at `at`, ended by its zero octet. */
  predicate HoldsName(data: seq<Byte>, at: nat, name: Name) {
    && !HasZero(name) && (at == 0 ==> name == [])
    && at + |NameOctets(name)| < |data|
    && data[at..at + |NameOctets(name)|] == NameOctets(name) && data[at + |NameOctets(name)|] == 0
  }

  predicate HoldsBlob(data: seq<Byte>, at: nat, value: seq<Byte>) {
    && |value| <= BLOB_QUOTA && at >= 1
    && at + |BlobHeader(|value|)| + |value| <= |data|
    && data[at..at + |BlobHeader(|value|)| + |value|] == BlobHeader(|value|) + value
  }

  lemma {:induction false} OctetsNonzero(name: Name)
    requires IsText(name) && !HasZero(name)
    ensures forall k :: 0 <= k < |Utf8Of(name)| ==> Utf8Of(name)[k] != 0
  {
    if name != [] {
      assert name[0] != 0;
      assert forall k :: 0 <= k < |name[1..]| ==> name[1..][k] == name[k + 1];
      OctetsNonzero(name[1..]);
    }
  }

  /** The inspector reads a stored name back, surrogates replaced. */
  lemma NameReads(data: seq<Byte>, at: nat, name: Name)
    requires HoldsName(data, at, name)
    ensures StringAt(data, at) == Some(Replaced(name))
  {
    if at > 0 {
      var octets := NameOctets(name);
      ReplacedHasNoZero(name);
      OctetsNonzero(Replaced(name));
      TextReads(Replaced(name));
      forall k | at <= k < at + |octets|
        ensures data[k] != 0
      {
        assert data[k] == data[at..at + |octets|][k - at];
      }
      assert FindZero(data, at) == at + |octets|;
    }
  }

  lemma ReplacedHasNoZero(name: Name)
    requires !HasZero(name)
    ensures !HasZero(Replaced(name))
  {
  }

  lemma BlobReads(data: seq<Byte>, at: nat, value: seq<Byte>)
    requires HoldsBlob(data, at, value)
    ensures BlobAt(data, at) == Some(value)
  {
    var n, h := |value|, |BlobHeader(|value|)|;
    var whole := data[at..at + h + n];
    assert data[at] == whole[0] && (h == 2 ==> data[at + 1] == whole[1]);
    assert data[at + h..at + h + n] == whole[h..] == value;
    if n == 0 { assert Slice(data, at + h, at + h) == []; }
  }

  lemma NameStays(data: seq<Byte>, more: seq<Byte>, at: nat, name: Name)
    requires HoldsName(data, at, name) && data <= more
    ensures HoldsName(more, at, name)
  {
    var end := at + |NameOctets(name)|;
    assert more[at..end] == data[at..end];
  }

  lemma BlobStays(data: seq<Byte>, more: seq<Byte>, at: nat, value: seq<Byte>)
    requires HoldsBlob(data, at, value) && data <= more
    ensures HoldsBlob(more, at, value)
  {
    var end := at + |BlobHeader(|value|)| + |value|;
    assert more[at..end] == data[at..end];
  }

  class StringHeap {
    var data: seq<Byte>
    var offsets: map<Name, nat>

    ghost predicate Valid()
      reads this
    {
      && data != [] && [] in offsets
      && forall s :: s in offsets ==> offsets[s] < 0x1_0000 && HoldsName(data, offsets[s], s)
    }

    constructor ()
      ensures Valid() && data == [0] && offsets == map[[] := 0]
    {
      data := [0];
      offsets := map[[] := 0];
      new;
      assert NameOctets([]) == [];
      assert data[0..0] == [];
    }

    /** A known name costs nothing; a new one goes at the end, unless it holds a zero or the end is
        past what sixteen bits address. */
    method Add(value: Name) returns (offset: Option<nat>)
      requires Valid()
      modifies this
      ensures Valid() && old(data) <= data
      ensures forall s :: s in old(offsets) ==> s in offsets && offsets[s] == old(offsets)[s]
      ensures offset.Some? <==> value in old(offsets) || (!HasZero(value) && |old(data)| < 0x1_0000)
      ensures offset.Some? && value !in old(offsets) ==>
                data == old(data) + NameOctets(value) + [0] && offsets == old(offsets)[value := |old(data)|]
      ensures offset.Some? ==> value in offsets && offsets[value] == offset.value
      ensures offset.None? || value in old(offsets) ==> data == old(data) && offsets == old(offsets)
    {
      if value in offsets { return Some(offsets[value]); }
      if HasZero(value) { return None; }
      var encoded := NameOctets(value);
      if |data| >= 0x1_0000 { return None; }
      var at := |data|;
      ghost var before := data;
      data := data + encoded + [0];
      offsets := offsets[value := at];
      assert data[at..at + |encoded|] == encoded;
      forall s | s in offsets
        ensures offsets[s] < 0x1_0000 && HoldsName(data, offsets[s], s)
      {
        if s != value { NameStays(before, data, offsets[s], s); }
      }
      return Some(at);
    }
  }

  class BlobHeap {
    var data: seq<Byte>
    var offsets: map<seq<Byte>, nat>

    ghost predicate Valid()
      reads this
    {
      data != [] && forall s :: s in offsets ==> offsets[s] < 0x1_0000 && HoldsBlob(data, offsets[s], s)
    }

    constructor ()
      ensures Valid() && data == [0] && offsets == map[]
    {
      data := [0];
      offsets := map[];
    }

    /** A known value costs nothing; a new one goes at the end behind its length, unless it is over
        the quota or the end is past what sixteen bits address. */
    method Add(value: seq<Byte>) returns (offset: Option<nat>)
      requires Valid()
      modifies this
      ensures Valid() && old(data) <= data
      ensures forall s :: s in old(offsets) ==> s in offsets && offsets[s] == old(offsets)[s]
      ensures offset.Some? <==> value in old(offsets) || (|value| <= BLOB_QUOTA && |old(data)| < 0x1_0000)
      ensures offset.Some? && value !in old(offsets) ==>
                data == old(data) + (BlobHeader(|value|) + value) && offsets == old(offsets)[value := |old(data)|]
      ensures offset.Some? ==> value in offsets && offsets[value] == offset.value
      ensures offset.None? || value in old(offsets) ==> data == old(data) && offsets == old(offsets)
    {
      if value in offsets { return Some(offsets[value]); }
      if |value| > BLOB_QUOTA || |data| >= 0x1_0000 { return None; }
      var at := |data|;
      ghost var before := data;
      if |value| < 128 {
        data := data + [|value|];
      } else {
        data := data + [0x80 + |value| / 256];
        data := data + [|value| % 256];
      }
      data := data + value;
      offsets := offsets[value := at];
      assert data == before + (BlobHeader(|value|) + value);
      assert data[at..] == BlobHeader(|value|) + value;
      forall s | s in offsets
        ensures offsets[s] < 0x1_0000 && HoldsBlob(data, offsets[s], s)
      {
        if s != value { BlobStays(before, data, offsets[s], s); }
      }
      return Some(at);
    }
  }
}
