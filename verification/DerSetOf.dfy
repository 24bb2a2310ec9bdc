/** The SET OF order check of managed/MicroCard.Encoding/Der.cs and the padded comparison of
    section 11.6 of ITU-T X.690 that it stands for. */
module DerSetOf {
  import opened Bytes
  import opened Tlv
  import opened Der

  // ---- The order the standard defines ----

  function PaddedAt(s: seq<Byte>, k: nat): int { if k < |s| then s[k] else 0 }

  predicate SamePadded(a: seq<Byte>, b: seq<Byte>, n: nat) {
    forall k: nat :: k < n ==> PaddedAt(a, k) == PaddedAt(b, k)
  }

  /** `a` is not after `b` once the shorter is padded at its end with zero octets. */
  ghost predicate PaddedLeq(a: seq<Byte>, b: seq<Byte>) {
    forall k: nat :: SamePadded(a, b, k) ==> PaddedAt(a, k) <= PaddedAt(b, k)
  }

  ghost predicate Ascending(pieces: seq<seq<Byte>>) {
    forall i, j :: 0 <= i < j < |pieces| ==> PaddedLeq(pieces[i], pieces[j])
  }

  lemma PaddedLeqTransitive(a: seq<Byte>, b: seq<Byte>, c: seq<Byte>)
    requires PaddedLeq(a, b) && PaddedLeq(b, c)
    ensures PaddedLeq(a, c)
  {
    forall k: nat | SamePadded(a, c, k)
      ensures PaddedAt(a, k) <= PaddedAt(c, k)
    {
      Squeezed(a, b, c, k);
      assert SamePadded(b, c, k);
    }
  }

  lemma {:induction false} Squeezed(a: seq<Byte>, b: seq<Byte>, c: seq<Byte>, n: nat)
    requires PaddedLeq(a, b) && PaddedLeq(b, c) && SamePadded(a, c, n)
    ensures SamePadded(a, b, n)
  {
    if n > 0 {
      Squeezed(a, b, c, n - 1);
      assert SamePadded(b, c, n - 1);
      assert PaddedAt(a, n - 1) <= PaddedAt(b, n - 1) <= PaddedAt(c, n - 1);
    }
  }

  lemma {:induction false} AdjacentSuffices(pieces: seq<seq<Byte>>, i: nat, j: nat)
    requires i < j < |pieces|
    requires forall k :: 0 < k < |pieces| ==> PaddedLeq(pieces[k - 1], pieces[k])
    ensures PaddedLeq(pieces[i], pieces[j])
    decreases j
  {
    hide PaddedLeq;
    assert PaddedLeq(pieces[j - 1], pieces[j]);
    if i < j - 1 {
      AdjacentSuffices(pieces, i, j - 1);
      PaddedLeqTransitive(pieces[i], pieces[j - 1], pieces[j]);
    }
  }

  // ---- The order the code computes ----

  function Compare(a: seq<Byte>, b: seq<Byte>): int {
    if a == [] || b == [] then |a| - |b|
    else if a[0] != b[0] then a[0] - b[0]
    else Compare(a[1..], b[1..])
  }

  method CompareEncoded(input: seq<Byte>, leftOffset: nat, leftLength: nat, rightOffset: nat, rightLength: nat)
    returns (order: int)
    requires leftOffset + leftLength <= |input| && rightOffset + rightLength <= |input|
    ensures order == Compare(input[leftOffset..leftOffset + leftLength], input[rightOffset..rightOffset + rightLength])
  {
    ghost var left, right := input[leftOffset..leftOffset + leftLength], input[rightOffset..rightOffset + rightLength];
    assert left[0..] == left && right[0..] == right;
    var common := if leftLength < rightLength then leftLength else rightLength;
    for index := 0 to common
      invariant Compare(left, right) == Compare(left[index..], right[index..])
    {
      var difference := (input[leftOffset + index] as int) - input[rightOffset + index];
      assert left[index] == input[leftOffset + index] && right[index] == input[rightOffset + index];
      if difference != 0 { return difference; }
      assert left[index..][1..] == left[index + 1..] && right[index..][1..] == right[index + 1..];
    }
    return leftLength - rightLength;
  }

  /** One whole element and nothing more. */
  predicate IsElement(s: seq<Byte>) {
    HeaderAt(s, 0, |s|, true).Some? && HeaderAt(s, 0, |s|, true).value.Next() == |s|
  }

  /** No element starts another. */
  lemma PrefixIsWhole(a: seq<Byte>, b: seq<Byte>)
    requires IsElement(a) && IsElement(b) && |a| <= |b| && b[..|a|] == a
    ensures a == b
  {
    hide HeaderAt;
    assert b[0..0 + |a|] == a[0..0 + |a|];
    HeaderIsLocal(a, 0, |a|, true, b, 0, |b|);
  }

  /** So a difference comes before either of two elements ends. */
  lemma ElementsDiffer(a: seq<Byte>, b: seq<Byte>) returns (k: nat)
    requires IsElement(a) && IsElement(b) && a != b
    ensures k < |a| && k < |b| && a[k] != b[k] && a[..k] == b[..k]
  {
    hide IsElement;
    k := 0;
    while k < |a| && k < |b| && a[k] == b[k]
      invariant k <= |a| && k <= |b| && a[..k] == b[..k]
    {
      k := k + 1;
    }
    if k == |a| {
      PrefixIsWhole(a, b);
      assert false;
    }
    if k == |b| {
      PrefixIsWhole(b, a);
      assert false;
    }
  }

  lemma {:induction false} CompareAtDifference(a: seq<Byte>, b: seq<Byte>, k: nat)
    requires k < |a| && k < |b| && a[k] != b[k] && a[..k] == b[..k]
    ensures Compare(a, b) == a[k] as int - b[k]
    decreases k
  {
    if k > 0 {
      assert a[0] == a[..k][0] && b[0] == b[..k][0];
      assert a[1..][..k - 1] == a[..k][1..] && b[1..][..k - 1] == b[..k][1..];
      CompareAtDifference(a[1..], b[1..], k - 1);
    }
  }

  lemma {:induction false} CompareSelf(a: seq<Byte>)
    ensures Compare(a, a) == 0
  {
    if a != [] { CompareSelf(a[1..]); }
  }

  /** On whole elements the length tie-break agrees with zero padding. */
  lemma CompareIsPadded(a: seq<Byte>, b: seq<Byte>)
    requires IsElement(a) && IsElement(b)
    ensures Compare(a, b) <= 0 <==> PaddedLeq(a, b)
    ensures Compare(a, b) == 0 <==> a == b
  {
    if a == b {
      CompareSelf(a);
    } else {
      var k := ElementsDiffer(a, b);
      CompareAtDifference(a, b, k);
      forall j: nat | j < k
        ensures PaddedAt(a, j) == PaddedAt(b, j)
      {
        assert a[j] == a[..k][j] == b[..k][j] == b[j];
      }
      assert SamePadded(a, b, k);
      assert PaddedAt(a, k) != PaddedAt(b, k);
      if a[k] < b[k] {
        forall m: nat | SamePadded(a, b, m)
          ensures PaddedAt(a, m) <= PaddedAt(b, m)
        {
          assert !(k < m);
        }
      }
    }
  }

  // ---- The check over a region ----

  /** The region is elements end to end. */
  predicate Splits(input: seq<Byte>, lo: nat, hi: nat)
    requires lo <= hi <= |input|
    decreases hi - lo
  {
    lo == hi || (HeaderAt(input, lo, hi, true).Some? && Splits(input, HeaderAt(input, lo, hi, true).value.Next(), hi))
  }

  function Pieces(input: seq<Byte>, lo: nat, hi: nat): seq<seq<Byte>>
    requires lo <= hi <= |input|
    decreases hi - lo
  {
    if HeaderAt(input, lo, hi, true).None? then []
    else
      var next := HeaderAt(input, lo, hi, true).value.Next();
      [input[lo..next]] + Pieces(input, next, hi)
  }

  lemma {:induction false} ValidRegionSplits(input: seq<Byte>, lo: nat, hi: nat, room: nat)
    requires lo <= hi <= |input| && ValidRegion(input, lo, hi, room)
    ensures Splits(input, lo, hi)
    decreases hi - lo
  {
    if lo < hi { ValidRegionSplits(input, HeaderAt(input, lo, hi, true).value.Next(), hi, room); }
  }

  lemma PieceIsElement(input: seq<Byte>, lo: nat, hi: nat)
    requires lo <= hi <= |input| && HeaderAt(input, lo, hi, true).Some?
    ensures IsElement(input[lo..HeaderAt(input, lo, hi, true).value.Next()])
  {
    hide HeaderAt;
    var s := input[lo..HeaderAt(input, lo, hi, true).value.Next()];
    assert s[0..0 + |s|] == s;
    HeaderIsLocal(input, lo, hi, true, s, 0, |s|);
  }

  lemma PiecesStep(input: seq<Byte>, lo: nat, hi: nat, done: seq<seq<Byte>>)
    requires lo < hi <= |input|
    ensures HeaderAt(input, lo, hi, true).None? ==> !Splits(input, lo, hi)
    ensures HeaderAt(input, lo, hi, true).Some? ==>
              var next := HeaderAt(input, lo, hi, true).value.Next();
              && Splits(input, lo, hi) == Splits(input, next, hi)
              && IsElement(input[lo..next])
              && done + Pieces(input, lo, hi) == done + [input[lo..next]] + Pieces(input, next, hi)
  {
    hide HeaderAt, IsElement;
    if HeaderAt(input, lo, hi, true).Some? { PieceIsElement(input, lo, hi); }
  }

  lemma NoPieces(input: seq<Byte>, at: nat)
    requires at <= |input|
    ensures Splits(input, at, at) && Pieces(input, at, at) == []
  {
  }

  predicate Last(input: seq<Byte>, done: seq<seq<Byte>>, offset: int, length: int) {
    if done == [] then offset < 0
    else 0 <= offset <= offset + length <= |input| && done[|done| - 1] == input[offset..offset + length]
  }

  /** The elements so far, each after the one before it. */
  ghost predicate Ordered(done: seq<seq<Byte>>) {
    && (forall k :: 0 <= k < |done| ==> IsElement(done[k]))
    && (forall k :: 0 < k < |done| ==> PaddedLeq(done[k - 1], done[k]))
  }

  lemma OrderedIsAscending(done: seq<seq<Byte>>)
    requires Ordered(done)
    ensures Ascending(done)
  {
    hide PaddedLeq, IsElement;
    forall i, j | 0 <= i < j < |done|
      ensures PaddedLeq(done[i], done[j])
    {
      AdjacentSuffices(done, i, j);
    }
  }

  lemma OrderedExtends(done: seq<seq<Byte>>, current: seq<Byte>, rest: seq<seq<Byte>>)
    requires Ordered(done) && IsElement(current)
    ensures done == [] || Compare(done[|done| - 1], current) <= 0 ==> Ordered(done + [current])
    ensures done != [] && Compare(done[|done| - 1], current) > 0 ==> !Ascending(done + [current] + rest)
  {
    hide PaddedLeq, IsElement;
    if done != [] {
      var n := |done|;
      CompareIsPadded(done[n - 1], current);
      var all := done + [current] + rest;
      assert all[n - 1] == done[n - 1] && all[n] == current;
    }
  }

  method CanonicalSetOfOrder(input: seq<Byte>, offset: nat, length: nat, scratch: array<int>, scratchOffset: nat)
    returns (canonical: bool)
    requires offset + length <= |input| && scratchOffset + RESULT_SIZE <= scratch.Length
    modifies scratch
    ensures canonical <==> Splits(input, offset, offset + length) && Ascending(Pieces(input, offset, offset + length))
    ensures forall k :: 0 <= k < scratch.Length && !(scratchOffset <= k < scratchOffset + RESULT_SIZE) ==>
              scratch[k] == old(scratch[k])
  {
    hide HeaderAt, Ordered, IsElement, Splits, Pieces, Compare, Ascending;
    var end := offset + length;
    var cursor := offset;
    var previousOffset := -1;
    var previousLength := 0;
    ghost var done: seq<seq<Byte>> := [];
    assert Ordered(done) by { NothingOrdered(); }
    while cursor < end
      invariant offset <= cursor <= end
      invariant Splits(input, offset, end) == Splits(input, cursor, end)
      invariant Pieces(input, offset, end) == done + Pieces(input, cursor, end)
      invariant Last(input, done, previousOffset, previousLength) && Ordered(done)
      invariant forall k :: 0 <= k < scratch.Length && !(scratchOffset <= k < scratchOffset + RESULT_SIZE) ==>
                  scratch[k] == old(scratch[k])
      decreases end - cursor
    {
      PiecesStep(input, cursor, end, done);
      var ok := TryRead(input, cursor, end - cursor, scratch, scratchOffset, true);
      if !ok { return false; }
      var next, _, _, _ := Slots(scratch, scratchOffset, HeaderAt(input, cursor, end, true).value, cursor);
      var currentLength := next - cursor;
      ghost var current := input[cursor..next];
      OrderedExtends(done, current, Pieces(input, next, end));
      if previousOffset >= 0 {
        var order := CompareEncoded(input, previousOffset, previousLength, cursor, currentLength);
        if order > 0 { return false; }
      }
      previousOffset := cursor;
      previousLength := currentLength;
      cursor := next;
      done := done + [current];
    }
    NoPieces(input, end);
    assert Pieces(input, offset, end) == done;
    OrderedIsAscending(done);
    return cursor == end;
  }

  lemma NothingOrdered()
    ensures Ordered([])
  {
  }
}
