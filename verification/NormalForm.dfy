/** The merge loop of Normalize and why its result is canonical: sorted, separated ranges are
    determined by the points they cover, so neither the order of the alternatives nor the
    choices of an unstable sort can be seen in it. */
module NormalForm {
  import opened Versions

  ghost predicate Covers(ranges: seq<Range>, point: int) {
    exists i :: 0 <= i < |ranges| && InCut(ranges[i], point)
  }

  predicate Proper(ranges: seq<Range>) {
    forall i :: 0 <= i < |ranges| ==> ranges[i].WellFormed() && Lo(ranges[i]) < Hi(ranges[i])
  }

  predicate SortedByMinimum(ranges: seq<Range>) {
    forall i, j :: 0 <= i < j < |ranges| ==> CompareMinimum(ranges[i], ranges[j]) <= 0
  }

  /** Proper ranges in order, no two of which touch. */
  predicate Canonical(ranges: seq<Range>) {
    Proper(ranges) && forall i, j :: 0 <= i < j < |ranges| ==> Hi(ranges[i]) < Lo(ranges[j])
  }

  /** `canonical` is the normal form of the alternatives. */
  ghost predicate IsNormalForm(alternatives: seq<Range>, canonical: seq<Range>) {
    Canonical(canonical) && forall p :: Covers(canonical, p) <==> Covers(alternatives, p)
  }

  /** List.Sort, of which only the ordering and the permutation are promised. */
  method SortByMinimum(ranges: seq<Range>) returns (sorted: seq<Range>)
    ensures multiset(sorted) == multiset(ranges) && SortedByMinimum(sorted)
  {
    sorted := [];
    for n := 0 to |ranges|
      invariant multiset(sorted) == multiset(ranges[..n]) && SortedByMinimum(sorted)
    {
      var at := 0;
      while at < |sorted| && CompareMinimum(sorted[at], ranges[n]) <= 0
        invariant 0 <= at <= |sorted|
        invariant forall k :: 0 <= k < at ==> CompareMinimum(sorted[k], ranges[n]) <= 0
      {
        at := at + 1;
      }
      InsertSorted(sorted, ranges[n], at);
      assert ranges[..n + 1] == ranges[..n] + [ranges[n]];
      sorted := sorted[..at] + [ranges[n]] + sorted[at..];
    }
    assert ranges[..|ranges|] == ranges;
  }

  lemma InsertSorted(sorted: seq<Range>, r: Range, at: nat)
    requires SortedByMinimum(sorted) && at <= |sorted|
    requires forall k :: 0 <= k < at ==> CompareMinimum(sorted[k], r) <= 0
    requires at < |sorted| ==> CompareMinimum(sorted[at], r) > 0
    ensures SortedByMinimum(sorted[..at] + [r] + sorted[at..])
    ensures multiset(sorted[..at] + [r] + sorted[at..]) == multiset(sorted) + multiset([r])
  {
    hide CompareMinimum, Lo;
    assert sorted == sorted[..at] + sorted[at..];
    var longer := sorted[..at] + [r] + sorted[at..];
    forall i, j | 0 <= i < j < |longer|
      ensures CompareMinimum(longer[i], longer[j]) <= 0
    {
      if i == at {
        CompareMinimumIsCut(sorted[at], r);
        CompareMinimumIsCut(sorted[at], sorted[j - 1]);
        CompareMinimumIsCut(r, sorted[j - 1]);
        if j - 1 > at { assert CompareMinimum(sorted[at], sorted[j - 1]) <= 0; }
      } else if j != at {
        var a, b := if i < at then i else i - 1, if j < at then j else j - 1;
        assert longer[i] == sorted[a] && longer[j] == sorted[b];
      }
    }
  }

  lemma SortedIsCut(ranges: seq<Range>)
    requires SortedByMinimum(ranges)
    ensures forall i, j :: 0 <= i < j < |ranges| ==> Lo(ranges[i]) <= Lo(ranges[j])
  {
    hide CompareMinimum, Lo;
    forall i, j | 0 <= i < j < |ranges|
      ensures Lo(ranges[i]) <= Lo(ranges[j])
    {
      CompareMinimumIsCut(ranges[i], ranges[j]);
      assert CompareMinimum(ranges[i], ranges[j]) <= 0;
    }
  }

  /** The foreach loop over the sorted alternatives. */
  method Merge(sorted: seq<Range>) returns (canonical: seq<Range>)
    requires Proper(sorted) && SortedByMinimum(sorted)
    ensures IsNormalForm(sorted, canonical)
  {
    hide Lo, Hi, Touches, Union, CompareMinimum, Covers, Canonical;
    SortedIsCut(sorted);
    NothingCovered();
    canonical := [];
    for n := 0 to |sorted|
      invariant Canonical(canonical)
      invariant n == 0 <==> canonical == []
      invariant n > 0 ==> exists k :: 0 <= k < n && Lo(canonical[|canonical| - 1]) == Lo(sorted[k])
      invariant forall p :: Covers(canonical, p) <==> Covers(sorted[..n], p)
    {
      var range := sorted[n];
      TakeOneMore(sorted, n);
      assert range.WellFormed() && Lo(range) < Hi(range);
      if |canonical| == 0 {
        AddApart(canonical, range);
        canonical := canonical + [range];
        assert Lo(canonical[0]) == Lo(sorted[n]);
      } else {
        var last := canonical[|canonical| - 1];
        var k :| 0 <= k < n && Lo(last) == Lo(sorted[k]);
        assert Lo(sorted[k]) <= Lo(sorted[n]);
        TouchesIsCut(last, range);
        if !Touches(last, range) {
          AddApart(canonical, range);
          canonical := canonical + [range];
          assert Lo(canonical[|canonical| - 1]) == Lo(sorted[n]);
        } else {
          Absorb(canonical, range);
          canonical := canonical[|canonical| - 1 := Union(last, range)];
          assert Lo(canonical[|canonical| - 1]) == Lo(sorted[k]);
        }
      }
    }
    assert sorted[..|sorted|] == sorted;
  }

  lemma NothingCovered()
    ensures Canonical([]) && forall p :: !Covers([], p)
  {
  }

  lemma TakeOneMore(ranges: seq<Range>, n: nat)
    requires n < |ranges|
    ensures forall p :: Covers(ranges[..n + 1], p) <==> Covers(ranges[..n], p) || InCut(ranges[n], p)
  {
    assert ranges[..n + 1] == ranges[..n] + [ranges[n]];
    CoversAppend(ranges[..n], ranges[n]);
  }

  lemma CoversAppend(ranges: seq<Range>, r: Range)
    ensures forall p :: Covers(ranges + [r], p) <==> Covers(ranges, p) || InCut(r, p)
  {
    hide InCut;
    var longer := ranges + [r];
    forall p
      ensures Covers(longer, p) <==> Covers(ranges, p) || InCut(r, p)
    {
      if Covers(ranges, p) {
        var i :| 0 <= i < |ranges| && InCut(ranges[i], p);
        assert InCut(longer[i], p);
      }
      if InCut(r, p) { assert InCut(longer[|ranges|], p); }
      if Covers(longer, p) {
        var i :| 0 <= i < |longer| && InCut(longer[i], p);
        if i < |ranges| { assert InCut(ranges[i], p); }
      }
    }
  }

  lemma AddApart(canonical: seq<Range>, r: Range)
    requires Canonical(canonical) && r.WellFormed() && Lo(r) < Hi(r)
    requires canonical != [] ==> Hi(canonical[|canonical| - 1]) < Lo(r)
    ensures Canonical(canonical + [r])
    ensures forall p :: Covers(canonical + [r], p) <==> Covers(canonical, p) || InCut(r, p)
  {
    hide Lo, Hi, InCut, Range.WellFormed, Covers;
    CoversAppend(canonical, r);
    var longer := canonical + [r];
    forall i, j | 0 <= i < j < |longer|
      ensures Hi(longer[i]) < Lo(longer[j])
    {
      if j == |canonical| && i < |canonical| - 1 {
        assert Hi(canonical[i]) < Lo(canonical[|canonical| - 1]) < Hi(canonical[|canonical| - 1]);
      }
    }
  }

  lemma Absorb(canonical: seq<Range>, r: Range)
    requires Canonical(canonical) && canonical != [] && r.WellFormed() && Lo(r) < Hi(r)
    requires var last := canonical[|canonical| - 1]; Lo(last) <= Lo(r) <= Hi(last)
    ensures var merged := canonical[|canonical| - 1 := Union(canonical[|canonical| - 1], r)];
            && Canonical(merged) && Lo(merged[|canonical| - 1]) == Lo(canonical[|canonical| - 1])
            && forall p :: Covers(merged, p) <==> Covers(canonical, p) || InCut(r, p)
  {
    hide Lo, Hi, Union, Range.WellFormed, Covers;
    var n := |canonical| - 1;
    var last := canonical[n];
    UnionIsCut(last, r);
    var front, merged := canonical[..n], canonical[n := Union(last, r)];
    assert canonical == front + [last] && merged == front + [Union(last, r)];
    CoversAppend(front, last);
    CoversAppend(front, Union(last, r));
    forall p ensures InCut(Union(last, r), p) <==> InCut(last, p) || InCut(r, p) {}
    forall i, j | 0 <= i < j < |merged|
      ensures Hi(merged[i]) < Lo(merged[j])
    {
      assert Hi(canonical[i]) < Lo(canonical[j]);
    }
  }

  // ---- Canonical lists are determined by what they cover ----

  lemma FirstCovered(a: seq<Range>, point: int)
    requires Canonical(a) && a != []
    ensures Covers(a, Lo(a[0])) && !Covers(a, Hi(a[0]))
    ensures point < Lo(a[0]) ==> !Covers(a, point)
    ensures Covers(a, point) && point >= Hi(a[0]) ==> Covers(a[1..], point)
    ensures Covers(a[1..], point) ==> Covers(a, point) && point > Hi(a[0])
  {
    hide Lo, Hi, Range.WellFormed;
    assert InCut(a[0], Lo(a[0]));
    forall i | 0 <= i < |a|
      ensures !InCut(a[i], Hi(a[0])) && (point < Lo(a[0]) ==> !InCut(a[i], point))
    {
      if i > 0 { assert Hi(a[0]) < Lo(a[i]); }
    }
    if Covers(a, point) && point >= Hi(a[0]) {
      var i :| 0 <= i < |a| && InCut(a[i], point);
      assert i > 0 && a[1..][i - 1] == a[i];
    }
    if Covers(a[1..], point) {
      var i :| 0 <= i < |a[1..]| && InCut(a[1..][i], point);
      assert a[1..][i] == a[i + 1] && Hi(a[0]) < Lo(a[i + 1]);
    }
  }

  lemma TailCanonical(a: seq<Range>)
    requires Canonical(a) && a != []
    ensures Canonical(a[1..])
  {
    hide Lo, Hi, Range.WellFormed;
    forall i, j | 0 <= i < j < |a[1..]|
      ensures Hi(a[1..][i]) < Lo(a[1..][j])
    {
      assert Hi(a[i + 1]) < Lo(a[j + 1]);
    }
  }

  lemma {:induction false} CanonicalUnique(a: seq<Range>, b: seq<Range>)
    requires Canonical(a) && Canonical(b)
    requires forall p :: Covers(a, p) <==> Covers(b, p)
    ensures a == b
    decreases |a|
  {
    hide Lo, Hi, Range.WellFormed, Covers;
    if a == [] {
      if b != [] { FirstCovered(b, 0); NotCovered(Lo(b[0])); }
    } else if b == [] {
      FirstCovered(a, 0);
      NotCovered(Lo(a[0]));
    } else {
      FirstCovered(a, Lo(b[0]));
      FirstCovered(b, Lo(a[0]));
      assert Covers(a, Lo(a[0])) && Covers(b, Lo(b[0]));
      assert Lo(a[0]) == Lo(b[0]);
      SameFirst(a, b);
      TailCanonical(a);
      TailCanonical(b);
      forall p
        ensures Covers(a[1..], p) <==> Covers(b[1..], p)
      {
        FirstCovered(a, p);
        FirstCovered(b, p);
      }
      CanonicalUnique(a[1..], b[1..]);
      assert a == [a[0]] + a[1..] && b == [b[0]] + b[1..];
    }
  }

  lemma NotCovered(point: int)
    ensures !Covers([], point)
  {
  }

  /** Two canonical lists with the same first lower point and the same cover start alike. */
  lemma SameFirst(a: seq<Range>, b: seq<Range>)
    requires Canonical(a) && Canonical(b) && a != [] && b != [] && Lo(a[0]) == Lo(b[0])
    requires forall p :: Covers(a, p) <==> Covers(b, p)
    ensures a[0] == b[0]
  {
    hide Lo, Hi, Range.WellFormed, Covers;
    FirstCovered(a, 0);
    FirstCovered(b, 0);
    CoveredByFirst(a, Hi(b[0]));
    CoveredByFirst(b, Hi(a[0]));
    assert !Covers(a, Hi(a[0])) && !Covers(b, Hi(b[0]));
    CutsIdentify(a[0], b[0]);
  }

  lemma CoveredByFirst(ranges: seq<Range>, point: int)
    requires ranges != []
    ensures InCut(ranges[0], point) ==> Covers(ranges, point)
  {
  }

  lemma PermutationCovers(a: seq<Range>, b: seq<Range>)
    requires multiset(a) == multiset(b)
    ensures forall p :: Covers(a, p) <==> Covers(b, p)
  {
    forall p
      ensures Covers(a, p) <==> Covers(b, p)
    {
      if Covers(a, p) {
        var i :| 0 <= i < |a| && InCut(a[i], p);
        assert a[i] in multiset(b);
      }
      if Covers(b, p) {
        var i :| 0 <= i < |b| && InCut(b[i], p);
        assert b[i] in multiset(a);
      }
    }
  }

  /** Reordered alternatives have the same normal form. */
  lemma NormalFormIgnoresOrder(a: seq<Range>, b: seq<Range>, canonicalA: seq<Range>, canonicalB: seq<Range>)
    requires multiset(a) == multiset(b) && IsNormalForm(a, canonicalA) && IsNormalForm(b, canonicalB)
    ensures canonicalA == canonicalB
  {
    hide Canonical, Covers;
    PermutationCovers(a, b);
    CanonicalUnique(canonicalA, canonicalB);
  }

  /** A version matches the normal form exactly when it matches some alternative. */
  lemma NormalFormMatches(alternatives: seq<Range>, canonical: seq<Range>, v: Version)
    requires IsNormalForm(alternatives, canonical)
    ensures (exists i :: 0 <= i < |canonical| && canonical[i].IsMatch(v)) <==>
            (exists i :: 0 <= i < |alternatives| && alternatives[i].IsMatch(v))
  {
    hide Canonical, InCut, Key, Range.IsMatch;
    SomeMatchIsCover(canonical, v);
    SomeMatchIsCover(alternatives, v);
    assert Covers(canonical, 2 * Key(v)) <==> Covers(alternatives, 2 * Key(v));
  }

  lemma SomeMatchIsCover(ranges: seq<Range>, v: Version)
    ensures (exists i :: 0 <= i < |ranges| && ranges[i].IsMatch(v)) <==> Covers(ranges, 2 * Key(v))
  {
    hide InCut, Key, Range.IsMatch;
    forall i | 0 <= i < |ranges|
      ensures ranges[i].IsMatch(v) <==> InCut(ranges[i], 2 * Key(v))
    {
      MatchIsCut(ranges[i], v);
    }
  }
}
