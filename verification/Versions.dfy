/** Four-component versions, the ranges the device checks, and the cut-point reading of ranges:
    version v sits at point 2*Key(v), and a bound sits just before or just after its version. */
module Versions {
  import opened Wrappers
  import opened Bytes

  datatype Version = Version(major: UInt16, minor: UInt16, patch: UInt16, revision: UInt16)
  {
    function Get(index: nat): UInt16
      requires index < 4
    {
      if index == 0 then major else if index == 1 then minor else if index == 2 then patch else revision
    }

    function Set(index: nat, value: UInt16): Version
      requires index < 4
    {
      if index == 0 then this.(major := value) else if index == 1 then this.(minor := value)
      else if index == 2 then this.(patch := value) else this.(revision := value)
    }

    function ClearAfter(index: nat): Version {
      var a := if index < 3 then this.(revision := 0) else this;
      var b := if index < 2 then a.(patch := 0) else a;
      if index < 1 then b.(minor := 0) else b
    }

    function CompareTo(other: Version): int {
      if major != other.major then major - other.major
      else if minor != other.minor then minor - other.minor
      else if patch != other.patch then patch - other.patch
      else revision - other.revision
    }
  }

  const ZERO := Version(0, 0, 0, 0)

  datatype Range = Range(min: Option<Version>, minInclusive: bool, max: Option<Version>, maxInclusive: bool)
  {
    predicate IsMatch(version: Version) {
      && (min.Some? ==> var c := version.CompareTo(min.value); !(c < 0 || (c == 0 && !minInclusive)))
      && (max.Some? ==> var c := version.CompareTo(max.value); !(c > 0 || (c == 0 && !maxInclusive)))
    }

    /** An open side is never marked inclusive. */
    predicate WellFormed() { (min.None? ==> !minInclusive) && (max.None? ==> !maxInclusive) }
  }

  const UNBOUNDED := Range(None, false, None, false)

  function Intersect(left: Range, right: Range): Range {
    var (min, minInclusive) :=
      if left.min.None? || (right.min.Some? &&
           (right.min.value.CompareTo(left.min.value) > 0 ||
            (right.min.value.CompareTo(left.min.value) == 0 && !right.minInclusive)))
      then (right.min, right.minInclusive)
      else if right.min.Some? && right.min.value.CompareTo(left.min.value) == 0
      then (left.min, left.minInclusive && right.minInclusive)
      else (left.min, left.minInclusive);
    var (max, maxInclusive) :=
      if left.max.None? || (right.max.Some? &&
           (right.max.value.CompareTo(left.max.value) < 0 ||
            (right.max.value.CompareTo(left.max.value) == 0 && !right.maxInclusive)))
      then (right.max, right.maxInclusive)
      else if right.max.Some? && right.max.value.CompareTo(left.max.value) == 0
      then (left.max, left.maxInclusive && right.maxInclusive)
      else (left.max, left.maxInclusive);
    Range(min, minInclusive, max, maxInclusive)
  }

  predicate Empty(range: Range) {
    range.min.Some? && range.max.Some? &&
    var c := range.min.value.CompareTo(range.max.value);
    c > 0 || (c == 0 && !(range.minInclusive && range.maxInclusive))
  }

  function BoolOrder(b: bool): int { if b then 1 else 0 }

  function CompareMinimum(left: Range, right: Range): int {
    if left.min.None? then (if right.min.None? then 0 else -1)
    else if right.min.None? then 1
    else
      var c := left.min.value.CompareTo(right.min.value);
      if c != 0 then c else BoolOrder(right.minInclusive) - BoolOrder(left.minInclusive)
  }

  predicate Touches(left: Range, right: Range) {
    left.max.None? || right.min.None? ||
    var c := left.max.value.CompareTo(right.min.value);
    c > 0 || (c == 0 && (left.maxInclusive || right.minInclusive))
  }

  function Union(left: Range, right: Range): Range {
    if left.max.None? || right.max.None? then Range(left.min, left.minInclusive, None, false)
    else
      var c := left.max.value.CompareTo(right.max.value);
      if c > 0 then left
      else if c < 0 then Range(left.min, left.minInclusive, right.max, right.maxInclusive)
      else Range(left.min, left.minInclusive, left.max, left.maxInclusive || right.maxInclusive)
  }

  // ---- Cut points ----

  function Key(v: Version): (k: nat)
    ensures k < TOP_KEY
  {
    ((v.major * 65536 + v.minor) * 65536 + v.patch) * 65536 + v.revision
  }

  const TOP_KEY := 0x1_0000_0000_0000_0000

  /** First point at or behind the lower bound; -1 lies before every version. */
  function Lo(r: Range): int {
    if r.min.None? then -1 else 2 * Key(r.min.value) + (if r.minInclusive then 0 else 1)
  }

  /** First point behind the upper bound; 2 * TOP_KEY lies behind every bound. */
  function Hi(r: Range): int {
    if r.max.None? then 2 * TOP_KEY else 2 * Key(r.max.value) + (if r.maxInclusive then 1 else 0)
  }

  predicate InCut(r: Range, point: int) { Lo(r) <= point < Hi(r) }

  /** CompareTo is the order of the keys. */
  lemma KeyOrder(a: Version, b: Version)
    ensures a.CompareTo(b) < 0 <==> Key(a) < Key(b)
    ensures a.CompareTo(b) == 0 <==> Key(a) == Key(b)
    ensures Key(a) == Key(b) <==> a == b
  {
  }

  lemma MatchIsCut(r: Range, v: Version)
    ensures r.IsMatch(v) <==> InCut(r, 2 * Key(v))
  {
    hide Key, Version.CompareTo;
    if r.min.Some? { KeyOrder(v, r.min.value); }
    if r.max.Some? { KeyOrder(v, r.max.value); }
  }

  lemma IntersectIsCut(left: Range, right: Range)
    requires left.WellFormed() && right.WellFormed()
    ensures Intersect(left, right).WellFormed()
    ensures Lo(Intersect(left, right)) == if Lo(left) >= Lo(right) then Lo(left) else Lo(right)
    ensures Hi(Intersect(left, right)) == if Hi(left) <= Hi(right) then Hi(left) else Hi(right)
  {
    hide Key, Version.CompareTo;
    if left.min.Some? && right.min.Some? { KeyOrder(right.min.value, left.min.value); }
    if left.max.Some? && right.max.Some? { KeyOrder(right.max.value, left.max.value); }
  }

  lemma EmptyIsCut(r: Range)
    ensures Empty(r) <==> Lo(r) >= Hi(r)
  {
    hide Key, Version.CompareTo;
    if r.min.Some? && r.max.Some? { KeyOrder(r.min.value, r.max.value); }
  }

  lemma CompareMinimumIsCut(left: Range, right: Range)
    ensures CompareMinimum(left, right) < 0 <==> Lo(left) < Lo(right)
    ensures CompareMinimum(left, right) == 0 <==> Lo(left) == Lo(right)
  {
    hide Key, Version.CompareTo;
    if left.min.Some? && right.min.Some? { KeyOrder(left.min.value, right.min.value); }
  }

  lemma TouchesIsCut(left: Range, right: Range)
    ensures Touches(left, right) <==> Hi(left) >= Lo(right)
  {
    hide Key, Version.CompareTo;
    if left.max.Some? && right.min.Some? { KeyOrder(left.max.value, right.min.value); }
  }

  lemma UnionIsCut(left: Range, right: Range)
    requires left.WellFormed() && right.WellFormed()
    ensures Union(left, right).WellFormed()
    ensures Lo(Union(left, right)) == Lo(left)
    ensures Hi(Union(left, right)) == if Hi(left) >= Hi(right) then Hi(left) else Hi(right)
  {
    hide Key, Version.CompareTo;
    if left.max.Some? && right.max.Some? { KeyOrder(left.max.value, right.max.value); }
  }

  /** Cut points determine a range. */
  lemma CutsIdentify(a: Range, b: Range)
    requires a.WellFormed() && b.WellFormed() && Lo(a) == Lo(b) && Hi(a) == Hi(b)
    ensures a == b
  {
    hide Key, Version.CompareTo;
    if a.min.Some? && b.min.Some? { KeyOrder(a.min.value, b.min.value); }
    if a.max.Some? && b.max.Some? { KeyOrder(a.max.value, b.max.value); }
  }

  // ---- Caret, tilde and wildcard bounds ----

  datatype Operation = Exact | Less | LessOrEqual | Greater | GreaterOrEqual | Caret | Tilde

  function FirstNonZero(lower: Version, components: nat, index: nat): (r: Option<nat>)
    requires index <= components <= 4
    ensures r.Some? ==> index <= r.value < components && lower.Get(r.value) != 0
    ensures forall j :: index <= j < components && (r.None? || j < r.value) ==> lower.Get(j) == 0
    decreases components - index
  {
    if index == components then None
    else if lower.Get(index) != 0 then Some(index)
    else FirstNonZero(lower, components, index + 1)
  }

  /** The component a caret, tilde or wildcard term lets grow. */
  function Increment(operation: Operation, lower: Version, components: nat, wildcard: bool): (r: nat)
    requires 2 <= components <= 4 && (wildcard || operation in {Caret, Tilde})
    ensures r < components
  {
    if wildcard then components - 2
    else if operation == Tilde then (if components == 2 then 0 else components - 2)
    else match FirstNonZero(lower, components, 0) case Some(index) => index case None => components - 1
  }

  function UpperBound(operation: Operation, lower: Version, components: nat, wildcard: bool): Option<Version>
    requires 2 <= components <= 4
  {
    if !wildcard && operation !in {Caret, Tilde} then None
    else
      var increment := Increment(operation, lower, components, wildcard);
      if lower.Get(increment) == 65535 then None
      else Some(lower.Set(increment, lower.Get(increment) + 1).ClearAfter(increment))
  }

  method TryUpperBound(operation: Operation, lower: Version, components: nat, wildcard: bool)
    returns (upper: Option<Version>)
    requires 2 <= components <= 4
    ensures upper == UpperBound(operation, lower, components, wildcard)
  {
    var increment: int := -1;
    if wildcard {
      increment := components - 2;
    } else if operation == Tilde {
      increment := if components == 2 then 0 else components - 2;
    } else if operation == Caret {
      var index := 0;
      while index < components
        invariant 0 <= index <= components
        invariant increment == -1
        invariant FirstNonZero(lower, components, 0) == FirstNonZero(lower, components, index)
      {
        if lower.Get(index) != 0 {
          increment := index;
          break;
        }
        index := index + 1;
      }
      if increment < 0 { increment := components - 1; }
    } else {
      return None;
    }
    if lower.Get(increment) == 65535 { return None; }
    return Some(lower.Set(increment, lower.Get(increment) + 1).ClearAfter(increment));
  }

  /** [lower, upper) is exactly the versions from `lower` on that agree with it up to and
      including the component that may not change. */
  lemma BoundedInterval(operation: Operation, lower: Version, components: nat, wildcard: bool, v: Version)
    requires 2 <= components <= 4 && UpperBound(operation, lower, components, wildcard).Some?
    ensures var increment := Increment(operation, lower, components, wildcard);
            var upper := UpperBound(operation, lower, components, wildcard).value;
            v.CompareTo(lower) >= 0 && v.CompareTo(upper) < 0 <==>
            v.CompareTo(lower) >= 0 && forall j :: 0 <= j <= increment ==> v.Get(j) == lower.Get(j)
  {
    var increment := Increment(operation, lower, components, wildcard);
    var upper := UpperBound(operation, lower, components, wildcard).value;
    if v.CompareTo(lower) >= 0 && forall j :: 0 <= j <= increment ==> v.Get(j) == lower.Get(j) {
      assert v.Get(0) == lower.Get(0);
      if increment >= 1 { assert v.Get(1) == lower.Get(1); }
      if increment >= 2 { assert v.Get(2) == lower.Get(2); }
      if increment >= 3 { assert v.Get(3) == lower.Get(3); }
    }
  }
}
