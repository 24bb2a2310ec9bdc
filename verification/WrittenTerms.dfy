/** What one term of a constraint means, said without the grammar's reader: a term is written from
    a sign, numbers and a wildcard, and says by itself which versions it admits. The reader is
    proved to take exactly the written terms, and to admit the same. */
module WrittenTerms {
  import opened Wrappers
  import opened Bytes
  import opened Versions
  import opened ConstraintGrammar

  // ---- Numbers and dotted parts ----

  function Digits(n: nat): (s: string)
    ensures |s| >= 1 && (n < 10 <==> |s| == 1)
  {
    if n < 10 then [DigitChar(n)] else Digits(n / 10) + [DigitChar(n % 10)]
  }

  function DigitChar(d: nat): char
    requires d < 10
  {
    "0123456789"[d]
  }

  lemma DigitCharIs(d: nat)
    requires d < 10
    ensures IsDigit(DigitChar(d)) && DigitValue(DigitChar(d)) == d
  {
  }

  /** The parts and the wildcard, with a dot between any two. */
  function Dotted(parts: seq<UInt16>, wildcard: Option<char>): string {
    if parts == [] then (if wildcard.Some? then [wildcard.value] else "")
    else Digits(parts[0]) +
         (if |parts| == 1 && wildcard.None? then "" else "." + Dotted(parts[1..], wildcard))
  }

  /** The four numbers a list of parts stands for: parts that are not written are zero. */
  function Filled(parts: seq<UInt16>): (n: seq<UInt16>)
    requires |parts| <= 4
    ensures |n| == 4
  {
    parts + [0, 0, 0, 0][|parts|..]
  }

  function Numbers(v: Version): (n: seq<UInt16>)
    ensures |n| == 4
  {
    [v.major, v.minor, v.patch, v.revision]
  }

  /** The order of versions: the first number that differs decides. */
  predicate Precedes(a: seq<UInt16>, b: seq<UInt16>)
    requires |a| == |b| == 4
  {
    exists k :: 0 <= k < 4 && a[..k] == b[..k] && a[k] < b[k]
  }

  function Count(parts: seq<UInt16>, wildcard: Option<char>): nat {
    |parts| + (if wildcard.Some? then 1 else 0)
  }

  predicate Wildcard(w: Option<char>) { w.Some? ==> w.value in {'*', 'x', 'X'} }

  // ---- Terms ----

  datatype Sign = Plain | Equal | Below | AtMost | Above | AtLeast | Compatible | Near

  function Symbol(sign: Sign): string {
    match sign
    case Plain => ""
    case Equal => "="
    case Below => "<"
    case AtMost => "<="
    case Above => ">"
    case AtLeast => ">="
    case Compatible => "^"
    case Near => "~"
  }

  datatype Written = Written(sign: Sign, parts: seq<UInt16>, wildcard: Option<char>)
  {
    /** Two to four parts, the wildcard counted, which only an exact term may end in. */
    predicate WellWritten() {
      && 2 <= Count(parts, wildcard) <= 4
      && Wildcard(wildcard) && (wildcard.Some? ==> sign in {Plain, Equal})
    }

    function Text(): string { Symbol(sign) + Dotted(parts, wildcard) }

    /** How many leading parts an admitted version has to share: with a caret up to the first
        that is not zero, with a tilde all but the last but at least one, with a wildcard all. */
    function Shared(): (n: nat)
      requires WellWritten()
      ensures n <= |parts|
    {
      if wildcard.Some? then |parts|
      else if sign == Near then (if |parts| == 2 then 1 else |parts| - 1)
      else if sign == Compatible then UpToNonzero(parts)
      else 0
    }

    predicate Admits(v: Version)
      requires WellWritten()
    {
      var n, bound := Numbers(v), Filled(parts);
      if wildcard.Some? then n[..|parts|] == parts
      else match sign
        case Plain => n == bound
        case Equal => n == bound
        case Below => Precedes(n, bound)
        case AtMost => Precedes(n, bound) || n == bound
        case Above => Precedes(bound, n)
        case AtLeast => Precedes(bound, n) || n == bound
        case Compatible => (Precedes(bound, n) || n == bound) && n[..Shared()] == parts[..Shared()]
        case Near => (Precedes(bound, n) || n == bound) && n[..Shared()] == parts[..Shared()]
    }

    /** The last shared part cannot be incremented in 16 bits. */
    predicate Overflows()
      requires WellWritten()
    {
      Shared() > 0 && parts[Shared() - 1] == 65535
    }
  }

  /** The number of parts up to and including the first nonzero one, or all of them. */
  function UpToNonzero(parts: seq<UInt16>): (n: nat)
    ensures n <= |parts| && (|parts| > 0 ==> n > 0)
    ensures forall j :: 0 <= j < n - 1 ==> parts[j] == 0
    ensures n < |parts| ==> n > 0 && parts[n - 1] != 0
  {
    if parts == [] then 0 else if parts[0] != 0 then 1 else 1 + UpToNonzero(parts[1..])
  }

  // ---- Texts that stand in a text ----

  predicate Stands(text: string, lo: nat, hi: nat, s: string) {
    lo <= hi <= |text| && text[lo..hi] == s
  }

  lemma StandsCut(text: string, lo: nat, hi: nat, a: string, b: string)
    requires Stands(text, lo, hi, a + b)
    ensures lo + |a| <= hi <= |text| && Stands(text, lo, lo + |a|, a) && Stands(text, lo + |a|, hi, b)
  {
    var part := text[lo..hi];
    assert text[lo..lo + |a|] == part[..|a|] && text[lo + |a|..hi] == part[|a|..];
  }

  lemma StandsJoin(text: string, lo: nat, mid: nat, hi: nat, a: string, b: string)
    requires Stands(text, lo, mid, a) && Stands(text, mid, hi, b)
    ensures Stands(text, lo, hi, a + b)
  {
    assert text[lo..hi] == text[lo..mid] + text[mid..hi];
  }

  lemma StandsFirst(text: string, lo: nat, hi: nat, s: string)
    requires Stands(text, lo, hi, s)
    ensures hi == lo + |s| <= |text|
    ensures s != "" ==> text[lo] == s[0]
  {
    if s != "" { assert text[lo] == text[lo..hi][0]; }
  }

  lemma StandsAlone(text: string, at: nat)
    requires at < |text|
    ensures Stands(text, at, at + 1, [text[at]])
  {
  }

  lemma StandsWhole(text: string)
    ensures Stands(text, 0, |text|, text)
    ensures forall s :: Stands(text, 0, |text|, s) ==> s == text
  {
    assert text[0..|text|] == text;
  }

  lemma StandsNowhere(text: string, at: nat)
    requires at <= |text|
    ensures Stands(text, at, at, "")
  {
  }

  // ---- Written numbers are read, and read numbers are written ----

  lemma {:induction false} DigitsStart(n: nat)
    ensures Digits(n)[0] == '0' <==> n == 0
    ensures IsDigit(Digits(n)[0])
  {
    DigitCharIs(n % 10);
    if n >= 10 { DigitsStart(n / 10); }
  }

  lemma {:induction false} DigitsRead(text: string, lo: nat, hi: nat, n: nat)
    requires Stands(text, lo, hi, Digits(n))
    ensures lo < hi <= |text| && forall k :: lo <= k < hi ==> IsDigit(text[k])
    ensures Decimal(text, lo, hi) == n
    decreases n
  {
    hide Stands;
    DigitCharIs(n % 10);
    if n < 10 {
      StandsFirst(text, lo, hi, Digits(n));
      assert Decimal(text, lo, lo) == 0;
    } else {
      StandsCut(text, lo, hi, Digits(n / 10), [DigitChar(n % 10)]);
      DigitsRead(text, lo, lo + |Digits(n / 10)|, n / 10);
      StandsFirst(text, lo + |Digits(n / 10)|, hi, [DigitChar(n % 10)]);
    }
  }

  lemma {:induction false} DigitsWritten(text: string, lo: nat, hi: nat)
    requires lo < hi <= |text| && forall k :: lo <= k < hi ==> IsDigit(text[k])
    requires hi - lo > 1 ==> text[lo] != '0'
    ensures Stands(text, lo, hi, Digits(Decimal(text, lo, hi)))
    decreases hi
  {
    hide Stands, Digits;
    var front, d := Decimal(text, lo, hi - 1), DigitValue(text[hi - 1]);
    LastDigit(front, d, text[hi - 1]);
    StandsAlone(text, hi - 1);
    if hi - lo > 1 {
      DigitsWritten(text, lo, hi - 1);
      StandsFirst(text, lo, hi - 1, Digits(front));
      DigitsStart(front);
      StandsJoin(text, lo, hi - 1, hi, Digits(front), [text[hi - 1]]);
    } else {
      assert front == 0 && "" + [text[lo]] == [text[lo]];
    }
  }

  lemma LastDigit(front: nat, d: nat, c: char)
    requires d < 10 && IsDigit(c) && DigitValue(c) == d
    ensures Digits(front * 10 + d) == (if front == 0 then "" else Digits(front)) + [c]
  {
    DigitCharIs(d);
    assert (front * 10 + d) / 10 == front && (front * 10 + d) % 10 == d;
  }

  lemma {:induction false} DigitsEndIs(text: string, lo: nat, hi: nat)
    requires lo <= hi <= |text| && forall k :: lo <= k < hi ==> IsDigit(text[k])
    requires hi == |text| || !IsDigit(text[hi])
    ensures DigitsEnd(text, lo) == hi
    decreases hi - lo
  {
    if lo < hi { DigitsEndIs(text, lo + 1, hi); }
  }

  lemma {:induction false} DigitsEndStops(text: string, lo: nat)
    requires lo <= |text|
    ensures DigitsEnd(text, lo) < |text| ==> !IsDigit(text[DigitsEnd(text, lo)])
    decreases |text| - lo
  {
    if lo < |text| && IsDigit(text[lo]) { DigitsEndStops(text, lo + 1); }
  }

  /** A part is read exactly where its digits are written and no digit follows. */
  lemma ComponentIff(text: string, lo: nat, hi: nat, n: nat)
    requires lo <= hi <= |text|
    ensures n <= 65535 && Stands(text, lo, hi, Digits(n)) && (hi == |text| || !IsDigit(text[hi])) <==>
            ComponentAt(text, lo).Some? && ComponentAt(text, lo).value.next == hi &&
            ComponentAt(text, lo).value.value == n
  {
    hide Stands;
    if Stands(text, lo, hi, Digits(n)) && (hi == |text| || !IsDigit(text[hi])) {
      DigitsRead(text, lo, hi, n);
      DigitsEndIs(text, lo, hi);
      DigitsStart(n);
      StandsFirst(text, lo, hi, Digits(n));
    }
    if ComponentAt(text, lo).Some? && ComponentAt(text, lo).value.next == hi {
      DigitsEndStops(text, lo);
      DigitsWritten(text, lo, hi);
    }
  }

  function VersionOf(parts: seq<UInt16>): (v: Version)
    requires |parts| <= 4
    ensures Numbers(v) == Filled(parts)
  {
    var n := Filled(parts);
    Version(n[0], n[1], n[2], n[3])
  }

  lemma SetNext(parts: seq<UInt16>, k: nat)
    requires k < |parts| <= 4
    ensures VersionOf(parts[..k]).Set(k, parts[k]) == VersionOf(parts[..k + 1])
  {
  }

  // ---- Written parts are read, and read parts are written ----

  /** Nothing that could continue a part or a term follows. */
  predicate Stops(text: string, at: nat) {
    at >= |text| || (text[at] != '.' && !IsDigit(text[at]))
  }

  lemma {:induction false} PartsRead(text: string, lo: nat, hi: nat, parts: seq<UInt16>, k: nat, w: Option<char>)
    requires k <= |parts| && Count(parts, w) <= 4 && k < Count(parts, w) && Wildcard(w)
    requires Stands(text, lo, hi, Dotted(parts[k..], w)) && Stops(text, hi)
    ensures PartsFrom(text, lo, VersionOf(parts[..k]), k) ==
            Some(Parts(VersionOf(parts), Count(parts, w), w.Some?, hi))
    decreases |parts| - k
  {
    hide VersionOf, Digits, ComponentAt, Dotted, Stands;
    if k == |parts| {
      WildAlone(text, lo, hi, w);
      assert parts[..k] == parts && parts[k..] == [];
    } else {
      var mid := lo + |Digits(parts[k])|;
      var last := k + 1 == Count(parts, w);
      assert parts[k..][0] == parts[k] && parts[k..][1..] == parts[k + 1..];
      OnePartRead(text, lo, hi, parts[k..], w);
      SetNext(parts, k);
      if last {
        assert parts[..k + 1] == parts;
      } else {
        PartsRead(text, mid + 1, hi, parts, k + 1, w);
      }
    }
  }

  lemma WildAlone(text: string, lo: nat, hi: nat, w: Option<char>)
    requires w.Some? && Wildcard(w) && Stands(text, lo, hi, Dotted([], w))
    ensures hi == lo + 1 <= |text| && IsWild(text[lo]) && ComponentAt(text, lo).None?
  {
    StandsFirst(text, lo, hi, [w.value]);
    NoComponent(text, lo);
  }

  lemma OnePartRead(text: string, lo: nat, hi: nat, parts: seq<UInt16>, w: Option<char>)
    requires parts != [] && Stands(text, lo, hi, Dotted(parts, w)) && Stops(text, hi)
    ensures var mid := lo + |Digits(parts[0])|;
            && lo < mid <= hi <= |text| && !IsWild(text[lo])
            && ComponentAt(text, lo) == Some(Component(parts[0], mid))
            && if Count(parts, w) == 1 then mid == hi
               else mid < hi && text[mid] == '.' && Stands(text, mid + 1, hi, Dotted(parts[1..], w))
  {
    hide Digits, ComponentAt, Stands, Dotted;
    var mid := lo + |Digits(parts[0])|;
    var rest := if Count(parts, w) == 1 then "" else "." + Dotted(parts[1..], w);
    DottedIs(parts, w);
    StandsCut(text, lo, hi, Digits(parts[0]), rest);
    if rest == "" {
      StandsFirst(text, mid, hi, "");
    } else {
      StandsCut(text, mid, hi, ".", Dotted(parts[1..], w));
      StandsFirst(text, mid, mid + 1, ".");
    }
    StandsFirst(text, lo, mid, Digits(parts[0]));
    ComponentIff(text, lo, mid, parts[0]);
    DigitsStart(parts[0]);
  }

  lemma DottedIs(parts: seq<UInt16>, w: Option<char>)
    requires parts != []
    ensures Dotted(parts, w) ==
            Digits(parts[0]) + (if Count(parts, w) == 1 then "" else "." + Dotted(parts[1..], w))
  {
  }

  lemma NoComponent(text: string, lo: nat)
    requires lo < |text| && IsWild(text[lo])
    ensures ComponentAt(text, lo).None?
  {
  }

  lemma {:induction false} PartsWritten(text: string, lo: nat, before: seq<UInt16>)
    returns (parts: seq<UInt16>, w: Option<char>)
    requires lo <= |text| && |before| < 4 && PartsFrom(text, lo, VersionOf(before), |before|).Some?
    ensures var read := PartsFrom(text, lo, VersionOf(before), |before|).value;
            && |before| < Count(before + parts, w) <= 4 && Wildcard(w)
            && read.version == VersionOf(before + parts) && read.components == Count(before + parts, w)
            && read.wildcard == w.Some? && Stands(text, lo, read.next, Dotted(parts, w))
            && (w.None? ==> Stops(text, read.next))
    decreases 4 - |before|
  {
    hide VersionOf, Digits, ComponentAt, PartsFrom, Dotted, Stands, Version.Set, IsDigit, Filled;
    var read := PartsFrom(text, lo, VersionOf(before), |before|).value;
    PartsStep(text, lo, before);
    if lo < |text| && IsWild(text[lo]) {
      parts, w := [], Some(text[lo]);
      StandsAlone(text, lo);
      WildDotted(text[lo]);
      Append(before, [], []);
    } else {
      var part := ComponentAt(text, lo).value;
      var longer := OnePart(text, lo, before);
      if part.next >= |text| || text[part.next] != '.' {
        parts, w := [part.value], None;
      } else {
        var more;
        more, w := PartsWritten(text, part.next + 1, longer);
        parts := [part.value] + more;
        Append(before, [part.value], more);
        PrependPart(text, lo, part.next, read.next, part.value, more, w);
      }
    }
  }

  lemma Append(a: seq<UInt16>, b: seq<UInt16>, c: seq<UInt16>)
    ensures a + [] == a && (a + b) + c == a + (b + c)
  {
  }

  /** One turn of the component loop on a text it reads. */
  lemma PartsStep(text: string, lo: nat, before: seq<UInt16>)
    requires lo <= |text| && |before| < 4 && PartsFrom(text, lo, VersionOf(before), |before|).Some?
    ensures var read := PartsFrom(text, lo, VersionOf(before), |before|);
            if lo < |text| && IsWild(text[lo]) then
              read == Some(Parts(VersionOf(before), |before| + 1, true, lo + 1))
            else
              ComponentAt(text, lo).Some? &&
              var part := ComponentAt(text, lo).value;
              var version := VersionOf(before).Set(|before|, part.value);
              if part.next >= |text| || text[part.next] != '.' then
                read == Some(Parts(version, |before| + 1, false, part.next))
              else
                |before| + 1 < 4 && read == PartsFrom(text, part.next + 1, version, |before| + 1)
  {
    hide VersionOf, ComponentAt;
  }

  lemma WildDotted(c: char)
    ensures Dotted([], Some(c)) == [c]
  {
  }

  lemma OnePart(text: string, lo: nat, before: seq<UInt16>) returns (longer: seq<UInt16>)
    requires lo <= |text| && |before| < 4 && ComponentAt(text, lo).Some?
    ensures var part := ComponentAt(text, lo).value;
            && lo < part.next <= |text| && Stands(text, lo, part.next, Dotted([part.value], None))
            && (part.next == |text| || !IsDigit(text[part.next]))
            && longer == before + [part.value]
            && VersionOf(before).Set(|before|, part.value) == VersionOf(longer)
  {
    hide VersionOf, Digits, ComponentAt, Stands;
    var part := ComponentAt(text, lo).value;
    NextInText(text, lo);
    ComponentIff(text, lo, part.next, part.value);
    longer := before + [part.value];
    SetNext(longer, |before|);
    assert longer[..|before|] == before && longer[..|before| + 1] == longer;
    assert Digits(part.value) + "" == Digits(part.value);
  }

  lemma PrependPart(text: string, lo: nat, dot: nat, hi: nat, part: UInt16, more: seq<UInt16>, w: Option<char>)
    requires dot < |text| && text[dot] == '.' && Count(more, w) > 0
    requires Stands(text, lo, dot, Dotted([part], None)) && Stands(text, dot + 1, hi, Dotted(more, w))
    ensures Stands(text, lo, hi, Dotted([part] + more, w))
  {
    hide Digits, Dotted, Stands;
    var parts := [part] + more;
    assert parts[1..] == more;
    DottedIs([part], None);
    DottedIs(parts, w);
    assert Digits(part) + "" == Digits(part);
    StandsAlone(text, dot);
    StandsJoin(text, dot, dot + 1, hi, ".", Dotted(more, w));
    StandsJoin(text, lo, dot, hi, Digits(part), "." + Dotted(more, w));
  }

  lemma NextInText(text: string, lo: nat)
    requires lo <= |text| && ComponentAt(text, lo).Some?
    ensures lo < ComponentAt(text, lo).value.next <= |text|
  {
  }

  // ---- Terms ----

  function OperationOf(sign: Sign): Operation {
    match sign
    case Plain => Exact
    case Equal => Exact
    case Below => Less
    case AtMost => LessOrEqual
    case Above => Greater
    case AtLeast => GreaterOrEqual
    case Compatible => Caret
    case Near => Tilde
  }

  function TermOf(t: Written): Term
    requires t.WellWritten()
  {
    Term(OperationOf(t.sign), VersionOf(t.parts), Count(t.parts, t.wildcard), t.wildcard.Some?)
  }

  lemma PrecedesIsOrder(a: Version, b: Version)
    ensures Precedes(Numbers(a), Numbers(b)) <==> a.CompareTo(b) < 0
    ensures Numbers(a) == Numbers(b) <==> a.CompareTo(b) == 0
    ensures Precedes(Numbers(b), Numbers(a)) <==> a.CompareTo(b) > 0
  {
    PrecedesIs(Numbers(a), Numbers(b));
    PrecedesIs(Numbers(b), Numbers(a));
  }

  lemma PrecedesIs(m: seq<UInt16>, n: seq<UInt16>)
    requires |m| == |n| == 4
    ensures Precedes(m, n) <==>
            || m[0] < n[0]
            || (m[0] == n[0] && (m[1] < n[1] || (m[1] == n[1] && (m[2] < n[2] || (m[2] == n[2] && m[3] < n[3])))))
  {
    if Precedes(m, n) {
      var k :| 0 <= k < 4 && m[..k] == n[..k] && m[k] < n[k];
      forall j | 0 <= j < k ensures m[j] == n[j] { assert m[j] == m[..k][j]; }
    }
    if m[0] < n[0] { assert m[..0] == n[..0]; }
    else if m[0] == n[0] && m[1] < n[1] { assert m[..1] == n[..1]; }
    else if m[0] == n[0] && m[1] == n[1] && m[2] < n[2] { assert m[..2] == n[..2]; }
    else if m[0] == n[0] && m[1] == n[1] && m[2] == n[2] && m[3] < n[3] { assert m[..3] == n[..3]; }
  }

  lemma NumberAt(v: Version, j: nat)
    requires j < 4
    ensures Numbers(v)[j] == v.Get(j)
  {
  }

  /** The shared parts are those up to the component the bound increments. */
  lemma SharedIsIncrement(t: Written)
    requires t.WellWritten() && TermOf(t).IsBounded()
    ensures t.Shared() == Increment(OperationOf(t.sign), VersionOf(t.parts), Count(t.parts, t.wildcard),
                                    t.wildcard.Some?) + 1
  {
    var v, n := VersionOf(t.parts), Count(t.parts, t.wildcard);
    forall j | 0 <= j < |t.parts| ensures v.Get(j) == t.parts[j] { NumberAt(v, j); }
    if t.sign == Compatible {
      var first := FirstNonZero(v, n, 0);
      var up := UpToNonzero(t.parts);
      assert v.Get(up - 1) == t.parts[up - 1];
      assert first.Some? ==> t.parts[first.value] != 0;
    }
  }

  lemma ValidIff(t: Written)
    requires t.WellWritten()
    ensures TermOf(t).Valid() <==> !t.Overflows()
  {
    hide VersionOf, UpToNonzero, FirstNonZero;
    if TermOf(t).IsBounded() {
      SharedIsIncrement(t);
      assert t.Shared() > 0;
      NumberAt(VersionOf(t.parts), t.Shared() - 1);
    }
  }

  /** A written term admits by its own words what the reader's term admits. */
  lemma TermAdmits(t: Written, v: Version)
    requires t.WellWritten() && TermOf(t).Valid()
    ensures TermMatches(TermOf(t), v) <==> t.Admits(v)
  {
    hide VersionOf, Precedes, Version.CompareTo, UpperBound, Increment, Numbers, UpToNonzero;
    var bound := VersionOf(t.parts);
    PrecedesIsOrder(v, bound);
    if TermOf(t).IsBounded() {
      SharedIsIncrement(t);
      BoundedInterval(OperationOf(t.sign), bound, Count(t.parts, t.wildcard), t.wildcard.Some?, v);
      SharedAgree(t, v);
      if t.wildcard.Some? && Numbers(v)[..|t.parts|] == t.parts { FromBound(t.parts, v); }
    }
  }

  lemma SharedAgree(t: Written, v: Version)
    requires t.WellWritten()
    ensures Numbers(v)[..t.Shared()] == t.parts[..t.Shared()] <==>
            forall j :: 0 <= j <= t.Shared() - 1 ==> v.Get(j) == VersionOf(t.parts).Get(j)
  {
    hide UpToNonzero;
    var n: int, m := t.Shared(), Numbers(v);
    var bound := VersionOf(t.parts);
    forall j | 0 <= j < n
      ensures (v.Get(j) == bound.Get(j)) == (m[..n][j] == t.parts[..n][j])
      ensures 0 <= j <= n - 1
    {
      NumberAt(v, j);
      NumberAt(bound, j);
    }
    if forall j :: 0 <= j <= n - 1 ==> v.Get(j) == bound.Get(j) {
      forall j | 0 <= j < n ensures m[..n][j] == t.parts[..n][j] { assert v.Get(j) == bound.Get(j); }
    }
  }

  /** A version that starts with the parts is not below them. */
  lemma FromBound(parts: seq<UInt16>, v: Version)
    requires |parts| <= 4 && Numbers(v)[..|parts|] == parts
    ensures !Precedes(Numbers(v), Filled(parts))
  {
    var n, bound := Numbers(v), Filled(parts);
    forall j | 0 <= j < 4 ensures n[j] >= bound[j] { if j < |parts| { assert n[j] == n[..|parts|][j]; } }
    PrecedesIs(n, bound);
  }

  lemma DottedStarts(parts: seq<UInt16>, w: Option<char>)
    requires parts != []
    ensures Dotted(parts, w) != "" && IsDigit(Dotted(parts, w)[0])
  {
    DigitsStart(parts[0]);
  }

  lemma SignRead(text: string, lo: nat, sign: Sign)
    requires lo + |Symbol(sign)| < |text| && Stands(text, lo, lo + |Symbol(sign)|, Symbol(sign))
    requires IsDigit(text[lo + |Symbol(sign)|])
    ensures OperatorAt(text, lo) == Operator(OperationOf(sign), lo + |Symbol(sign)|)
  {
    var symbol := Symbol(sign);
    if symbol != "" { assert text[lo] == text[lo..lo + |symbol|][0]; }
    if |symbol| == 2 { assert text[lo + 1] == text[lo..lo + |symbol|][1]; }
  }

  lemma SignWritten(text: string, lo: nat) returns (sign: Sign)
    requires lo < |text|
    ensures OperatorAt(text, lo).operation == OperationOf(sign)
    ensures Stands(text, lo, OperatorAt(text, lo).next, Symbol(sign))
  {
    sign :=
      if text[lo] == '^' then Compatible else if text[lo] == '~' then Near else if text[lo] == '=' then Equal
      else if text[lo] == '<' then (if lo + 1 < |text| && text[lo + 1] == '=' then AtMost else Below)
      else if text[lo] == '>' then (if lo + 1 < |text| && text[lo + 1] == '=' then AtLeast else Above)
      else Plain;
  }

  /** A written term is read as such, unless its bound overflows. */
  lemma TermRead(text: string, lo: nat, hi: nat, t: Written)
    requires t.WellWritten() && Stands(text, lo, hi, t.Text()) && Stops(text, hi)
    ensures lo < hi <= |text|
    ensures TermAt(text, lo) == if t.Overflows() then None else Some(Read(TermOf(t), hi))
  {
    hide Symbol, Digits, Dotted, VersionOf, PartsFrom, OperatorAt, Term.Valid, Written.Overflows, Stands;
    var at := lo + |Symbol(t.sign)|;
    StandsCut(text, lo, hi, Symbol(t.sign), Dotted(t.parts, t.wildcard));
    DottedStarts(t.parts, t.wildcard);
    StandsFirst(text, at, hi, Dotted(t.parts, t.wildcard));
    SignRead(text, lo, t.sign);
    NothingRead(t.parts);
    PartsRead(text, at, hi, t.parts, 0, t.wildcard);
    ValidIff(t);
  }

  lemma NothingRead(parts: seq<UInt16>)
    ensures parts[..0] == [] && parts[0..] == parts && VersionOf([]) == ZERO
  {
  }

  /** Every term that is read is written in its place. */
  lemma TermWritten(text: string, lo: nat) returns (t: Written)
    requires lo < |text| && TermAt(text, lo).Some?
    ensures t.WellWritten() && !t.Overflows() && TermAt(text, lo).value.term == TermOf(t)
    ensures lo < TermAt(text, lo).value.next <= |text| && Stands(text, lo, TermAt(text, lo).value.next, t.Text())
  {
    hide Symbol, Digits, Dotted, VersionOf, PartsFrom, OperatorAt, Term.Valid, Written.Overflows, Stands;
    var operator := OperatorAt(text, lo);
    var sign := SignWritten(text, lo);
    NothingRead([]);
    var parts, w := PartsWritten(text, operator.next, []);
    assert [] + parts == parts;
    t := Written(sign, parts, w);
    SignsOfExact(sign);
    StandsJoin(text, lo, operator.next, TermAt(text, lo).value.next, Symbol(sign), Dotted(parts, w));
    ValidFacts(TermAt(text, lo).value.term);
    ValidIff(t);
  }

  lemma SignsOfExact(sign: Sign)
    ensures OperationOf(sign) == Exact <==> sign in {Plain, Equal}
  {
  }

  lemma ValidFacts(term: Term)
    requires term.Valid()
    ensures 2 <= term.components <= 4 && (term.wildcard ==> term.operation == Exact)
  {
  }

  // ---- Versions ----

  /** A version is written as two to four dotted parts. */
  lemma VersionTextIff(text: string)
    ensures IsVersionText(text) <==> exists parts: seq<UInt16> :: 2 <= |parts| <= 4 && Dotted(parts, None) == text
  {
    hide Dotted, Stands;
    StandsWhole(text);
    if IsVersionText(text) {
      NothingRead([]);
      var parts, w := PartsWritten(text, 0, []);
      assert [] + parts == parts;
      assert 2 <= |parts| <= 4 && Dotted(parts, None) == text;
    }
    if exists parts: seq<UInt16> :: 2 <= |parts| <= 4 && Dotted(parts, None) == text {
      var parts: seq<UInt16> :| 2 <= |parts| <= 4 && Dotted(parts, None) == text;
      VersionRead(parts);
    }
  }

  lemma VersionRead(parts: seq<UInt16>)
    requires 2 <= |parts| <= 4
    ensures IsVersionText(Dotted(parts, None))
    ensures PartsFrom(Dotted(parts, None), 0, ZERO, 0).value.version == VersionOf(parts)
    ensures Numbers(VersionOf(parts)) == Filled(parts)
  {
    hide Dotted, PartsFrom, Stands;
    var text := Dotted(parts, None);
    StandsWhole(text);
    NothingRead(parts);
    PartsRead(text, 0, |text|, parts, 0, None);
  }

  lemma {:induction false} DigitsShort(n: nat, power: nat, length: nat)
    requires length > 0 && n < power && Powers(length) == power
    ensures |Digits(n)| <= length
  {
    if n >= 10 { DigitsShort(n / 10, power / 10, length - 1); }
  }

  function Powers(length: nat): nat { if length == 0 then 1 else 10 * Powers(length - 1) }

  /** No version is too long to be read. */
  lemma {:induction false} VersionShort(parts: seq<UInt16>)
    requires |parts| <= 4
    ensures |Dotted(parts, None)| <= 6 * |parts|
  {
    if parts != [] {
      assert Powers(5) == 100000;
      DigitsShort(parts[0], 100000, 5);
      VersionShort(parts[1..]);
    }
  }
}
