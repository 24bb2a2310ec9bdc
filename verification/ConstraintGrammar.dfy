/** The version-constraint grammar, and the two readers of a term: ReadTerm, which matches a
    candidate while it parses, and ReadNormalizedTerm, which builds an interval. */
module ConstraintGrammar {
  import opened Wrappers
  import opened Bytes
  import opened Versions

  /** char.IsWhiteSpace. */
  predicate IsSpace(c: char) {
    || '\U{0009}' <= c <= '\U{000D}' || '\U{2000}' <= c <= '\U{200A}'
    || c in {' ', '\U{0085}', '\U{00A0}', '\U{1680}', '\U{2028}', '\U{2029}', '\U{202F}', '\U{205F}', '\U{3000}'}
  }

  predicate IsDigit(c: char) { '0' <= c <= '9' }

  predicate IsWild(c: char) { c in {'*', 'x', 'X'} }

  function SkipTo(text: string, offset: nat): (next: nat)
    requires offset <= |text|
    ensures offset <= next <= |text|
    decreases |text| - offset
  {
    if offset < |text| && (IsSpace(text[offset]) || text[offset] == ',') then SkipTo(text, offset + 1) else offset
  }

  method SkipSeparators(text: string, offset: nat) returns (next: nat)
    requires offset <= |text|
    ensures next == SkipTo(text, offset)
  {
    next := offset;
    while next < |text| && (IsSpace(text[next]) || text[next] == ',')
      invariant offset <= next <= |text| && SkipTo(text, next) == SkipTo(text, offset)
    {
      next := next + 1;
    }
  }

  predicate AtOr(text: string, offset: nat) {
    offset + 1 < |text| && text[offset] == '|' && text[offset + 1] == '|'
  }

  // ---- Components ----

  function DigitsEnd(text: string, offset: nat): (end: nat)
    requires offset <= |text|
    ensures offset <= end <= |text|
    ensures forall k :: offset <= k < end ==> IsDigit(text[k])
    decreases |text| - offset
  {
    if offset < |text| && IsDigit(text[offset]) then DigitsEnd(text, offset + 1) else offset
  }

  function DigitValue(c: char): (d: nat)
    requires IsDigit(c)
    ensures d < 10
  {
    c as int - '0' as int
  }

  /** The decimal value of text[lo..hi]. */
  function Decimal(text: string, lo: nat, hi: nat): nat
    requires lo <= hi <= |text| && forall k :: lo <= k < hi ==> IsDigit(text[k])
    decreases hi
  {
    if lo == hi then 0 else Decimal(text, lo, hi - 1) * 10 + DigitValue(text[hi - 1])
  }

  datatype Component = Component(value: UInt16, next: nat)

  /** A run of digits without a leading zero whose value fits 16 bits. */
  function ComponentAt(text: string, offset: nat): Option<Component>
    requires offset <= |text|
  {
    var end := DigitsEnd(text, offset);
    if end == offset || (end - offset > 1 && text[offset] == '0') || Decimal(text, offset, end) > 65535 then None
    else Some(Component(Decimal(text, offset, end), end))
  }

  lemma {:induction false} DecimalGrows(text: string, lo: nat, mid: nat, hi: nat)
    requires lo <= mid <= hi <= |text| && forall k :: lo <= k < hi ==> IsDigit(text[k])
    ensures Decimal(text, lo, mid) <= Decimal(text, lo, hi)
    decreases hi - mid
  {
    if mid < hi { DecimalGrows(text, lo, mid, hi - 1); }
  }

  method ReadComponent(text: string, offset: nat) returns (component: Option<Component>)
    requires offset <= |text|
    ensures component == ComponentAt(text, offset)
  {
    var start, at := offset, offset;
    var value := 0;
    while at < |text| && IsDigit(text[at])
      invariant start <= at <= |text|
      invariant forall k :: start <= k < at ==> IsDigit(text[k])
      invariant DigitsEnd(text, at) == DigitsEnd(text, start)
      invariant value == Decimal(text, start, at) <= 65535
    {
      value := value * 10 + DigitValue(text[at]);
      at := at + 1;
      if value > 65535 {
        DecimalGrows(text, start, at, DigitsEnd(text, start));
        return None;
      }
    }
    if at == start || (at - start > 1 && text[start] == '0') { return None; }
    return Some(Component(value, at));
  }

  datatype Parts = Parts(version: Version, components: nat, wildcard: bool, next: nat)

  /** Dot-separated components; a wildcard may only come last, and there are at most four. */
  function PartsFrom(text: string, offset: nat, parsed: Version, components: nat): (r: Option<Parts>)
    requires offset <= |text| && components < 4
    ensures r.Some? ==> offset < r.value.next <= |text| && components < r.value.components <= 4
    decreases 4 - components
  {
    var wild := offset < |text| && IsWild(text[offset]);
    var read := ComponentAt(text, offset);
    if !wild && read.None? then None
    else
      var next := if wild then offset + 1 else read.value.next;
      var version := if wild then parsed else parsed.Set(components, read.value.value);
      if next >= |text| || text[next] != '.' then Some(Parts(version, components + 1, wild, next))
      else if wild || components + 1 == 4 then None
      else PartsFrom(text, next + 1, version, components + 1)
  }

  // ---- Terms ----

  datatype Operator = Operator(operation: Operation, next: nat)

  function OperatorAt(text: string, offset: nat): (r: Operator)
    requires offset < |text|
    ensures offset <= r.next <= |text|
  {
    if text[offset] == '^' then Operator(Caret, offset + 1)
    else if text[offset] == '~' then Operator(Tilde, offset + 1)
    else if text[offset] == '=' then Operator(Exact, offset + 1)
    else if text[offset] in {'<', '>'} then
      var orEqual := offset + 1 < |text| && text[offset + 1] == '=';
      Operator(if text[offset] == '<' then (if orEqual then LessOrEqual else Less)
               else (if orEqual then GreaterOrEqual else Greater), if orEqual then offset + 2 else offset + 1)
    else Operator(Exact, offset)
  }

  datatype Term = Term(operation: Operation, lower: Version, components: nat, wildcard: bool)
  {
    predicate IsBounded() { wildcard || operation in {Caret, Tilde} }

    predicate Valid() {
      2 <= components <= 4 && (wildcard ==> operation == Exact) &&
      (IsBounded() ==> UpperBound(operation, lower, components, wildcard).Some?)
    }
  }

  datatype Read = Read(term: Term, next: nat)

  /** A term, or None where it does not parse or its upper bound overflows 16 bits. */
  function TermAt(text: string, offset: nat): (r: Option<Read>)
    requires offset < |text|
    ensures r.Some? ==> r.value.term.Valid() && offset < r.value.next <= |text|
  {
    var operator := OperatorAt(text, offset);
    if operator.next == |text| then None
    else
      var parts := PartsFrom(text, operator.next, ZERO, 0);
      if parts.None? then None
      else
        var term := Term(operator.operation, parts.value.version, parts.value.components, parts.value.wildcard);
        if term.Valid() then Some(Read(term, parts.value.next)) else None
  }

  /** What ReadTerm says of a candidate. */
  predicate TermMatches(term: Term, v: Version)
    requires term.Valid()
  {
    var c := v.CompareTo(term.lower);
    if term.IsBounded() then
      c >= 0 && v.CompareTo(UpperBound(term.operation, term.lower, term.components, term.wildcard).value) < 0
    else match term.operation
      case Less => c < 0
      case LessOrEqual => c <= 0
      case Greater => c > 0
      case GreaterOrEqual => c >= 0
      case _ => c == 0
  }

  /** The interval ReadNormalizedTerm builds. */
  function RangeOf(term: Term): (r: Range)
    requires term.Valid()
    ensures r.WellFormed()
  {
    var lower := Some(term.lower);
    if term.IsBounded() then
      Range(lower, true, UpperBound(term.operation, term.lower, term.components, term.wildcard), false)
    else match term.operation
      case Less => Range(None, false, lower, false)
      case LessOrEqual => Range(None, false, lower, true)
      case Greater => Range(lower, false, None, false)
      case GreaterOrEqual => Range(lower, true, None, false)
      case _ => Range(lower, true, lower, true)
  }

  /** The two readers agree on what a term admits. */
  lemma IntervalMatchesTerm(term: Term, v: Version)
    requires term.Valid()
    ensures RangeOf(term).IsMatch(v) <==> TermMatches(term, v)
  {
    hide Version.CompareTo, UpperBound;
  }

  /** The components loop both readers contain. */
  method ReadParts(text: string, offset: nat) returns (parts: Option<Parts>)
    requires offset <= |text|
    ensures parts == PartsFrom(text, offset, ZERO, 0)
  {
    var at, parsed, components, wildcard := offset, ZERO, 0, false;
    while true
      invariant offset <= at <= |text| && components < 4 && !wildcard
      invariant PartsFrom(text, at, parsed, components) == PartsFrom(text, offset, ZERO, 0)
      decreases 4 - components
    {
      if at < |text| && IsWild(text[at]) {
        wildcard := true;
        at := at + 1;
      } else {
        var component := ReadComponent(text, at);
        if component.None? { return None; }
        parsed := parsed.Set(components, component.value.value);
        at := component.value.next;
      }
      components := components + 1;
      if at >= |text| || text[at] != '.' { break; }
      if wildcard || components == 4 { return None; }
      at := at + 1;
    }
    return Some(Parts(parsed, components, wildcard, at));
  }

  method ReadOperator(text: string, offset: nat) returns (operator: Operator)
    requires offset < |text|
    ensures operator == OperatorAt(text, offset)
  {
    var operation, at := Exact, offset;
    if text[at] in {'^', '~', '='} {
      operation := if text[at] == '^' then Caret else if text[at] == '~' then Tilde else Exact;
      at := at + 1;
    } else if text[at] in {'<', '>'} {
      operation := if text[at] == '<' then Less else Greater;
      at := at + 1;
      if at < |text| && text[at] == '=' {
        operation := if operation == Less then LessOrEqual else GreaterOrEqual;
        at := at + 1;
      }
    }
    return Operator(operation, at);
  }

  datatype Verdict = Verdict(matches: bool, next: nat)

  /** ReadTerm: without evaluation it only validates and answers true. */
  method ReadTerm(text: string, offset: nat, candidate: Version, evaluate: bool) returns (result: Option<Verdict>)
    requires offset < |text|
    ensures result.Some? <==> TermAt(text, offset).Some?
    ensures result.Some? ==> result.value.next == TermAt(text, offset).value.next
    ensures result.Some? ==>
              (result.value.matches <==> !evaluate || TermMatches(TermAt(text, offset).value.term, candidate))
  {
    hide Version.CompareTo, UpperBound, PartsFrom, OperatorAt;
    var operator := ReadOperator(text, offset);
    if operator.next == |text| { return None; }
    var parts := ReadParts(text, operator.next);
    if parts.None? { return None; }
    var Parts(parsed, components, wildcard, next) := parts.value;
    if components < 2 || (wildcard && operator.operation != Exact) { return None; }
    if !evaluate {
      if !wildcard && operator.operation !in {Caret, Tilde} { return Some(Verdict(true, next)); }
      var bound := TryUpperBound(operator.operation, parsed, components, wildcard);
      return if bound.Some? then Some(Verdict(true, next)) else None;
    }
    var comparison := candidate.CompareTo(parsed);
    if operator.operation == Exact && !wildcard { return Some(Verdict(comparison == 0, next)); }
    if operator.operation == Less { return Some(Verdict(comparison < 0, next)); }
    if operator.operation == LessOrEqual { return Some(Verdict(comparison <= 0, next)); }
    if operator.operation == Greater { return Some(Verdict(comparison > 0, next)); }
    if operator.operation == GreaterOrEqual { return Some(Verdict(comparison >= 0, next)); }
    var upper := TryUpperBound(operator.operation, parsed, components, wildcard);
    if upper.None? { return None; }
    return Some(Verdict(comparison >= 0 && candidate.CompareTo(upper.value) < 0, next));
  }

  datatype Interval = Interval(range: Range, next: nat)

  method ReadNormalizedTerm(text: string, offset: nat) returns (result: Option<Interval>)
    requires offset < |text|
    ensures result.Some? <==> TermAt(text, offset).Some?
    ensures result.Some? ==>
              result.value == Interval(RangeOf(TermAt(text, offset).value.term), TermAt(text, offset).value.next)
  {
    hide Version.CompareTo, UpperBound, PartsFrom, OperatorAt;
    var operator := ReadOperator(text, offset);
    if operator.next == |text| { return None; }
    var parts := ReadParts(text, operator.next);
    if parts.None? { return None; }
    var Parts(parsed, components, wildcard, next) := parts.value;
    if components < 2 || (wildcard && operator.operation != Exact) { return None; }
    var value := Some(parsed);
    if wildcard || operator.operation in {Caret, Tilde} {
      var upper := TryUpperBound(operator.operation, parsed, components, wildcard);
      if upper.None? { return None; }
      return Some(Interval(Range(value, true, upper, false), next));
    }
    var range :=
      if operator.operation == Less then Range(None, false, value, false)
      else if operator.operation == LessOrEqual then Range(None, false, value, true)
      else if operator.operation == Greater then Range(value, false, None, false)
      else if operator.operation == GreaterOrEqual then Range(value, true, None, false)
      else Range(value, true, value, true);
    return Some(Interval(range, next));
  }

  /** TryReadVersion: two to four components and nothing else. */
  method TryReadVersion(text: Option<string>) returns (version: Option<Version>)
    ensures version.Some? <==> text.Some? && 0 < |text.value| <= 31 && IsVersionText(text.value)
    ensures version.Some? ==> version.value == PartsFrom(text.value, 0, ZERO, 0).value.version
  {
    if text.None? || |text.value| == 0 || |text.value| > 31 { return None; }
    var s := text.value;
    var at, components, parsed := 0, 0, ZERO;
    while true
      invariant at <= |s| && components <= 4
      invariant components < 4 ==> PartsFrom(s, at, parsed, components) == PartsFrom(s, 0, ZERO, 0)
      invariant components == 4 ==> !IsVersionText(s)
      decreases 4 - components
    {
      if components == 4 { return None; }
      var component := ReadComponent(s, at);
      if component.None? {
        WildOrNothing(s, at, parsed, components);
        return None;
      }
      DigitIsNotWild(s, at);
      parsed := parsed.Set(components, component.value.value);
      components := components + 1;
      at := component.value.next;
      if at == |s| { return if components >= 2 then Some(parsed) else None; }
      if s[at] != '.' { return None; }
      at := at + 1;
    }
  }

  /** A whole text of two to four components, none a wildcard. */
  predicate IsVersionText(text: string) {
    var parts := PartsFrom(text, 0, ZERO, 0);
    parts.Some? && !parts.value.wildcard && parts.value.components >= 2 && parts.value.next == |text|
  }

  lemma WildOrNothing(text: string, offset: nat, parsed: Version, components: nat)
    requires offset <= |text| && components < 4 && ComponentAt(text, offset).None?
    ensures var parts := PartsFrom(text, offset, parsed, components); parts.Some? ==> parts.value.wildcard
  {
  }

  lemma DigitIsNotWild(text: string, offset: nat)
    requires offset <= |text| && ComponentAt(text, offset).Some?
    ensures offset < |text| && !IsWild(text[offset])
  {
  }
}
