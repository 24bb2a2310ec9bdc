/** Whole constraints: `||`-separated alternatives of comma- or space-separated terms. The two
    public evaluators, TryEvaluate and Normalize, are proved against one reading of the text
    and then against each other. */
module VersionConstraint {
  import opened Wrappers
  import opened Versions
  import opened NormalForm
  import opened ConstraintGrammar

  const MAX_LENGTH := 128
  const MAX_ALTERNATIVES := 8

  predicate SeparatorAt(text: string, offset: nat) {
    offset >= |text| || IsSpace(text[offset]) || text[offset] == ',' || AtOr(text, offset)
  }

  /** The alternatives from `offset` on; the first continues the one being read. */
  function GroupsFrom(text: string, offset: nat): (r: Option<seq<seq<Term>>>)
    requires offset <= |text|
    ensures r.Some? ==> |r.value| >= 1 && AllValid(r.value)
    decreases |text| - offset
  {
    var at := SkipTo(text, offset);
    if at == |text| then Some([[]])
    else if AtOr(text, at) then
      var rest := GroupsFrom(text, at + 2);
      if rest.None? then None else Some([[]] + rest.value)
    else
      var read := TermAt(text, at);
      if read.None? || !SeparatorAt(text, read.value.next) then None
      else
        var rest := GroupsFrom(text, read.value.next);
        if rest.None? then None else Some([[read.value.term] + rest.value[0]] + rest.value[1..])
  }

  predicate AllValid(groups: seq<seq<Term>>) {
    forall g :: 0 <= g < |groups| ==> ValidGroup(groups[g])
  }

  predicate ValidGroup(group: seq<Term>) {
    forall k :: 0 <= k < |group| ==> group[k].Valid()
  }

  predicate NoneEmpty(groups: seq<seq<Term>>) {
    forall g :: 0 <= g < |groups| ==> groups[g] != []
  }

  predicate AllSpace(text: string) {
    forall k :: 0 <= k < |text| ==> IsSpace(text[k])
  }

  /** The texts TryEvaluate accepts. */
  predicate Accepted(text: Option<string>) {
    text.Some? && !AllSpace(text.value) && |text.value| <= MAX_LENGTH &&
    var groups := GroupsFrom(text.value, 0);
    groups.Some? && NoneEmpty(groups.value)
  }

  function Groups(text: Option<string>): (groups: seq<seq<Term>>)
    requires Accepted(text)
    ensures AllValid(groups)
  {
    GroupsFrom(text.value, 0).value
  }

  // ---- Meaning ----

  predicate GroupMatches(group: seq<Term>, v: Version)
    requires ValidGroup(group)
  {
    forall k :: 0 <= k < |group| ==> TermMatches(group[k], v)
  }

  predicate SomeGroupMatches(groups: seq<seq<Term>>, v: Version)
    requires AllValid(groups)
  {
    exists g :: 0 <= g < |groups| && GroupMatches(groups[g], v)
  }

  /** The intersection Normalize accumulates for one alternative. */
  function GroupRange(group: seq<Term>): (r: Range)
    requires ValidGroup(group)
  {
    if group == [] then UNBOUNDED else Intersect(GroupRange(group[..|group| - 1]), RangeOf(group[|group| - 1]))
  }

  function GroupRanges(groups: seq<seq<Term>>): (r: seq<Range>)
    requires AllValid(groups)
    ensures |r| == |groups|
  {
    seq(|groups|, g requires 0 <= g < |groups| => GroupRange(groups[g]))
  }

  lemma {:induction false} GroupRangeFacts(group: seq<Term>, v: Version)
    requires ValidGroup(group)
    ensures GroupRange(group).WellFormed()
    ensures GroupRange(group).IsMatch(v) <==> GroupMatches(group, v)
    decreases |group|
  {
    hide Intersect, RangeOf, TermMatches, Range.IsMatch, Key, Lo, Hi, Range.WellFormed;
    if group == [] {
      UnboundedMatches(v);
    } else {
      var front, last := group[..|group| - 1], group[|group| - 1];
      GroupRangeFacts(front, v);
      IntervalMatchesTerm(last, v);
      IntersectIsCut(GroupRange(front), RangeOf(last));
      MatchIsCut(GroupRange(front), v);
      MatchIsCut(RangeOf(last), v);
      MatchIsCut(GroupRange(group), v);
      assert GroupMatches(group, v) <==> GroupMatches(front, v) && TermMatches(last, v);
    }
  }

  lemma UnboundedMatches(v: Version)
    ensures UNBOUNDED.WellFormed() && UNBOUNDED.IsMatch(v)
  {
  }

  // ---- The shared loop, seen as progress through the alternatives ----

  /** `done` alternatives are complete, `current` is being read, the rest starts at `offset`. */
  ghost predicate Progress(text: string, done: seq<seq<Term>>, current: seq<Term>, offset: nat)
    requires offset <= |text|
  {
    && AllValid(done) && NoneEmpty(done) && ValidGroup(current)
    && var rest := GroupsFrom(text, offset);
       GroupsFrom(text, 0) ==
       if rest.None? then None else Some(done + [current + rest.value[0]] + rest.value[1..])
  }

  lemma ProgressStart(text: string)
    ensures Progress(text, [], [], 0)
  {
    var rest := GroupsFrom(text, 0);
    if rest.Some? {
      JoinFirst(rest.value);
      assert [] + [[] + rest.value[0]] == [[] + rest.value[0]];
    }
  }

  lemma JoinFirst(groups: seq<seq<Term>>)
    requires groups != []
    ensures [[] + groups[0]] + groups[1..] == groups
  {
    assert [] + groups[0] == groups[0];
  }

  lemma ProgressTerm(text: string, done: seq<seq<Term>>, current: seq<Term>, offset: nat)
    requires offset <= |text| && Progress(text, done, current, offset)
    requires var at := SkipTo(text, offset); at < |text| && !AtOr(text, at) && TermAt(text, at).Some?
    requires SeparatorAt(text, TermAt(text, SkipTo(text, offset)).value.next)
    ensures var read := TermAt(text, SkipTo(text, offset)).value;
            Progress(text, done, current + [read.term], read.next)
  {
    hide TermAt, SeparatorAt, Term.Valid;
    var read := TermAt(text, SkipTo(text, offset)).value;
    var rest := GroupsFrom(text, read.next);
    TermIsValid(text, SkipTo(text, offset));
    if rest.Some? {
      assert current + ([read.term] + rest.value[0]) == current + [read.term] + rest.value[0];
    }
  }

  lemma TermIsValid(text: string, offset: nat)
    requires offset < |text|
    ensures TermAt(text, offset).Some? ==>
              TermAt(text, offset).value.term.Valid() && TermAt(text, offset).value.next <= |text|
  {
  }

  lemma ProgressOr(text: string, done: seq<seq<Term>>, current: seq<Term>, offset: nat)
    requires offset <= |text| && Progress(text, done, current, offset) && current != []
    requires var at := SkipTo(text, offset); at < |text| && AtOr(text, at)
    ensures Progress(text, done + [current], [], SkipTo(text, offset) + 2)
  {
    hide TermAt, SeparatorAt, Term.Valid;
    var rest := GroupsFrom(text, SkipTo(text, offset) + 2);
    ValidAppend(done, current);
    if rest.Some? {
      assert current + [] == current;
      assert ([[]] + rest.value)[1..] == rest.value;
      JoinFirst(rest.value);
      assert done + [current] + rest.value == done + [current] + [[] + rest.value[0]] + rest.value[1..];
    }
  }

  lemma ValidAppend(done: seq<seq<Term>>, current: seq<Term>)
    requires AllValid(done) && NoneEmpty(done) && current != [] && ValidGroup(current)
    ensures AllValid(done + [current]) && NoneEmpty(done + [current])
  {
    hide Term.Valid;
  }

  lemma ProgressEnd(text: string, done: seq<seq<Term>>, current: seq<Term>, offset: nat)
    requires offset <= |text| && Progress(text, done, current, offset) && SkipTo(text, offset) == |text|
    ensures GroupsFrom(text, 0) == Some(done + [current])
  {
    assert current + [] == current;
    var nothing: seq<seq<Term>> := [[]];
    assert nothing[1..] == [];
    assert done + [current] + [] == done + [current];
  }

  /** An empty alternative, a term that does not read or a missing separator refuses the text. */
  lemma ProgressStuck(text: string, done: seq<seq<Term>>, current: seq<Term>, offset: nat)
    requires offset <= |text| && Progress(text, done, current, offset)
    requires var at := SkipTo(text, offset);
             || (current == [] && (at == |text| || AtOr(text, at)))
             || (at < |text| && !AtOr(text, at) &&
                 (TermAt(text, at).None? || !SeparatorAt(text, TermAt(text, at).value.next)))
    ensures !Accepted(Some(text))
  {
    hide TermAt, SeparatorAt, Term.Valid;
    var rest := GroupsFrom(text, offset);
    if rest.Some? {
      assert rest.value[0] == [];
      assert (done + [current + rest.value[0]] + rest.value[1..])[|done|] == current + rest.value[0];
    }
  }

  // ---- TryEvaluate ----

  /** None is `false`; Some carries the out parameter. */
  method TryEvaluate(text: Option<string>, candidate: Version, evaluate: bool) returns (result: Option<bool>)
    ensures result.Some? <==> Accepted(text)
    ensures result.Some? ==> (result.value <==> !evaluate || SomeGroupMatches(Groups(text), candidate))
  {
    hide TermAt, SeparatorAt, Term.Valid, TermMatches, GroupsFrom, Progress, AllValid, SkipTo;
    if text.None? || AllSpace(text.value) || |text.value| > MAX_LENGTH { return None; }
    var s := text.value;
    var offset, groupHasTerm, groupMatches, matches := 0, false, true, false;
    ghost var done: seq<seq<Term>>, current: seq<Term> := [], [];
    ProgressStart(s);
    NothingDone();
    while true
      invariant offset <= |s| && Progress(s, done, current, offset) && AllValid(done)
      invariant ValidGroup(current)
      invariant groupHasTerm <==> current != []
      invariant groupMatches <==> !evaluate || GroupMatches(current, candidate)
      invariant if evaluate then matches <==> SomeGroupMatches(done, candidate) else matches <==> done != []
      decreases |s| - offset
    {
      ghost var was := offset;
      ProgressFacts(s, done, current, offset);
      offset := SkipSeparators(s, offset);
      if offset == |s| {
        if !groupHasTerm {
          ProgressStuck(s, done, current, was);
          return None;
        }
        ProgressEnd(s, done, current, was);
        ValidAppend(done, current);
        OneMoreGroup(done, current, candidate);
        matches := matches || groupMatches;
        return Some(matches);
      }
      if AtOr(s, offset) {
        if !groupHasTerm {
          ProgressStuck(s, done, current, was);
          return None;
        }
        matches := matches || groupMatches;
        groupHasTerm, groupMatches := false, true;
        ValidAppend(done, current);
        OneMoreGroup(done, current, candidate);
        ProgressOr(s, done, current, was);
        done, current := done + [current], [];
        offset := offset + 2;
        continue;
      }
      var verdict := ReadTerm(s, offset, candidate, evaluate);
      if verdict.None? {
        ProgressStuck(s, done, current, was);
        return None;
      }
      TermIsValid(s, offset);
      ghost var term := TermAt(s, offset).value.term;
      TermAdvances(s, offset);
      groupHasTerm := true;
      groupMatches := groupMatches && verdict.value.matches;
      if verdict.value.next < |s| && !IsSpace(s[verdict.value.next]) && s[verdict.value.next] != ','
         && !AtOr(s, verdict.value.next) {
        Unseparated(s, verdict.value.next);
        ProgressStuck(s, done, current, was);
        return None;
      }
      Separated(s, verdict.value.next);
      ProgressTerm(s, done, current, was);
      OneMoreTerm(current, term, candidate);
      current := current + [term];
      offset := verdict.value.next;
    }
  }

  lemma NothingDone()
    ensures AllValid([])
  {
  }

  lemma ProgressFacts(text: string, done: seq<seq<Term>>, current: seq<Term>, offset: nat)
    requires offset <= |text| && Progress(text, done, current, offset)
    ensures AllValid(done) && NoneEmpty(done)
  {
  }

  lemma TermAdvances(text: string, offset: nat)
    requires offset < |text| && TermAt(text, offset).Some?
    ensures TermAt(text, offset).value.next > offset
  {
  }

  lemma Unseparated(text: string, next: nat)
    requires next < |text| && !IsSpace(text[next]) && text[next] != ',' && !AtOr(text, next)
    ensures !SeparatorAt(text, next)
  {
  }

  lemma Separated(text: string, next: nat)
    requires next >= |text| || IsSpace(text[next]) || text[next] == ',' || AtOr(text, next)
    ensures SeparatorAt(text, next)
  {
  }

  lemma OneMoreGroup(done: seq<seq<Term>>, current: seq<Term>, v: Version)
    requires AllValid(done) && AllValid(done + [current])
    requires ValidGroup(current)
    ensures SomeGroupMatches(done + [current], v) <==> SomeGroupMatches(done, v) || GroupMatches(current, v)
  {
    hide TermMatches, Term.Valid;
    var more := done + [current];
    if SomeGroupMatches(done, v) {
      var g :| 0 <= g < |done| && GroupMatches(done[g], v);
      assert more[g] == done[g];
    }
    if GroupMatches(current, v) { assert more[|done|] == current; }
    if SomeGroupMatches(more, v) {
      var g :| 0 <= g < |more| && GroupMatches(more[g], v);
      if g < |done| { assert more[g] == done[g]; }
    }
  }

  lemma OneMoreTerm(current: seq<Term>, term: Term, v: Version)
    requires ValidGroup(current) && term.Valid()
    ensures GroupMatches(current + [term], v) <==> GroupMatches(current, v) && TermMatches(term, v)
    ensures GroupRange(current + [term]) == Intersect(GroupRange(current), RangeOf(term))
  {
    hide TermMatches, Term.Valid, RangeOf, Intersect;
    var more := current + [term];
    assert more[..|more| - 1] == current;
    forall k | 0 <= k < |current| ensures more[k] == current[k] {}
    assert more[|current|] == term;
  }

  // ---- Normalize ----

  predicate NoneVoid(groups: seq<seq<Term>>)
    requires AllValid(groups)
  {
    forall g :: 0 <= g < |groups| ==> !Empty(GroupRange(groups[g]))
  }

  lemma VoidAppend(done: seq<seq<Term>>, current: seq<Term>)
    requires AllValid(done) && AllValid(done + [current]) && ValidGroup(current)
    requires NoneVoid(done) && !Empty(GroupRange(current))
    ensures NoneVoid(done + [current])
  {
    hide GroupRange, Term.Valid, Empty;
    var more := done + [current];
    forall g | 0 <= g < |more|
      ensures !Empty(GroupRange(more[g]))
    {
      if g < |done| { assert more[g] == done[g]; } else { assert more[g] == current; }
    }
  }

  /** When Normalize returns instead of throwing. */
  predicate Normalizable(text: Option<string>) {
    Accepted(text) && |Groups(text)| <= MAX_ALTERNATIVES &&
    NoneVoid(Groups(text))
  }

  /** None is a FormatException. */
  method Normalize(text: Option<string>) returns (result: Option<seq<Range>>)
    ensures result.Some? <==> Normalizable(text)
    ensures result.Some? ==> IsNormalForm(GroupRanges(Groups(text)), result.value)
  {
    hide TermAt, GroupRange, IsNormalForm, Proper, SortedByMinimum, AllValid, GroupsFrom;
    var ranges := ReadAlternatives(text);
    if ranges.None? { return None; }
    RangesProper(Groups(text));
    var sorted := SortByMinimum(ranges.value);
    PermutationProper(ranges.value, sorted);
    var canonical := Merge(sorted);
    NormalFormOfPermutation(ranges.value, sorted, canonical);
    return Some(canonical);
  }

  lemma PermutationProper(a: seq<Range>, b: seq<Range>)
    requires multiset(a) == multiset(b) && Proper(a)
    ensures Proper(b)
  {
    forall i | 0 <= i < |b|
      ensures b[i].WellFormed() && Lo(b[i]) < Hi(b[i])
    {
      assert b[i] in multiset(a);
      var k :| 0 <= k < |a| && a[k] == b[i];
    }
  }

  lemma NormalFormOfPermutation(a: seq<Range>, b: seq<Range>, canonical: seq<Range>)
    requires multiset(a) == multiset(b) && IsNormalForm(b, canonical)
    ensures IsNormalForm(a, canonical)
  {
    hide Covers;
    PermutationCovers(a, b);
  }

  lemma RangesProper(groups: seq<seq<Term>>)
    requires AllValid(groups) && NoneVoid(groups)
    ensures Proper(GroupRanges(groups))
  {
    hide Empty, GroupRange, Lo, Hi, Range.WellFormed, Term.Valid;
    forall g | 0 <= g < |groups|
      ensures GroupRanges(groups)[g].WellFormed() && Lo(GroupRanges(groups)[g]) < Hi(GroupRanges(groups)[g])
    {
      GroupRangeFacts(groups[g], ZERO);
      EmptyIsCut(GroupRange(groups[g]));
    }
  }

  lemma RangesAppend(done: seq<seq<Term>>, current: seq<Term>)
    requires AllValid(done) && AllValid(done + [current]) && ValidGroup(current)
    ensures GroupRanges(done + [current]) == GroupRanges(done) + [GroupRange(current)]
  {
    hide GroupRange, Term.Valid;
    var more := done + [current];
    forall g | 0 <= g < |more|
      ensures GroupRanges(more)[g] == (GroupRanges(done) + [GroupRange(current)])[g]
    {
      if g < |done| { assert more[g] == done[g]; } else { assert more[g] == current; }
    }
  }

  /** Normalize's first loop. */
  method ReadAlternatives(text: Option<string>) returns (result: Option<seq<Range>>)
    ensures result.Some? <==> Normalizable(text)
    ensures result.Some? ==> result.value == GroupRanges(Groups(text))
  {
    hide TermAt, SeparatorAt, Term.Valid, GroupsFrom, Progress, AllValid, GroupRange, Empty, Intersect, RangeOf,
         GroupRanges, SkipTo, NoneVoid;
    if text.None? || AllSpace(text.value) || |text.value| > MAX_LENGTH { return None; }
    var s := text.value;
    var ranges: seq<Range> := [];
    var offset, haveTerm, group := 0, false, UNBOUNDED;
    ghost var done: seq<seq<Term>>, current: seq<Term> := [], [];
    ProgressStart(s);
    NothingDone();
    NothingRanged();
    while true
      invariant offset <= |s| && Progress(s, done, current, offset) && AllValid(done)
      invariant ValidGroup(current)
      invariant haveTerm <==> current != []
      invariant group == GroupRange(current)
      invariant ranges == GroupRanges(done) && |done| <= MAX_ALTERNATIVES
      invariant NoneVoid(done)
      decreases |s| - offset
    {
      ghost var was := offset;
      ProgressFacts(s, done, current, offset);
      offset := SkipSeparators(s, offset);
      if offset == |s| || AtOr(s, offset) {
        if !haveTerm || Empty(group) {
          NotNormalizable(s, done, current, was);
          return None;
        }
        ValidAppend(done, current);
        RangesAppend(done, current);
        VoidAppend(done, current);
        ranges := ranges + [group];
        if |ranges| > MAX_ALTERNATIVES {
          NotNormalizable(s, done, current, was);
          return None;
        }
        if offset == |s| {
          ProgressEnd(s, done, current, was);
          return Some(ranges);
        }
        ProgressOr(s, done, current, was);
        offset := offset + 2;
        haveTerm, group := false, UNBOUNDED;
        done, current := done + [current], [];
        continue;
      }
      var interval := ReadNormalizedTerm(s, offset);
      if interval.None? {
        ProgressStuck(s, done, current, was);
        return None;
      }
      TermIsValid(s, offset);
      TermAdvances(s, offset);
      ghost var term := TermAt(s, offset).value.term;
      group := Intersect(group, interval.value.range);
      haveTerm := true;
      if interval.value.next < |s| && !IsSpace(s[interval.value.next]) && s[interval.value.next] != ','
         && !AtOr(s, interval.value.next) {
        Unseparated(s, interval.value.next);
        ProgressStuck(s, done, current, was);
        return None;
      }
      Separated(s, interval.value.next);
      ProgressTerm(s, done, current, was);
      OneMoreTerm(current, term, ZERO);
      current := current + [term];
      offset := interval.value.next;
    }
  }

  lemma NothingRanged()
    ensures AllValid([]) && NoneVoid([]) && GroupRanges([]) == [] && GroupRange([]) == UNBOUNDED
  {
  }

  /** A closed alternative that is missing, empty or the ninth spoils the whole text. */
  lemma NotNormalizable(text: string, done: seq<seq<Term>>, current: seq<Term>, offset: nat)
    requires offset <= |text| && Progress(text, done, current, offset)
    requires SkipTo(text, offset) == |text| || AtOr(text, SkipTo(text, offset))
    requires current == [] || Empty(GroupRange(current)) || |done| >= MAX_ALTERNATIVES
    ensures !Normalizable(Some(text))
  {
    hide TermAt, SeparatorAt, Term.Valid, Empty, GroupRange;
    if current == [] {
      ProgressStuck(text, done, current, offset);
    } else {
      var rest := GroupsFrom(text, offset);
      if rest.Some? {
        var all := done + [current + rest.value[0]] + rest.value[1..];
        assert rest.value[0] == [] && current + [] == current;
        assert all[|done|] == current;
      }
    }
  }

  // ---- The public entry points and what relates them ----

  method IsValid(constraint: Option<string>) returns (valid: bool)
    ensures valid <==> Accepted(constraint)
  {
    var result := TryEvaluate(constraint, ZERO, false);
    return result.Some?;
  }

  method IsMatch(constraint: Option<string>, version: Option<string>) returns (matches: bool)
    ensures matches <==>
              && Accepted(constraint)
              && version.Some? && 0 < |version.value| <= 31 && IsVersionText(version.value)
              && SomeGroupMatches(Groups(constraint), PartsFrom(version.value, 0, ZERO, 0).value.version)
  {
    hide TermMatches, GroupsFrom, AllValid, PartsFrom, IsVersionText;
    var candidate := TryReadVersion(version);
    if candidate.None? { return false; }
    var result := TryEvaluate(constraint, candidate.value, true);
    return result.Some? && result.value;
  }

  /** The list the device checks admits exactly the versions the direct evaluator admits. */
  lemma NormalizeAgreesWithEvaluate(text: Option<string>, ranges: seq<Range>, v: Version)
    requires Normalizable(text) && IsNormalForm(GroupRanges(Groups(text)), ranges)
    ensures Accepted(text)
    ensures (exists i :: 0 <= i < |ranges| && ranges[i].IsMatch(v)) <==> SomeGroupMatches(Groups(text), v)
  {
    hide IsNormalForm, Range.IsMatch, GroupRange, TermMatches, GroupsFrom;
    var groups := Groups(text);
    NormalFormMatches(GroupRanges(groups), ranges, v);
    forall g | 0 <= g < |groups|
      ensures GroupRanges(groups)[g].IsMatch(v) <==> GroupMatches(groups[g], v)
    {
      GroupRangeFacts(groups[g], v);
    }
    if SomeGroupMatches(groups, v) {
      var g :| 0 <= g < |groups| && GroupMatches(groups[g], v);
      assert GroupRanges(groups)[g].IsMatch(v);
    }
    if exists i :: 0 <= i < |groups| && GroupRanges(groups)[i].IsMatch(v) {
      var g :| 0 <= g < |groups| && GroupRanges(groups)[g].IsMatch(v);
      assert GroupMatches(groups[g], v);
    }
  }

  /** Texts whose alternatives are the same up to order normalize to the same list. */
  lemma NormalizeIgnoresAlternativeOrder(a: Option<string>, b: Option<string>, ra: seq<Range>, rb: seq<Range>)
    requires Normalizable(a) && Normalizable(b) && multiset(Groups(a)) == multiset(Groups(b))
    requires IsNormalForm(GroupRanges(Groups(a)), ra) && IsNormalForm(GroupRanges(Groups(b)), rb)
    ensures ra == rb
  {
    hide Covers, Canonical, GroupRange, GroupsFrom, Term.Valid, InCut;
    var ga, gb := Groups(a), Groups(b);
    forall p
      ensures Covers(GroupRanges(ga), p) <==> Covers(GroupRanges(gb), p)
    {
      SameGroupsCover(ga, gb, p);
      SameGroupsCover(gb, ga, p);
    }
    CanonicalUnique(ra, rb);
  }

  lemma SameGroupsCover(a: seq<seq<Term>>, b: seq<seq<Term>>, p: int)
    requires AllValid(a) && AllValid(b) && multiset(a) == multiset(b)
    ensures Covers(GroupRanges(a), p) ==> Covers(GroupRanges(b), p)
  {
    hide GroupRange, Term.Valid, InCut;
    if Covers(GroupRanges(a), p) {
      var i :| 0 <= i < |a| && InCut(GroupRanges(a)[i], p);
      assert a[i] in multiset(b);
      var j :| 0 <= j < |b| && b[j] == a[i];
      assert InCut(GroupRanges(b)[j], p);
    }
  }
}
