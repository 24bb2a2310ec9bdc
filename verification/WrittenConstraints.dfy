/** What a whole constraint text means: written terms with spaces and commas between them form an
    alternative, alternatives with `||` between them a constraint. Both evaluators are proved to
    accept exactly the written constraints whose bounds fit, and to admit what is written. */
module WrittenConstraints {
  import opened Wrappers
  import opened Bytes
  import opened Versions
  import opened NormalForm
  import opened ConstraintGrammar
  import opened VersionConstraint
  import opened WrittenTerms

  /** A term and the spaces and commas behind it. */
  datatype Spaced = Spaced(term: Written, gap: string)

  /** An alternative: spaces and commas, then its terms. */
  datatype Alternative = Alternative(lead: string, terms: seq<Spaced>)

  predicate IsGap(s: string) {
    forall k :: 0 <= k < |s| ==> IsSpace(s[k]) || s[k] == ','
  }

  function TermsText(terms: seq<Spaced>): string {
    if terms == [] then "" else terms[0].term.Text() + terms[0].gap + TermsText(terms[1..])
  }

  function AlternativesText(lead: string, terms: seq<Spaced>, rest: seq<Alternative>): string
    decreases |rest|
  {
    lead + TermsText(terms) +
    (if rest == [] then "" else "||" + AlternativesText(rest[0].lead, rest[0].terms, rest[1..]))
  }

  /** The text of a constraint: its alternatives with `||` between any two. */
  function ConstraintText(c: seq<Alternative>): string
    requires c != []
  {
    AlternativesText(c[0].lead, c[0].terms, c[1..])
  }

  /** Terms are well written, and something stands between any two. */
  predicate WellSpaced(terms: seq<Spaced>) {
    && (forall i :: 0 <= i < |terms| ==> terms[i].term.WellWritten() && IsGap(terms[i].gap))
    && (forall i :: 0 <= i < |terms| - 1 ==> terms[i].gap != "")
  }

  predicate WellSeparated(c: seq<Alternative>) {
    forall i :: 0 <= i < |c| ==> IsGap(c[i].lead) && WellSpaced(c[i].terms)
  }

  /** A constraint: one or more alternatives of one or more terms each. */
  predicate IsConstraint(c: seq<Alternative>) {
    c != [] && WellSeparated(c) && forall i :: 0 <= i < |c| ==> c[i].terms != []
  }

  predicate AnyOverflows(terms: seq<Spaced>)
    requires WellSpaced(terms)
  {
    exists i :: 0 <= i < |terms| && terms[i].term.Overflows()
  }

  /** The bound of some term leaves 16 bits. */
  predicate Overflowing(c: seq<Alternative>)
    requires WellSeparated(c)
  {
    exists i :: 0 <= i < |c| && AnyOverflows(c[i].terms)
  }

  /** Some alternative all of whose terms admit the version. */
  predicate ConstraintAdmits(c: seq<Alternative>, v: Version)
    requires WellSeparated(c)
  {
    exists i :: 0 <= i < |c| && AllAdmit(c[i].terms, v)
  }

  predicate AllAdmit(terms: seq<Spaced>, v: Version)
    requires WellSpaced(terms)
  {
    forall j :: 0 <= j < |terms| ==> terms[j].term.Admits(v)
  }

  function TermsOf(terms: seq<Spaced>): (g: seq<Term>)
    requires WellSpaced(terms)
    ensures |g| == |terms| && forall j :: 0 <= j < |g| ==> g[j] == TermOf(terms[j].term)
  {
    seq(|terms|, j requires 0 <= j < |terms| => TermOf(terms[j].term))
  }

  function GroupsOf(c: seq<Alternative>): (g: seq<seq<Term>>)
    requires WellSeparated(c)
    ensures |g| == |c| && forall i :: 0 <= i < |g| ==> g[i] == TermsOf(c[i].terms)
  {
    seq(|c|, i requires 0 <= i < |c| => TermsOf(c[i].terms))
  }

  /** The blanks: the controls 9 to 13, the next-line control, and Unicode's separators. */
  lemma BlanksAre(c: char)
    ensures IsSpace(c) <==>
            c as int in {9, 10, 11, 12, 13, 0x20, 0x85, 0xA0, 0x1680, 0x2000, 0x2001, 0x2002, 0x2003, 0x2004, 0x2005,
                         0x2006, 0x2007, 0x2008, 0x2009, 0x200A, 0x2028, 0x2029, 0x202F, 0x205F, 0x3000}
  {
  }

  lemma {:induction false} SkipsGap(text: string, lo: nat, mid: nat, gap: string)
    requires Stands(text, lo, mid, gap) && IsGap(gap)
    requires mid == |text| || !(IsSpace(text[mid]) || text[mid] == ',')
    ensures SkipTo(text, lo) == mid
    decreases mid - lo
  {
    StandsFirst(text, lo, mid, gap);
    if lo < mid {
      assert text[lo + 1..mid] == gap[1..];
      SkipsGap(text, lo + 1, mid, gap[1..]);
    }
  }

  lemma {:induction false} SkippedIsGap(text: string, lo: nat)
    requires lo <= |text|
    ensures var at := SkipTo(text, lo);
            && IsGap(text[lo..at]) && Stands(text, lo, at, text[lo..at])
            && (at < |text| ==> !(IsSpace(text[at]) || text[at] == ','))
    decreases |text| - lo
  {
    if SkipTo(text, lo) > lo {
      SkippedIsGap(text, lo + 1);
      assert text[lo..SkipTo(text, lo)] == [text[lo]] + text[lo + 1..SkipTo(text, lo)];
    }
  }

  lemma TermStarts(t: Written)
    requires t.WellWritten()
    ensures t.Text() != "" && var c := t.Text()[0]; !IsSpace(c) && c != ',' && c != '|'
  {
    DottedStarts(t.parts, t.wildcard);
  }

  lemma GapStops(text: string, at: nat)
    requires SeparatorAt(text, at)
    ensures Stops(text, at)
  {
  }

  lemma TailSpaced(terms: seq<Spaced>)
    requires WellSpaced(terms) && terms != []
    ensures WellSpaced(terms[1..])
    ensures TermsOf(terms) == [TermOf(terms[0].term)] + TermsOf(terms[1..])
    ensures AnyOverflows(terms) <==> terms[0].term.Overflows() || AnyOverflows(terms[1..])
  {
    hide TermOf, Written.Overflows, IsGap, Written.WellWritten;
    if AnyOverflows(terms[1..]) {
      var i :| 0 <= i < |terms[1..]| && terms[1..][i].term.Overflows();
      assert terms[i + 1].term.Overflows();
    }
    if AnyOverflows(terms) {
      var i :| 0 <= i < |terms| && terms[i].term.Overflows();
      if i > 0 { assert terms[1..][i - 1].term.Overflows(); }
    }
  }

  lemma TailSeparated(c: seq<Alternative>)
    requires WellSeparated(c) && c != []
    ensures WellSeparated(c[1..])
    ensures GroupsOf(c) == [TermsOf(c[0].terms)] + GroupsOf(c[1..])
    ensures Overflowing(c) <==> AnyOverflows(c[0].terms) || Overflowing(c[1..])
  {
    hide TermsOf, AnyOverflows, IsGap, WellSpaced;
    if Overflowing(c[1..]) {
      var i :| 0 <= i < |c[1..]| && AnyOverflows(c[1..][i].terms);
      assert AnyOverflows(c[i + 1].terms);
    }
    if Overflowing(c) {
      var i :| 0 <= i < |c| && AnyOverflows(c[i].terms);
      if i > 0 { assert AnyOverflows(c[1..][i - 1].terms); }
    }
  }

  /** What stands behind the terms of an alternative. */
  function Behind(rest: seq<Alternative>): string {
    if rest == [] then "" else "||" + AlternativesText(rest[0].lead, rest[0].terms, rest[1..])
  }

  lemma AlternativeCut(lead: string, terms: seq<Spaced>, rest: seq<Alternative>)
    ensures AlternativesText(lead, terms, rest) == lead + (TermsText(terms) + Behind(rest))
    ensures terms != [] ==> TermsText(terms) + Behind(rest) ==
                            terms[0].term.Text() + AlternativesText(terms[0].gap, terms[1..], rest)
  {
    AlternativeIs(lead, terms, rest);
    hide AlternativesText, Written.Text, Behind;
    Regroup(lead, TermsText(terms), Behind(rest));
    if terms != [] {
      var first, gap, more := terms[0].term.Text(), terms[0].gap, TermsText(terms[1..]);
      AlternativeIs(gap, terms[1..], rest);
      Regroup(first + gap, more, Behind(rest));
      Regroup(first, gap, more + Behind(rest));
      Regroup(gap, more, Behind(rest));
    }
  }

  lemma AlternativeIs(lead: string, terms: seq<Spaced>, rest: seq<Alternative>)
    ensures AlternativesText(lead, terms, rest) == lead + TermsText(terms) + Behind(rest)
  {
  }

  lemma Regroup(a: string, b: string, c: string)
    ensures a + b + c == a + (b + c)
  {
  }

  /** Behind a term comes a separator. */
  lemma TermIsFollowed(text: string, at: nat, gap: string, terms: seq<Spaced>, rest: seq<Alternative>)
    requires Stands(text, at, |text|, AlternativesText(gap, terms, rest))
    requires IsGap(gap) && (gap == "" ==> terms == [])
    ensures SeparatorAt(text, at)
  {
    hide Written.Text, Stands, AlternativesText, Behind, TermsText;
    AlternativeCut(gap, terms, rest);
    StandsCut(text, at, |text|, gap, TermsText(terms) + Behind(rest));
    StandsFirst(text, at, at + |gap|, gap);
    if gap == "" { NothingLeft(text, at, rest); }
  }

  lemma FirstSpaced(terms: seq<Spaced>)
    requires WellSpaced(terms) && terms != []
    ensures terms[0].term.WellWritten() && IsGap(terms[0].gap) && (terms[0].gap == "" ==> terms[1..] == [])
  {
  }

  /** The reader's alternatives for what is left of a written constraint. */
  lemma {:induction false} RestRead(text: string, lo: nat, lead: string, terms: seq<Spaced>, rest: seq<Alternative>)
    requires Stands(text, lo, |text|, AlternativesText(lead, terms, rest))
    requires IsGap(lead) && WellSpaced(terms) && WellSeparated(rest)
    ensures GroupsFrom(text, lo) == GroupsLeft(terms, rest)
    decreases |rest|, |terms|
  {
    hide TermOf, Written.Overflows, IsGap, Written.WellWritten, WellSpaced, WellSeparated, TermAt, SeparatorAt,
         AnyOverflows, Overflowing, Written.Text, AlternativesText, TermsText, GroupsFrom, GroupsLeft, Behind, Stands;
    var at := lo + |lead|;
    AlternativeCut(lead, terms, rest);
    StandsCut(text, lo, |text|, lead, TermsText(terms) + Behind(rest));
    if terms == [] {
      NothingLeft(text, at, rest);
      SkipsGap(text, lo, at, lead);
      if rest != [] {
        FirstSeparated(rest);
        RestRead(text, at + 2, rest[0].lead, rest[0].terms, rest[1..]);
      }
      EndRead(text, lo, rest);
    } else {
      var end := at + |terms[0].term.Text()|;
      FirstTermRead(text, at, terms, rest);
      SkipsGap(text, lo, at, lead);
      RestRead(text, end, terms[0].gap, terms[1..], rest);
      OneTermRead(text, lo, end, terms, rest);
    }
  }

  lemma FirstTermRead(text: string, at: nat, terms: seq<Spaced>, rest: seq<Alternative>)
    requires terms != [] && WellSpaced(terms)
    requires Stands(text, at, |text|, terms[0].term.Text() + AlternativesText(terms[0].gap, terms[1..], rest))
    ensures var t, end := terms[0].term, at + |terms[0].term.Text()|;
            && at < end <= |text| && !AtOr(text, at) && SeparatorAt(text, end)
            && !(IsSpace(text[at]) || text[at] == ',')
            && t.WellWritten() && IsGap(terms[0].gap) && WellSpaced(terms[1..])
            && TermAt(text, at) == (if t.Overflows() then None else Some(Read(TermOf(t), end)))
            && Stands(text, end, |text|, AlternativesText(terms[0].gap, terms[1..], rest))
  {
    hide TermOf, Written.Overflows, IsGap, Written.WellWritten, WellSpaced, TermAt, SeparatorAt,
         AnyOverflows, Written.Text, AlternativesText, IsSpace, Stands;
    var t, gap := terms[0].term, terms[0].gap;
    var end := at + |t.Text()|;
    FirstSpaced(terms);
    TailSpaced(terms);
    TermStarts(t);
    StandsCut(text, at, |text|, t.Text(), AlternativesText(gap, terms[1..], rest));
    StandsFirst(text, at, end, t.Text());
    TermIsFollowed(text, end, gap, terms[1..], rest);
    GapStops(text, end);
    TermRead(text, at, end, t);
  }

  function GroupsLeft(terms: seq<Spaced>, rest: seq<Alternative>): Option<seq<seq<Term>>>
    requires WellSpaced(terms) && WellSeparated(rest)
  {
    if AnyOverflows(terms) || Overflowing(rest) then None else Some([TermsOf(terms)] + GroupsOf(rest))
  }

  lemma EndRead(text: string, lo: nat, rest: seq<Alternative>)
    requires lo <= |text| && WellSeparated(rest)
    requires if rest == [] then SkipTo(text, lo) == |text|
             else SkipTo(text, lo) + 2 <= |text| && AtOr(text, SkipTo(text, lo)) &&
                  WellSpaced(rest[0].terms) && WellSeparated(rest[1..]) &&
                  GroupsFrom(text, SkipTo(text, lo) + 2) == GroupsLeft(rest[0].terms, rest[1..])
    ensures WellSpaced([]) && GroupsFrom(text, lo) == GroupsLeft([], rest)
  {
    hide TermAt, SeparatorAt, Written.Overflows, IsGap, AnyOverflows, Overflowing, WellSpaced, WellSeparated, SkipTo;
    NoTerms();
    if rest == [] {
      assert [TermsOf([])] + GroupsOf([]) == [[]];
    } else {
      TailSeparated(rest);
    }
  }

  lemma OneTermRead(text: string, lo: nat, end: nat, terms: seq<Spaced>, rest: seq<Alternative>)
    requires lo <= |text| && terms != [] && WellSpaced(terms) && WellSpaced(terms[1..]) && WellSeparated(rest)
    requires var at := SkipTo(text, lo);
             at < end <= |text| && !AtOr(text, at) && SeparatorAt(text, end) &&
             terms[0].term.WellWritten() &&
             TermAt(text, at) == if terms[0].term.Overflows() then None else Some(Read(TermOf(terms[0].term), end))
    requires GroupsFrom(text, end) == GroupsLeft(terms[1..], rest)
    ensures GroupsFrom(text, lo) == GroupsLeft(terms, rest)
  {
    hide TermAt, SeparatorAt, Written.Overflows, IsGap, AnyOverflows, Overflowing, WellSpaced, WellSeparated,
         TermOf, Written.WellWritten, AtOr, SkipTo;
    TailSpaced(terms);
  }

  lemma NothingLeft(text: string, at: nat, rest: seq<Alternative>)
    requires Stands(text, at, |text|, TermsText([]) + Behind(rest))
    ensures if rest == [] then at == |text| else AtOr(text, at)
    ensures at < |text| ==> !(IsSpace(text[at]) || text[at] == ',')
    ensures rest != [] ==>
              at + 2 <= |text| && Stands(text, at + 2, |text|, AlternativesText(rest[0].lead, rest[0].terms, rest[1..]))
  {
    hide AlternativesText, Stands, TermsText, AtOr;
    NoTermsText(Behind(rest));
    if rest == [] {
      StandsFirst(text, at, |text|, "");
    } else {
      StandsCut(text, at, |text|, "||", AlternativesText(rest[0].lead, rest[0].terms, rest[1..]));
      BarRead(text, at);
      BarIsNoGap(text, at);
    }
  }

  lemma NoTermsText(behind: string)
    ensures TermsText([]) + behind == behind
  {
  }

  lemma BarIsNoGap(text: string, at: nat)
    requires AtOr(text, at)
    ensures at + 2 <= |text| && !(IsSpace(text[at]) || text[at] == ',')
  {
  }

  lemma BarRead(text: string, at: nat)
    ensures Stands(text, at, at + 2, "||") <==> AtOr(text, at)
  {
    if Stands(text, at, at + 2, "||") {
      assert text[at] == text[at..at + 2][0] && text[at + 1] == text[at..at + 2][1];
    }
  }

  lemma NoTerms()
    ensures WellSpaced([]) && WellSeparated([])
    ensures !AnyOverflows([]) && !Overflowing([]) && TermsText([]) == "" && TermsOf([]) == [] && GroupsOf([]) == []
  {
  }

  lemma FirstSeparated(c: seq<Alternative>)
    requires WellSeparated(c) && c != []
    ensures IsGap(c[0].lead) && WellSpaced(c[0].terms) && WellSeparated(c[1..])
  {
    hide IsGap, WellSpaced;
  }

  lemma PrependSpaced(t: Written, gap: string, terms: seq<Spaced>) returns (longer: seq<Spaced>)
    requires t.WellWritten() && !t.Overflows() && IsGap(gap) && WellSpaced(terms) && !AnyOverflows(terms)
    requires gap == "" ==> terms == []
    ensures longer == [Spaced(t, gap)] + terms && WellSpaced(longer) && !AnyOverflows(longer)
    ensures TermsOf(longer) == [TermOf(t)] + TermsOf(terms)
  {
    hide TermOf, Written.Overflows, IsGap, Written.WellWritten, TermsOf, AnyOverflows;
    longer := [Spaced(t, gap)] + terms;
    assert longer[1..] == terms;
    TailSpaced(longer);
  }

  lemma PrependAlternative(lead: string, terms: seq<Spaced>, rest: seq<Alternative>)
    returns (longer: seq<Alternative>)
    requires IsGap(lead) && WellSpaced(terms) && WellSeparated(rest) && !AnyOverflows(terms) && !Overflowing(rest)
    ensures longer == [Alternative(lead, terms)] + rest && longer[1..] == rest
    ensures WellSeparated(longer) && !Overflowing(longer)
    ensures GroupsOf(longer) == [TermsOf(terms)] + GroupsOf(rest)
  {
    hide WellSpaced, IsGap, TermsOf, AnyOverflows, Overflowing, GroupsOf;
    longer := [Alternative(lead, terms)] + rest;
    assert longer[1..] == rest;
    TailSeparated(longer);
  }

  /** Whatever the reader accepts is a written constraint without overflow. */
  lemma {:induction false} RestWritten(text: string, lo: nat)
    returns (lead: string, terms: seq<Spaced>, rest: seq<Alternative>)
    requires lo <= |text| && GroupsFrom(text, lo).Some?
    ensures Stands(text, lo, |text|, AlternativesText(lead, terms, rest))
    ensures IsGap(lead) && WellSpaced(terms) && WellSeparated(rest)
    ensures !AnyOverflows(terms) && !Overflowing(rest)
    ensures GroupsFrom(text, lo) == Some([TermsOf(terms)] + GroupsOf(rest))
    ensures SeparatorAt(text, lo) && lead == "" ==> terms == []
    decreases |text| - lo
  {
    hide TermOf, Written.Overflows, IsGap, Written.WellWritten, WellSpaced, WellSeparated, TermAt, SkipTo, AtOr,
         AnyOverflows, Overflowing, Written.Text, AlternativesText, TermsText, GroupsOf, TermsOf, SeparatorAt, Stands;
    var at := SkipTo(text, lo);
    SkippedIsGap(text, lo);
    NoTerms();
    lead := text[lo..at];
    if at < |text| && !AtOr(text, at) {
      var next := TermAt(text, at).value.next;
      var t := TermWritten(text, at);
      var gap, terms1;
      gap, terms1, rest := RestWritten(text, next);
      terms := PrependSpaced(t, gap, terms1);
      TermText(text, lo, at, next, lead, t, gap, terms1, rest);
      NotSeparator(text, lo);
    } else {
      terms, rest := [], [];
      if at < |text| {
        BarRead(text, at);
        StandsBound(text, at, at + 2, "||");
        var lead1, terms1, rest1 := RestWritten(text, at + 2);
        rest := PrependAlternative(lead1, terms1, rest1);
      }
      BarText(text, lo, at, lead, rest);
      OneGroup(GroupsOf(rest));
    }
  }

  lemma OneGroup(groups: seq<seq<Term>>)
    ensures groups == [] ==> [TermsOf([])] + groups == [[]]
  {
  }

  lemma StandsBound(text: string, lo: nat, hi: nat, s: string)
    requires Stands(text, lo, hi, s)
    ensures lo <= hi <= |text|
  {
  }

  lemma NotSeparator(text: string, lo: nat)
    requires lo <= |text|
    requires var at := SkipTo(text, lo);
             at < |text| && !AtOr(text, at) && !(IsSpace(text[at]) || text[at] == ',')
    ensures SeparatorAt(text, lo) ==> text[lo..SkipTo(text, lo)] != ""
  {
  }

  lemma TermText(text: string, lo: nat, at: nat, next: nat, lead: string, t: Written, gap: string,
                 terms: seq<Spaced>, rest: seq<Alternative>)
    requires Stands(text, lo, at, lead) && Stands(text, at, next, t.Text())
    requires Stands(text, next, |text|, AlternativesText(gap, terms, rest))
    ensures Stands(text, lo, |text|, AlternativesText(lead, [Spaced(t, gap)] + terms, rest))
  {
    hide Written.Text, AlternativesText, TermsText, Behind, Stands;
    var longer := [Spaced(t, gap)] + terms;
    assert longer[1..] == terms;
    AlternativeCut(lead, longer, rest);
    StandsJoin(text, at, next, |text|, t.Text(), AlternativesText(gap, terms, rest));
    StandsJoin(text, lo, at, |text|, lead, t.Text() + AlternativesText(gap, terms, rest));
  }

  lemma BarOnly(lead: string, rest: seq<Alternative>)
    ensures AlternativesText(lead, [], rest) == lead + Behind(rest)
  {
    AlternativeIs(lead, [], rest);
    hide AlternativesText, Behind;
    assert lead + "" == lead;
  }

  lemma BarText(text: string, lo: nat, at: nat, lead: string, rest: seq<Alternative>)
    requires Stands(text, lo, at, lead)
    requires if rest == [] then at == |text|
             else Stands(text, at, at + 2, "||") &&
                  Stands(text, at + 2, |text|, AlternativesText(rest[0].lead, rest[0].terms, rest[1..]))
    ensures Stands(text, lo, |text|, AlternativesText(lead, [], rest))
  {
    hide AlternativesText, Stands;
    BarOnly(lead, rest);
    if rest == [] {
      StandsNowhere(text, at);
    } else {
      StandsJoin(text, at, at + 2, |text|, "||", AlternativesText(rest[0].lead, rest[0].terms, rest[1..]));
    }
    StandsJoin(text, lo, at, |text|, lead, Behind(rest));
  }

  // ---- What the public entry points say of a written constraint ----

  lemma NotBlank(c: seq<Alternative>)
    requires IsConstraint(c)
    ensures !AllSpace(ConstraintText(c))
  {
    hide Written.Text, AlternativesText, TermsText, Behind, IsGap, IsSpace;
    FirstSeparated(c);
    FirstSpaced(c[0].terms);
    TermStarts(c[0].terms[0].term);
    AlternativeCut(c[0].lead, c[0].terms, c[1..]);
    assert ConstraintText(c)[|c[0].lead|] == c[0].terms[0].term.Text()[0];
  }

  /** A written constraint of at most 128 characters is accepted exactly when no bound overflows,
      and read as what is written. */
  lemma WrittenIsRead(c: seq<Alternative>)
    requires IsConstraint(c)
    ensures Accepted(Some(ConstraintText(c))) <==> |ConstraintText(c)| <= 128 && !Overflowing(c)
    ensures Accepted(Some(ConstraintText(c))) ==> Groups(Some(ConstraintText(c))) == GroupsOf(c)
  {
    hide AlternativesText, TermOf, Written.Overflows, IsGap, Written.WellWritten, WellSpaced, TermsOf,
         AnyOverflows, Overflowing, GroupsOf, GroupsFrom, AllSpace, Stands;
    var text := ConstraintText(c);
    FirstSeparated(c);
    TailSeparated(c);
    NotBlank(c);
    StandsWhole(text);
    RestRead(text, 0, c[0].lead, c[0].terms, c[1..]);
  }

  /** TryEvaluate accepts exactly the written constraints of at most 128 characters without
      overflow. */
  lemma AcceptedIffWritten(text: string)
    ensures Accepted(Some(text)) <==>
            |text| <= 128 && exists c :: IsConstraint(c) && ConstraintText(c) == text && !Overflowing(c)
  {
    hide AlternativesText, TermOf, Written.Overflows, IsGap, Written.WellWritten, WellSpaced, TermsOf,
         AnyOverflows, Overflowing, GroupsOf, GroupsFrom, AllSpace, Stands;
    if Accepted(Some(text)) {
      StandsWhole(text);
      var lead, terms, rest := RestWritten(text, 0);
      var c := PrependAlternative(lead, terms, rest);
      forall i | 0 <= i < |c| ensures c[i].terms != [] {
        assert GroupsOf(c)[i] == TermsOf(c[i].terms);
        assert Groups(Some(text))[i] != [];
      }
      assert IsConstraint(c) && ConstraintText(c) == text && !Overflowing(c);
    }
    if |text| <= 128 && exists c :: IsConstraint(c) && ConstraintText(c) == text && !Overflowing(c) {
      var c :| IsConstraint(c) && ConstraintText(c) == text && !Overflowing(c);
      WrittenIsRead(c);
    }
  }

  /** ... and finds a match exactly where some alternative's terms all admit the version. */
  lemma EvaluationMeans(c: seq<Alternative>, v: Version)
    requires IsConstraint(c) && |ConstraintText(c)| <= 128 && !Overflowing(c)
    ensures Accepted(Some(ConstraintText(c)))
    ensures SomeGroupMatches(Groups(Some(ConstraintText(c))), v) <==> ConstraintAdmits(c, v)
  {
    hide ConstraintText, TermOf, Overflowing, IsGap, GroupsFrom, AllSpace, TermMatches, Written.Admits,
         Term.Valid, GroupMatches, AllAdmit;
    WrittenIsRead(c);
    var groups := Groups(Some(ConstraintText(c)));
    forall i | 0 <= i < |c| ensures GroupMatches(groups[i], v) <==> AllAdmit(c[i].terms, v) {
      GroupAdmits(c[i].terms, groups[i], v);
    }
  }

  lemma GroupAdmits(terms: seq<Spaced>, group: seq<Term>, v: Version)
    requires WellSpaced(terms) && group == TermsOf(terms) && ValidGroup(group)
    ensures GroupMatches(group, v) <==> AllAdmit(terms, v)
  {
    hide TermOf, TermMatches, Written.Admits, Term.Valid, IsGap;
    forall j | 0 <= j < |terms| ensures TermMatches(group[j], v) <==> terms[j].term.Admits(v) {
      assert group[j] == TermOf(terms[j].term);
      TermAdmits(terms[j].term, v);
    }
  }

  /** What IsMatch answers for a written constraint and a written version. */
  lemma MatchMeans(c: seq<Alternative>, parts: seq<UInt16>)
    requires IsConstraint(c) && 2 <= |parts| <= 4
    ensures var constraint, version := Some(ConstraintText(c)), Dotted(parts, None);
            && 0 < |version| <= 31 && IsVersionText(version)
            && (Accepted(constraint)
                && SomeGroupMatches(Groups(constraint), PartsFrom(version, 0, ZERO, 0).value.version)
                <==> |ConstraintText(c)| <= 128 && !Overflowing(c) && ConstraintAdmits(c, VersionOf(parts)))
  {
    hide ConstraintText, Overflowing, GroupsFrom, AllSpace, ConstraintAdmits, SomeGroupMatches, WellSeparated,
         Dotted, PartsFrom, VersionOf;
    VersionRead(parts);
    VersionShort(parts);
    DottedStarts(parts, None);
    WrittenIsRead(c);
    if |ConstraintText(c)| <= 128 && !Overflowing(c) { EvaluationMeans(c, VersionOf(parts)); }
  }

  /** Normalize's list admits what is written as well. */
  lemma NormalizationMeans(c: seq<Alternative>, ranges: seq<Range>, v: Version)
    requires IsConstraint(c) && Normalizable(Some(ConstraintText(c)))
    requires IsNormalForm(GroupRanges(Groups(Some(ConstraintText(c)))), ranges)
    ensures (exists i :: 0 <= i < |ranges| && ranges[i].IsMatch(v)) <==> ConstraintAdmits(c, v)
  {
    hide ConstraintText, Overflowing, GroupsFrom, AllSpace, IsNormalForm, GroupRanges, Range.IsMatch,
         ConstraintAdmits, SomeGroupMatches, WellSeparated, NoneVoid;
    NormalizeAgreesWithEvaluate(Some(ConstraintText(c)), ranges, v);
    WrittenIsRead(c);
    EvaluationMeans(c, v);
  }

  // ---- Which constraints Normalize refuses ----

  /** A place among the versions: before all of them, at one, or right above one and below the
      next. Normalize refuses an alternative whose terms have no place in common. */
  datatype Place = Lowest | At(v: Version) | RightAbove(v: Version)

  predicate AdmitsPlace(t: Written, p: Place)
    requires t.WellWritten()
  {
    match p
    case Lowest => t.sign in {Sign.Below, Sign.AtMost}
    case At(v) => t.Admits(v)
    case RightAbove(v) =>
      var n, bound := Numbers(v), Filled(t.parts);
      if t.sign in {Sign.Below, Sign.AtMost} then Precedes(n, bound)
      else if t.sign in {Sign.Above, Sign.AtLeast} then Precedes(bound, n) || n == bound
      else (t.wildcard.Some? || t.sign !in {Sign.Plain, Sign.Equal}) && t.Admits(v)
  }

  predicate AllAdmitPlace(terms: seq<Spaced>, p: Place)
    requires WellSpaced(terms)
  {
    forall j :: 0 <= j < |terms| ==> AdmitsPlace(terms[j].term, p)
  }

  /** The terms have a place in common. */
  ghost predicate HavePlace(terms: seq<Spaced>)
    requires WellSpaced(terms)
  {
    exists p :: AllAdmitPlace(terms, p)
  }

  function Point(p: Place): (point: int)
    ensures -1 <= point < 2 * TOP_KEY
  {
    match p case Lowest => -1 case At(v) => 2 * Key(v) case RightAbove(v) => 2 * Key(v) + 1
  }

  lemma PlaceIsCut(t: Written, p: Place)
    requires t.WellWritten() && TermOf(t).Valid()
    ensures InCut(RangeOf(TermOf(t)), Point(p)) <==> AdmitsPlace(t, p)
  {
    hide Key, Version.CompareTo, VersionOf, Numbers, Filled, Precedes, Increment, Written.Shared, Written.Admits;
    var bound := VersionOf(t.parts);
    if p.At? {
      IntervalMatchesTerm(TermOf(t), p.v);
      MatchIsCut(RangeOf(TermOf(t)), p.v);
      TermAdmits(t, p.v);
    } else if p.RightAbove? {
      PrecedesIsOrder(p.v, bound);
      KeyOrder(p.v, bound);
      if TermOf(t).IsBounded() {
        IntervalMatchesTerm(TermOf(t), p.v);
        MatchIsCut(RangeOf(TermOf(t)), p.v);
        TermAdmits(t, p.v);
      }
    }
  }

  predicate AllInCut(group: seq<Term>, point: int)
    requires ValidGroup(group)
  {
    forall j :: 0 <= j < |group| ==> InCut(RangeOf(group[j]), point)
  }

  lemma {:induction false} GroupIsCut(group: seq<Term>, point: int)
    requires ValidGroup(group) && -1 <= point < 2 * TOP_KEY
    ensures GroupRange(group).WellFormed()
    ensures InCut(GroupRange(group), point) <==> AllInCut(group, point)
  {
    hide Key, Term.Valid, RangeOf, Intersect;
    if group != [] {
      var front, last := group[..|group| - 1], group[|group| - 1];
      GroupIsCut(front, point);
      IntersectIsCut(GroupRange(front), RangeOf(last));
      if AllInCut(group, point) {
        forall j | 0 <= j < |front| ensures InCut(RangeOf(front[j]), point) { assert front[j] == group[j]; }
      }
      if AllInCut(front, point) && InCut(RangeOf(last), point) {
        forall j | 0 <= j < |group| ensures InCut(RangeOf(group[j]), point) {
          if j < |front| { assert front[j] == group[j]; }
        }
      }
    }
  }

  /** The first place behind a lower cut. */
  function LowerPlace(r: Range): Place {
    if r.min.None? then Lowest else if r.minInclusive then At(r.min.value) else RightAbove(r.min.value)
  }

  lemma VoidIff(terms: seq<Spaced>, group: seq<Term>)
    requires WellSpaced(terms) && group == TermsOf(terms) && ValidGroup(group)
    ensures !Empty(GroupRange(group)) <==> HavePlace(terms)
  {
    hide TermOf, AdmitsPlace, Term.Valid, IsGap, RangeOf, GroupRange, Empty, Key;
    var range := GroupRange(group);
    EmptyIsCut(range);
    forall p ensures InCut(range, Point(p)) <==> AllAdmitPlace(terms, p) {
      GroupIsCut(group, Point(p));
      forall j | 0 <= j < |terms| ensures InCut(RangeOf(group[j]), Point(p)) <==> AdmitsPlace(terms[j].term, p) {
        assert group[j] == TermOf(terms[j].term);
        PlaceIsCut(terms[j].term, p);
      }
    }
    var lowest := LowerPlace(range);
    assert Point(lowest) == Lo(range);
    if !Empty(range) { assert InCut(range, Point(lowest)); }
  }

  /** Normalize returns exactly on written constraints without overflow, of at most 128
      characters and eight alternatives, each with a place that all its terms admit. */
  lemma NormalizableIff(c: seq<Alternative>)
    requires IsConstraint(c)
    ensures Normalizable(Some(ConstraintText(c))) <==>
            && |ConstraintText(c)| <= 128 && !Overflowing(c) && |c| <= 8
            && forall i :: 0 <= i < |c| ==> HavePlace(c[i].terms)
  {
    hide ConstraintText, TermOf, Overflowing, IsGap, WellSpaced, GroupsFrom, AllSpace, HavePlace, Term.Valid,
         GroupRange, Empty;
    WrittenIsRead(c);
    if Accepted(Some(ConstraintText(c))) {
      var groups := Groups(Some(ConstraintText(c)));
      forall i | 0 <= i < |c| ensures !Empty(GroupRange(groups[i])) <==> HavePlace(c[i].terms) {
        VoidIff(c[i].terms, groups[i]);
      }
    }
  }
}
