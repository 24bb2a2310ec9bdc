/** When the memoised searches answer exactly. */
module TransactionReachExact {
  import opened Wrappers
  import opened CallGraph
  import opened TransactionReach

  function ProgramGraph(p: Program): Graph { GraphOf(Skeleton(p)) }

  lemma {:induction false} CallsOfHas(targets: seq<Target>, c: Method)
    ensures c in CallsOf(targets) <==> Call(c) in targets
  {
    if targets != [] { CallsOfHas(targets[1..], c); }
  }

  lemma ProgramEdge(p: Program, a: Method, b: Method)
    ensures Edge(ProgramGraph(p), a, b) <==> a < |p| && Call(b) in p[a]
  {
    if a < |p| { CallsOfHas(p[a], b); }
  }

  /** Instruction `i` of method `m` leads to a mark other than by recursion into `m`. */
  ghost predicate Answers(p: Program, q: Question, m: Method, i: nat)
    requires m < |p| && i < |p[m]|
  {
    Marks(p[m][i], q) || (p[m][i].Call? && p[m][i].callee != m && Hits(p, q, p[m][i].callee))
  }

  ghost predicate AnswersFrom(p: Program, q: Question, m: Method, k: nat)
    requires m < |p|
  {
    exists i :: k <= i < |p[m]| && Answers(p, q, m, i)
  }

  lemma CallHits(p: Program, q: Question, m: Method, i: nat)
    requires m < |p| && i < |p[m]| && p[m][i].Call? && Hits(p, q, p[m][i].callee)
    ensures Hits(p, q, m)
  {
    hide Reach;
    var c := p[m][i].callee;
    var r :| ReachOrSame(ProgramGraph(p), c, r) && HasMark(p, q, r);
    ProgramEdge(p, m, c);
    ReachPrepends(ProgramGraph(p), m, c, r);
    assert ReachOrSame(ProgramGraph(p), m, r);
  }

  lemma MarkHits(p: Program, q: Question, m: Method, i: nat)
    requires m < |p| && i < |p[m]| && Marks(p[m][i], q)
    ensures Hits(p, q, m)
  {
    assert ReachOrSame(ProgramGraph(p), m, m) && HasMark(p, q, m);
  }

  /** A method reaches a mark by its own instructions, its self-calls aside. */
  lemma HitsStep(p: Program, q: Question, m: Method)
    requires m < |p|
    ensures Hits(p, q, m) <==> AnswersFrom(p, q, m, 0)
  {
    hide Reach, Hits;
    if AnswersFrom(p, q, m, 0) {
      var i :| 0 <= i < |p[m]| && Answers(p, q, m, i);
      if Marks(p[m][i], q) { MarkHits(p, q, m, i); } else { CallHits(p, q, m, i); }
    }
    if Hits(p, q, m) {
      var r := Hit(p, q, m);
      if r == m {
        var i :| 0 <= i < |p[m]| && Marks(p[m][i], q);
        assert Answers(p, q, m, i);
      } else {
        var c := LeavesBy(ProgramGraph(p), m, r);
        ProgramEdge(p, m, c);
        var i :| 0 <= i < |p[m]| && p[m][i] == Call(c);
        HitFrom(p, q, c, r);
        assert Answers(p, q, m, i);
      }
    }
  }

  lemma Hit(p: Program, q: Question, m: Method) returns (r: Method)
    requires Hits(p, q, m)
    ensures ReachOrSame(ProgramGraph(p), m, r) && HasMark(p, q, r)
  {
    hide Reach;
    r :| ReachOrSame(ProgramGraph(p), m, r) && HasMark(p, q, r);
  }

  lemma HitFrom(p: Program, q: Question, m: Method, r: Method)
    requires ReachOrSame(ProgramGraph(p), m, r) && HasMark(p, q, r)
    ensures Hits(p, q, m)
  {
    hide Reach;
  }

  /** The call by which a walk to somewhere else leaves `m` for good. */
  lemma LeavesBy(g: Graph, m: Method, r: Method) returns (c: Method)
    requires Reach(g, m, r) && m != r
    ensures c != m && Edge(g, m, c) && ReachOrSame(g, c, r)
  {
    var w :| |w| >= 2 && WalkFromTo(g, w, m, r);
    var i := 0;
    while w[i + 1] == m
      invariant 0 <= i < |w| - 1 && w[i] == m
      decreases |w| - i
    {
      i := i + 1;
    }
    c := w[i + 1];
    assert Edge(g, w[i], w[i + 1]);
    var v := w[i + 1..];
    if |v| >= 2 {
      forall j | 0 < j < |v|
        ensures Edge(g, v[j - 1], v[j])
      {
        assert Edge(g, w[i + j], w[i + j + 1]);
      }
      assert WalkFromTo(g, v, c, r);
    }
  }

  // ---- True answers are true ----

  ghost predicate Sound(p: Program, q: Question, memo: map<Method, bool>) {
    forall m :: m in memo && memo[m] ==> Hits(p, q, m)
  }

  lemma SoundGrows(p: Program, q: Question, memo: map<Method, bool>, m: Method, hit: bool)
    requires Sound(p, q, memo) && (hit ==> Hits(p, q, m))
    ensures Sound(p, q, memo[m := hit])
  {
    hide Hits;
  }

  /** On any graph and after any queries, a true answer is right. */
  lemma {:induction false} SearchSound(p: Program, q: Question, m: Method, memo: map<Method, bool>, active: set<Method>)
    requires Valid(p) && m < |p| && Sound(p, q, memo)
    ensures var r := Search(p, q, m, memo, active); Sound(p, q, r.memo) && (r.hit ==> Hits(p, q, m))
    decreases Universe(p) - active, 0, 0
  {
    hide Hits;
    if m !in memo && m !in active {
      assert m in Universe(p) - active;
      assert p[m][0..] == p[m];
      CallsSound(p, q, m, 0, memo, active + {m});
      var r := SearchCalls(p, q, p[m], memo, active + {m});
      SoundGrows(p, q, r.memo, m, r.hit);
    }
  }

  lemma {:induction false} CallsSound(p: Program, q: Question, c: Method, k: nat, memo: map<Method, bool>,
                                      active: set<Method>)
    requires Valid(p) && c < |p| && k <= |p[c]| && Sound(p, q, memo)
    ensures var r := SearchCalls(p, q, p[c][k..], memo, active); Sound(p, q, r.memo) && (r.hit ==> Hits(p, q, c))
    decreases Universe(p) - active, 1, |p[c]| - k
  {
    hide Hits;
    if k < |p[c]| {
      var targets := p[c][k..];
      assert targets[1..] == p[c][k + 1..];
      var memo' := memo;
      if targets[0].Call? {
        SearchSound(p, q, targets[0].callee, memo, active);
        var here := Search(p, q, targets[0].callee, memo, active);
        memo' := here.memo;
        if here.hit { CallHits(p, q, c, k); }
      } else if Marks(targets[0], q) {
        MarkHits(p, q, c, k);
      }
      CallsSound(p, q, c, k + 1, memo', active);
    }
  }

  // ---- Every answer is exact without mutual recursion ----

  ghost predicate Exact(p: Program, q: Question, memo: map<Method, bool>, active: set<Method>) {
    && (forall m :: m in memo ==> (memo[m] <==> Hits(p, q, m)))
    && (forall m :: m in active ==> m !in memo)
  }

  ghost predicate AllReach(p: Program, active: set<Method>, c: Method) {
    forall a :: a in active ==> ReachOrSame(ProgramGraph(p), a, c)
  }

  lemma {:induction false} SearchExact(p: Program, q: Question, m: Method, memo: map<Method, bool>, active: set<Method>)
    requires Valid(p) && Simple(ProgramGraph(p)) && m < |p| && m !in active
    requires Exact(p, q, memo, active) && AllReach(p, active, m)
    ensures var r := Search(p, q, m, memo, active); Exact(p, q, r.memo, active) && (r.hit <==> Hits(p, q, m))
    decreases Universe(p) - active, 0, 0
  {
    hide Hits, Reach, Simple, AnswersFrom;
    if m !in memo {
      assert m in Universe(p) - active;
      assert p[m][0..] == p[m];
      CallsExact(p, q, m, 0, memo, active + {m});
      HitsStep(p, q, m);
    }
  }

  lemma {:induction false} CallsExact(p: Program, q: Question, c: Method, k: nat, memo: map<Method, bool>,
                                      active: set<Method>)
    requires Valid(p) && Simple(ProgramGraph(p)) && c < |p| && k <= |p[c]| && c in active
    requires Exact(p, q, memo, active) && AllReach(p, active, c)
    ensures var r := SearchCalls(p, q, p[c][k..], memo, active);
            Exact(p, q, r.memo, active) && (r.hit <==> AnswersFrom(p, q, c, k))
    decreases Universe(p) - active, 1, |p[c]| - k
  {
    hide Hits, Reach, Simple, Exact, AllReach;
    if k < |p[c]| {
      var targets := p[c][k..];
      assert targets[1..] == p[c][k + 1..];
      var here :=
        if targets[0].Call? then Search(p, q, targets[0].callee, memo, active) else Found(Marks(targets[0], q), memo);
      if targets[0].Call? {
        var d := targets[0].callee;
        if d == c {
          ActiveUnknown(p, q, memo, active, c);
        } else {
          CalleeInactive(p, active, c, k);
          SearchExact(p, q, d, memo, active);
        }
      }
      assert here.hit <==> Answers(p, q, c, k);
      CallsExact(p, q, c, k + 1, here.memo, active);
    }
  }

  lemma ActiveUnknown(p: Program, q: Question, memo: map<Method, bool>, active: set<Method>, c: Method)
    requires Exact(p, q, memo, active) && c in active
    ensures c !in memo
  {
    hide Hits;
  }

  lemma CalleeInactive(p: Program, active: set<Method>, c: Method, k: nat)
    requires c < |p| && k < |p[c]| && p[c][k].Call? && p[c][k].callee != c
    requires Simple(ProgramGraph(p)) && AllReach(p, active, c)
    ensures p[c][k].callee !in active && AllReach(p, active, p[c][k].callee)
  {
    hide Reach;
    var d := p[c][k].callee;
    ProgramEdge(p, c, d);
    EdgeReaches(ProgramGraph(p), c, d);
    forall a | a in active
      ensures ReachOrSame(ProgramGraph(p), a, d)
    {
      ReachExtends(ProgramGraph(p), a, c, d);
    }
  }

  // ---- The whole validation ----

  predicate InTable(p: Program, order: seq<Method>) { forall k :: 0 <= k < |order| ==> order[k] < |p| }

  ghost predicate Conflict(p: Program, m: Method) { Hits(p, Control, m) && Hits(p, Output, m) }

  /** The outcome the check is for: it throws exactly on a conflict, and otherwise flags exactly
      the methods that reach transaction control. */
  ghost predicate Faithful(p: Program, order: seq<Method>)
    requires Valid(p) && InTable(p, order)
  {
    var outcome := Outcome(p, order, map[], map[], {});
    && (outcome.None? <==> exists m :: m in order && Conflict(p, m))
    && (outcome.Some? ==> forall m :: m in outcome.value <==> m in order && Hits(p, Control, m))
  }

  lemma {:induction false} OutcomeExact(p: Program, order: seq<Method>, controls: map<Method, bool>,
                                        effects: map<Method, bool>, flagged: set<Method>)
    requires Valid(p) && Simple(ProgramGraph(p)) && InTable(p, order)
    requires Exact(p, Control, controls, {}) && Exact(p, Output, effects, {})
    ensures var outcome := Outcome(p, order, controls, effects, flagged);
            && (outcome.None? <==> exists m :: m in order && Conflict(p, m))
            && (outcome.Some? ==>
                  forall m :: m in outcome.value <==> m in flagged || (m in order && Hits(p, Control, m)))
  {
    hide Hits, Reach, Simple, Exact, Search;
    if order != [] {
      var first, rest := order[0], order[1..];
      assert AllReach(p, {}, first);
      SearchExact(p, Control, first, controls, {});
      SearchExact(p, Output, first, effects, {});
      var control, output := Search(p, Control, first, controls, {}), Search(p, Output, first, effects, {});
      assert forall m :: m in order <==> m == first || m in rest;
      if !control.hit {
        OutcomeExact(p, rest, control.memo, effects, flagged);
      } else if !output.hit {
        OutcomeExact(p, rest, control.memo, output.memo, flagged + {first});
      } else {
        assert Conflict(p, first);
      }
    }
  }

  /** Nothing is rejected or flagged without cause, whatever the graph. */
  lemma {:induction false} OutcomeSound(p: Program, order: seq<Method>, controls: map<Method, bool>,
                                        effects: map<Method, bool>, flagged: set<Method>)
    requires Valid(p) && InTable(p, order) && Sound(p, Control, controls) && Sound(p, Output, effects)
    ensures var outcome := Outcome(p, order, controls, effects, flagged);
            && (outcome.None? ==> exists m :: m in order && Conflict(p, m))
            && (outcome.Some? ==> forall m :: m in outcome.value ==>
                  m in flagged || (m in order && Hits(p, Control, m)))
  {
    hide Hits, Sound, Search;
    if order != [] {
      var first, rest := order[0], order[1..];
      SearchSound(p, Control, first, controls, {});
      SearchSound(p, Output, first, effects, {});
      var control, output := Search(p, Control, first, controls, {}), Search(p, Output, first, effects, {});
      assert forall m :: m in order <==> m == first || m in rest;
      if !control.hit {
        OutcomeSound(p, rest, control.memo, effects, flagged);
      } else if !output.hit {
        OutcomeSound(p, rest, control.memo, output.memo, flagged + {first});
      } else {
        assert Conflict(p, first);
      }
    }
  }

  // ---- Mutual recursion breaks it ----

  predicate Closed(s: seq<seq<Method>>) { forall m, i :: 0 <= m < |s| && 0 <= i < |s[m]| ==> s[m][i] < |s| }

  function CallAll(ms: seq<Method>): seq<Target> { seq(|ms|, i requires 0 <= i < |ms| => Call(ms[i])) }

  function Body(s: seq<seq<Method>>, a: Method, m: Method): seq<Target>
    requires m < |s|
  {
    CallAll(s[m]) + (if m == a then [Member(true, false)] else [])
  }

  /** The program with these calls in which only `a`, after its calls, controls a transaction. */
  function Marked(s: seq<seq<Method>>, a: Method): Program { seq(|s|, m requires 0 <= m < |s| => Body(s, a, m)) }

  lemma {:induction false} CallsOfCallAll(ms: seq<Method>, rest: seq<Target>)
    requires CallsOf(rest) == []
    ensures CallsOf(CallAll(ms) + rest) == ms
  {
    if ms == [] {
      assert CallAll(ms) + rest == rest;
    } else {
      CallsOfCallAll(ms[1..], rest);
      assert (CallAll(ms) + rest)[1..] == CallAll(ms[1..]) + rest;
      assert ms == [ms[0]] + ms[1..];
    }
  }

  lemma MarkedSkeleton(s: seq<seq<Method>>, a: Method)
    requires Closed(s)
    ensures Valid(Marked(s, a)) && Skeleton(Marked(s, a)) == s
  {
    var p := Marked(s, a);
    forall m | 0 <= m < |s|
      ensures InRange(p[m], |p|) && CallsOf(p[m]) == s[m]
    {
      var mark := if m == a then [Member(true, false)] else [];
      assert CallsOf(mark) == [] by { if m == a { assert mark[1..] == []; } }
      CallsOfCallAll(s[m], mark);
    }
    assert Skeleton(p) == s;
  }

  /** Nothing found yet, and `a` still open. */
  predicate Barren(memo: map<Method, bool>, a: Method) { a !in memo && forall m :: m in memo ==> !memo[m] }

  lemma BarrenGrows(memo: map<Method, bool>, a: Method, m: Method)
    requires Barren(memo, a) && m != a
    ensures Barren(memo[m := false], a)
  {
  }

  /** While `a` is being searched, every other method is recorded as reaching nothing. */
  lemma {:induction false} SearchBarren(s: seq<seq<Method>>, a: Method, m: Method, memo: map<Method, bool>,
                                        active: set<Method>)
    requires Closed(s) && Valid(Marked(s, a)) && m < |s| && a in active && Barren(memo, a)
    ensures var r := Search(Marked(s, a), Control, m, memo, active);
            && !r.hit && Barren(r.memo, a) && memo.Keys <= r.memo.Keys && (m !in active ==> m in r.memo)
    decreases Universe(Marked(s, a)) - active, 0, 0
  {
    hide Marked;
    if m !in memo && m !in active {
      var p := Marked(s, a);
      MarkedBody(s, a, m);
      assert m in Universe(p) - active;
      assert p[m][0..] == p[m];
      CallsBarren(s, a, m, 0, memo, active + {m});
      BarrenGrows(SearchCalls(p, Control, p[m], memo, active + {m}).memo, a, m);
    }
  }

  lemma MarkedBody(s: seq<seq<Method>>, a: Method, m: Method)
    requires Closed(s) && m < |s|
    ensures |Marked(s, a)| == |s| && Marked(s, a)[m] == Body(s, a, m)
  {
  }

  lemma {:induction false} CallsBarren(s: seq<seq<Method>>, a: Method, c: Method, k: nat, memo: map<Method, bool>,
                                       active: set<Method>)
    requires Closed(s) && Valid(Marked(s, a)) && c < |s| && c != a && |Marked(s, a)| == |s| && k <= |Marked(s, a)[c]|
    requires a in active && Barren(memo, a)
    ensures var p := Marked(s, a);
            var r := SearchCalls(p, Control, p[c][k..], memo, active);
            !r.hit && Barren(r.memo, a) && memo.Keys <= r.memo.Keys
    decreases Universe(Marked(s, a)) - active, 1, |Marked(s, a)[c]| - k
  {
    hide Marked;
    var p := Marked(s, a);
    MarkedBody(s, a, c);
    if k < |p[c]| {
      assert p[c][k] == Call(s[c][k]);
      assert p[c][k..][1..] == p[c][k + 1..];
      SearchBarren(s, a, s[c][k], memo, active);
      CallsBarren(s, a, c, k + 1, Search(p, Control, s[c][k], memo, active).memo, active);
    }
  }

  /** Searching `a` itself: the mark is found last, and every callee is settled as false. */
  lemma {:induction false} CallsOfMarked(s: seq<seq<Method>>, a: Method, k: nat, memo: map<Method, bool>,
                                         active: set<Method>)
    requires Closed(s) && Valid(Marked(s, a)) && a < |s| && |Marked(s, a)| == |s| && k <= |s[a]| && Barren(memo, a)
    requires Marked(s, a)[a] == Body(s, a, a) && a in active
    ensures var p := Marked(s, a);
            var r := SearchCalls(p, Control, p[a][k..], memo, active);
            && r.hit && Barren(r.memo, a) && memo.Keys <= r.memo.Keys
            && (forall i :: k <= i < |s[a]| && s[a][i] !in active ==> s[a][i] in r.memo)
    decreases |s[a]| - k
  {
    hide Marked;
    var p := Marked(s, a);
    var targets := p[a][k..];
    if k < |s[a]| {
      assert targets[0] == Call(s[a][k]);
      assert targets[1..] == p[a][k + 1..];
      SearchBarren(s, a, s[a][k], memo, active);
      CallsOfMarked(s, a, k + 1, Search(p, Control, s[a][k], memo, active).memo, active);
    } else {
      assert targets == [Member(true, false)];
    }
  }

  lemma NoOutput(s: seq<seq<Method>>, a: Method, m: Method)
    ensures !Hits(Marked(s, a), Output, m)
  {
  }

  // ---- What is recorded stays recorded ----

  ghost predicate Keeps(memo: map<Method, bool>, later: map<Method, bool>) {
    forall m :: m in memo ==> m in later && later[m] == memo[m]
  }

  lemma {:induction false} SearchKeeps(p: Program, q: Question, m: Method, memo: map<Method, bool>, active: set<Method>)
    requires Valid(p) && m < |p|
    ensures Keeps(memo, Search(p, q, m, memo, active).memo)
    decreases Universe(p) - active, 0, 0
  {
    if m !in memo && m !in active {
      assert m in Universe(p) - active;
      CallsKeep(p, q, p[m], memo, active + {m});
    }
  }

  lemma {:induction false} CallsKeep(p: Program, q: Question, targets: seq<Target>, memo: map<Method, bool>,
                                     active: set<Method>)
    requires Valid(p) && InRange(targets, |p|)
    ensures Keeps(memo, SearchCalls(p, q, targets, memo, active).memo)
    decreases Universe(p) - active, 1, |targets|
  {
    if targets != [] {
      var memo' := memo;
      if targets[0].Call? {
        SearchKeeps(p, q, targets[0].callee, memo, active);
        memo' := Search(p, q, targets[0].callee, memo, active).memo;
      }
      CallsKeep(p, q, targets[1..], memo', active);
    }
  }

  /** A method recorded as reaching no control is never flagged later. */
  lemma {:induction false} NeverFlagged(p: Program, order: seq<Method>, controls: map<Method, bool>,
                                        effects: map<Method, bool>,
                                        flagged: set<Method>, b: Method)
    requires Valid(p) && InTable(p, order) && b in controls && !controls[b] && b !in flagged
    ensures var outcome := Outcome(p, order, controls, effects, flagged); outcome.Some? ==> b !in outcome.value
  {
    hide Search, Keeps;
    if order != [] {
      var first, rest := order[0], order[1..];
      SearchKeeps(p, Control, first, controls, {});
      var control := Search(p, Control, first, controls, {});
      KeptEntry(controls, control.memo, b);
      if first == b { KnownSearch(p, Control, b, controls, {}); }
      if !control.hit {
        NeverFlagged(p, rest, control.memo, effects, flagged, b);
      } else {
        var output := Search(p, Output, first, effects, {});
        NeverFlagged(p, rest, control.memo, output.memo, flagged + {first}, b);
      }
    }
  }

  lemma KeptEntry(memo: map<Method, bool>, later: map<Method, bool>, b: Method)
    requires Keeps(memo, later) && b in memo
    ensures b in later && later[b] == memo[b]
  {
  }

  // ---- The first method of a cycle that a search enters ----

  /** Every member has another one among its callees. */
  predicate IsRing(s: seq<seq<Method>>, ring: set<Method>) {
    forall x :: x in ring ==> StaysIn(s, ring, x)
  }

  predicate StaysIn(s: seq<seq<Method>>, ring: set<Method>, x: Method) {
    x < |s| && exists i :: 0 <= i < |s[x]| && s[x][i] in ring && s[x][i] != x
  }

  /** No search has come to the ring, or found anything. */
  predicate Outside(ring: set<Method>, memo: map<Method, bool>, active: set<Method>) {
    (forall m :: m in memo ==> m !in ring && !memo[m]) && active !! ring
  }

  /** Another member than `a` is recorded as reaching nothing. */
  ghost predicate Misled(ring: set<Method>, a: Method, memo: map<Method, bool>) {
    exists b :: b in ring && b != a && b in memo && !memo[b]
  }

  lemma MisledKept(ring: set<Method>, a: Method, memo: map<Method, bool>, later: map<Method, bool>)
    requires Misled(ring, a, memo) && Keeps(memo, later)
    ensures Misled(ring, a, later)
  {
    var b :| b in ring && b != a && b in memo && !memo[b];
    KeptEntry(memo, later, b);
  }

  /** Entering the ring at `a`, with the mark in `a`. */
  lemma EntersAt(s: seq<seq<Method>>, ring: set<Method>, a: Method, memo: map<Method, bool>, active: set<Method>)
    requires Closed(s) && Valid(Marked(s, a)) && IsRing(s, ring) && a in ring && Outside(ring, memo, active)
    requires |Marked(s, a)| == |s| && a < |s|
    ensures Misled(ring, a, Search(Marked(s, a), Control, a, memo, active).memo)
  {
    hide Marked, Closed, Search, SearchCalls, Body, IsRing, Outside, Barren;
    var p := Marked(s, a);
    MarkedBody(s, a, a);
    assert p[a][0..] == p[a];
    OutsideBarren(ring, a, memo, active);
    CallsOfMarked(s, a, 0, memo, active + {a});
    var i := CalleeInRing(s, ring, a, active, memo);
    BarrenFalse(SearchCalls(p, Control, p[a], memo, active + {a}).memo, a, s[a][i]);
    EnteredMemo(p, a, memo, active, s[a][i]);
    assert s[a][i] in Search(p, Control, a, memo, active).memo;
  }

  lemma OutsideBarren(ring: set<Method>, a: Method, memo: map<Method, bool>, active: set<Method>)
    requires a in ring && Outside(ring, memo, active)
    ensures Barren(memo, a) && a !in active && a !in memo
  {
  }

  lemma BarrenFalse(memo: map<Method, bool>, a: Method, b: Method)
    requires Barren(memo, a) && b in memo
    ensures !memo[b]
  {
  }

  lemma CalleeInRing(s: seq<seq<Method>>, ring: set<Method>, a: Method, active: set<Method>, memo: map<Method, bool>)
    returns (i: nat)
    requires IsRing(s, ring) && a in ring && Outside(ring, memo, active)
    ensures a < |s| && i < |s[a]| && s[a][i] in ring && s[a][i] != a && s[a][i] !in active + {a}
  {
    assert StaysIn(s, ring, a);
    i :| 0 <= i < |s[a]| && s[a][i] in ring && s[a][i] != a;
  }

  lemma EnteredMemo(p: Program, a: Method, memo: map<Method, bool>, active: set<Method>, b: Method)
    requires Valid(p) && a < |p| && a !in memo && a !in active && b != a
    requires b in SearchCalls(p, Control, p[a], memo, active + {a}).memo
    ensures var found := Search(p, Control, a, memo, active).memo;
            b in found && found[b] == SearchCalls(p, Control, p[a], memo, active + {a}).memo[b]
  {
    hide SearchCalls;
  }

  /** A search either stays out of the ring, with the same result wherever the mark is, or says where it
      enters first: then the mark there misleads it. */
  lemma {:induction false} EntersRing(s: seq<seq<Method>>, ring: set<Method>, m: Method, memo: map<Method, bool>,
                                      active: set<Method>) returns (entry: Option<Method>, after: map<Method, bool>)
    requires Closed(s) && IsRing(s, ring) && m < |s| && Outside(ring, memo, active)
    requires forall x :: x in ring ==> Valid(Marked(s, x)) && |Marked(s, x)| == |s|
    ensures m in ring ==> entry == Some(m)
    ensures entry.None? ==>
              && Outside(ring, after, active)
              && forall x :: x in ring ==> Search(Marked(s, x), Control, m, memo, active) == Found(false, after)
    ensures entry.Some? ==>
              && entry.value in ring
              && Misled(ring, entry.value, Search(Marked(s, entry.value), Control, m, memo, active).memo)
    decreases Indices(|s|) - active, 0, 0
  {
    hide Marked, Misled;
    entry, after := None, memo;
    if m in ring {
      EntersAt(s, ring, m, memo, active);
      entry := Some(m);
    } else if m !in memo && m !in active {
      assert m in Indices(|s|) - active;
      entry, after := EntersByCalls(s, ring, m, 0, memo, active + {m});
      if entry.None? {
        forall x | x in ring
          ensures Search(Marked(s, x), Control, m, memo, active) == Found(false, after[m := false])
        {
          assert Marked(s, x)[m][0..] == Marked(s, x)[m];
        }
        after := after[m := false];
      } else {
        var p := Marked(s, entry.value);
        assert p[m][0..] == p[m];
        var r := SearchCalls(p, Control, p[m], memo, active + {m});
        RecordedOutside(ring, entry.value, r.memo, m, r.hit);
      }
    }
  }

  lemma RecordedOutside(ring: set<Method>, a: Method, memo: map<Method, bool>, m: Method, hit: bool)
    requires Misled(ring, a, memo) && m !in ring
    ensures Misled(ring, a, memo[m := hit])
  {
    var b :| b in ring && b != a && b in memo && !memo[b];
    assert b in memo[m := hit] && !memo[m := hit][b];
  }

  lemma {:induction false} EntersByCalls(s: seq<seq<Method>>, ring: set<Method>, c: Method, k: nat,
                                         memo: map<Method, bool>, active: set<Method>)
    returns (entry: Option<Method>, after: map<Method, bool>)
    requires Closed(s) && IsRing(s, ring) && c < |s| && c !in ring && k <= |s[c]| && Outside(ring, memo, active)
    requires forall x :: x in ring ==> Valid(Marked(s, x)) && |Marked(s, x)| == |s|
    ensures forall x :: x in ring ==> |Marked(s, x)[c]| == |s[c]|
    ensures entry.None? ==>
              && Outside(ring, after, active)
              && forall x :: x in ring ==>
                   SearchCalls(Marked(s, x), Control, Marked(s, x)[c][k..], memo, active) == Found(false, after)
    ensures entry.Some? ==>
              && entry.value in ring
              && var p := Marked(s, entry.value);
                 Misled(ring, entry.value, SearchCalls(p, Control, p[c][k..], memo, active).memo)
    decreases Indices(|s|) - active, 1, |s[c]| - k
  {
    hide Marked, Misled, Search;
    entry, after := None, memo;
    forall x | x in ring
      ensures Marked(s, x)[c] == CallAll(s[c])
    {
      MarkedBody(s, x, c);
      assert CallAll(s[c]) + [] == CallAll(s[c]);
    }
    if k < |s[c]| {
      var all := CallAll(s[c]);
      assert all[k..][0] == Call(s[c][k]) && all[k..][1..] == all[k + 1..];
      entry, after := EntersRing(s, ring, s[c][k], memo, active);
      if entry.None? {
        entry, after := EntersByCalls(s, ring, c, k + 1, after, active);
      } else {
        var p := Marked(s, entry.value);
        var here := Search(p, Control, s[c][k], memo, active);
        CallsKeep(p, Control, all[k + 1..], here.memo, active);
        MisledKept(ring, entry.value, here.memo, SearchCalls(p, Control, all[k + 1..], here.memo, active).memo);
      }
    }
  }

  /** Whatever the order of the rows, some member of the ring can be marked so that another is never
      flagged. */
  lemma {:induction false} RowsMislead(s: seq<seq<Method>>, ring: set<Method>, order: seq<Method>,
                                       memo: map<Method, bool>, effects: map<Method, bool>)
    returns (a: Method, b: Method)
    requires Closed(s) && IsRing(s, ring) && Outside(ring, memo, {})
    requires forall x :: x in ring ==> Valid(Marked(s, x)) && |Marked(s, x)| == |s|
    requires (forall k :: 0 <= k < |order| ==> order[k] < |s|) && exists m :: m in order && m in ring
    ensures a in ring && b in ring && b != a
    ensures var outcome := Outcome(Marked(s, a), order, memo, effects, {}); outcome.Some? ==> b !in outcome.value
    decreases |order|
  {
    hide Marked, Search, Closed, IsRing, Outside, Misled;
    var first, rest := order[0], order[1..];
    var entry, after := EntersRing(s, ring, first, memo, {});
    if entry.None? {
      assert forall m :: m in order ==> m == first || m in rest;
      a, b := RowsMislead(s, ring, rest, after, effects);
    } else {
      a := entry.value;
      b := MisledRow(s, ring, a, order, memo, effects);
    }
  }

  /** The first row enters the ring at `a`: then nothing behind it mends the memo. */
  lemma MisledRow(s: seq<seq<Method>>, ring: set<Method>, a: Method, order: seq<Method>, memo: map<Method, bool>,
                  effects: map<Method, bool>) returns (b: Method)
    requires Valid(Marked(s, a)) && |Marked(s, a)| == |s| && order != []
    requires (forall k :: 0 <= k < |order| ==> order[k] < |s|) && (order[0] in ring ==> order[0] == a)
    requires Misled(ring, a, Search(Marked(s, a), Control, order[0], memo, {}).memo)
    ensures b in ring && b != a
    ensures var outcome := Outcome(Marked(s, a), order, memo, effects, {}); outcome.Some? ==> b !in outcome.value
  {
    hide Marked, Search;
    var p, first, rest := Marked(s, a), order[0], order[1..];
    var control := Search(p, Control, first, memo, {});
    b :| b in ring && b != a && b in control.memo && !control.memo[b];
    NeverFlagged(p, rest, control.memo, effects, {}, b);
    NeverFlagged(p, rest, control.memo, Search(p, Output, first, effects, {}).memo, {} + {first}, b);
  }

  /** The methods on cycles through `a`. */
  ghost function RingOf(s: seq<seq<Method>>, a: Method): (ring: set<Method>)
    ensures forall m: Method :: m in ring <==> m < |s| && Reach(GraphOf(s), a, m) && Reach(GraphOf(s), m, a)
  {
    set m | m in Indices(|s|) && Reach(GraphOf(s), a, m) && Reach(GraphOf(s), m, a)
  }

  lemma RingCalls(s: seq<seq<Method>>, a: Method, b: Method, x: Method)
    requires Closed(s) && Reach(GraphOf(s), a, b) && Reach(GraphOf(s), b, a) && a != b && x in RingOf(s, a)
    ensures StaysIn(s, RingOf(s, a), x)
  {
    hide Reach;
    var g := GraphOf(s);
    var r := if x == a then b else a;
    var c := LeavesBy(g, x, r);
    ClosedCallee(s, x, c);
    EdgeReaches(g, x, c);
    ReachJoins(g, a, x, c);
    ReachJoins(g, a, b, a);
    if x == a && c != b { ReachJoins(g, c, b, a); }
    assert c in RingOf(s, a);
    var i :| 0 <= i < |s[x]| && s[x][i] == c;
  }

  lemma RingIsRing(s: seq<seq<Method>>, a: Method, b: Method)
    requires Closed(s) && Reach(GraphOf(s), a, b) && Reach(GraphOf(s), b, a) && a != b
    ensures IsRing(s, RingOf(s, a))
  {
    hide Reach;
    var ring := RingOf(s, a);
    forall x | x in ring
      ensures StaysIn(s, ring, x)
    {
      RingCalls(s, a, b, x);
    }
  }

  /** When methods call each other in a cycle, every table with these calls, in whatever order, can have
      a mark that misleads it: a method that reaches control is not flagged, though nothing conflicts. */
  lemma CycleMisleads(s: seq<seq<Method>>, a: Method, b: Method, order: seq<Method>) returns (x: Method)
    requires Closed(s) && Reach(GraphOf(s), a, b) && Reach(GraphOf(s), b, a) && a != b
    requires (forall k :: 0 <= k < |order| ==> order[k] < |s|) && forall m :: 0 <= m < |s| ==> m in order
    ensures x < |s| && Valid(Marked(s, x)) && Skeleton(Marked(s, x)) == s && InTable(Marked(s, x), order)
    ensures !Faithful(Marked(s, x), order)
  {
    hide Reach, Hits, Marked, Search, SearchCalls, Outcome;
    var ring := RingOf(s, a);
    forall y | y in ring
      ensures Valid(Marked(s, y)) && |Marked(s, y)| == |s|
    {
      MarkedSkeleton(s, y);
      MarkedBody(s, y, y);
    }
    RingIsRing(s, a, b);
    var c := LeavesBy(GraphOf(s), a, b);
    ClosedCallee(s, a, c);
    ReachJoins(GraphOf(s), a, b, a);
    assert a in ring && a in order;
    var y;
    x, y := RowsMislead(s, ring, order, map[], map[]);
    MarkedSkeleton(s, x);
    Unflagged(s, a, x, y, order);
  }

  lemma Unflagged(s: seq<seq<Method>>, a: Method, x: Method, y: Method, order: seq<Method>)
    requires Closed(s) && x in RingOf(s, a) && y in RingOf(s, a) && y in order
    requires Valid(Marked(s, x)) && Skeleton(Marked(s, x)) == s && InTable(Marked(s, x), order)
    requires var outcome := Outcome(Marked(s, x), order, map[], map[], {}); outcome.Some? ==> y !in outcome.value
    ensures !Faithful(Marked(s, x), order)
  {
    hide Reach, Hits, Marked, Outcome;
    var p := Marked(s, x);
    MarkedBody(s, x, x);
    assert HasMark(p, Control, x) by { assert Marks(p[x][|s[x]|], Control); }
    ReachJoins(GraphOf(s), y, a, x);
    HitFrom(p, Control, y, x);
    forall m
      ensures !Conflict(p, m)
    {
      NoOutput(s, x, m);
    }
  }

  lemma KnownSearch(p: Program, q: Question, m: Method, memo: map<Method, bool>, active: set<Method>)
    requires Valid(p) && m < |p| && m in memo
    ensures Search(p, q, m, memo, active) == Found(memo[m], memo)
  {
  }

  // ---- Main result ----

  /** The rows of a table of n methods, as the source walks them. */
  function Rows(n: nat): seq<Method> { seq(n, m requires 0 <= m < n => m) }

  /** Right for every program with these calls, its rows taken in this order. */
  ghost predicate FaithfulIn(s: seq<seq<Method>>, order: seq<Method>) {
    forall p :: Valid(p) && Skeleton(p) == s ==> InTable(p, order) && Faithful(p, order)
  }

  /** The memoised validation is right for every placement of control and output calls exactly when no two
      methods call each other in a cycle; the order of the table makes no difference. */
  lemma FaithfulIffSimple(s: seq<seq<Method>>, order: seq<Method>)
    requires Closed(s)
    requires (forall k :: 0 <= k < |order| ==> order[k] < |s|) && forall m :: 0 <= m < |s| ==> m in order
    ensures FaithfulIn(s, order) <==> Simple(GraphOf(s))
  {
    hide Reach, Hits, Search, Outcome, Faithful, Marked;
    if Simple(GraphOf(s)) {
      forall p | Valid(p) && Skeleton(p) == s
        ensures InTable(p, order) && Faithful(p, order)
      {
        assert |p| == |s|;
        SimpleIsFaithful(p, order);
      }
    } else {
      var a, b :| Reach(GraphOf(s), a, b) && Reach(GraphOf(s), b, a) && a != b;
      var x := CycleMisleads(s, a, b, order);
    }
  }

  /** In particular for the order of the rows. */
  lemma RowOrderFaithfulIffSimple(s: seq<seq<Method>>)
    requires Closed(s)
    ensures FaithfulIn(s, Rows(|s|)) <==> Simple(GraphOf(s))
  {
    hide FaithfulIn, Simple;
    var rows := Rows(|s|);
    forall m | 0 <= m < |s|
      ensures m in rows
    {
      assert rows[m] == m;
    }
    FaithfulIffSimple(s, rows);
  }

  lemma ClosedCallee(s: seq<seq<Method>>, a: Method, c: Method)
    requires Closed(s) && Edge(GraphOf(s), a, c)
    ensures a < |s| && c < |s|
  {
  }

  lemma SimpleIsFaithful(p: Program, order: seq<Method>)
    requires Valid(p) && Simple(ProgramGraph(p)) && InTable(p, order)
    ensures Faithful(p, order)
  {
    hide Reach, Hits, Search, Simple;
    OutcomeExact(p, order, map[], map[], {});
  }

  /** Methods 0 and 1 call each other and 0 begins a transaction; method 2 calls 1 and writes
      hardware. */
  function Misleading(): Program {
    [[Call(1)] + [Member(true, false)], [Call(0)] + [], [Call(1)] + [Member(false, true)]]
  }

  /** Mutual recursion can hide a conflict: method 2 reaches both, yet the table passes. */
  lemma ConflictMissed()
    ensures Valid(Misleading()) && Conflict(Misleading(), 2) && Outcome(Misleading(), [0, 1, 2], map[], map[], {}).Some?
  {
    hide Hits, Search, SearchCalls;
    var p := Misleading();
    MarkHits(p, Control, 0, 1);
    CallHits(p, Control, 1, 0);
    CallHits(p, Control, 2, 0);
    MarkHits(p, Output, 2, 1);
    var none: map<Method, bool> := map[];
    var control, output := none[1 := false][0 := true], none[1 := false][0 := false];
    FirstOfMisleading(Control);
    FirstOfMisleading(Output);
    KnownSearch(p, Control, 1, control, {});
    KnownSearch(p, Control, 1, control, {} + {2});
    CallThenMember(p, Control, 2, 1, Member(false, true), control, {}, Found(false, control));
    assert [0, 1, 2][1..] == [1, 2] && [1, 2][1..] == [2] && [2][1..] == [];
    var last := control[2 := false];
    assert Outcome(p, [], last, output, {} + {0}).Some?;
    assert Outcome(p, [2], control, output, {} + {0}).Some?;
    assert Outcome(p, [1, 2], control, output, {} + {0}).Some?;
  }

  lemma FirstOfMisleading(q: Question)
    ensures var first := q == Control;
            Search(Misleading(), q, 0, map[], {}) == Found(first, map[][1 := false][0 := first])
  {
    hide Search, SearchCalls;
    var p := Misleading();
    OpenSearch(p, q, 0, map[], {} + {0} + {1});
    CallOnly(p, q, 1, 0, map[], {} + {0});
    CallThenMember(p, q, 0, 1, Member(true, false), map[], {}, Found(false, map[][1 := false]));
  }

  lemma OpenSearch(p: Program, q: Question, m: Method, memo: map<Method, bool>, active: set<Method>)
    requires Valid(p) && m < |p| && m !in memo && m in active
    ensures Search(p, q, m, memo, active) == Found(false, memo)
  {
  }

  /** A body that is one call to a method found to reach nothing. */
  lemma CallOnly(p: Program, q: Question, m: Method, d: Method, memo: map<Method, bool>, active: set<Method>)
    requires Valid(p) && m < |p| && m !in memo && m !in active && p[m] == [Call(d)] + [] && d < |p|
    requires Search(p, q, d, memo, active + {m}) == Found(false, memo)
    ensures Search(p, q, m, memo, active) == Found(false, memo[m := false])
  {
    assert p[m][1..] == [];
    assert SearchCalls(p, q, [], memo, active + {m}) == Found(false, memo);
  }

  /** A body that is one such call and one call outside. */
  lemma CallThenMember(p: Program, q: Question, m: Method, d: Method, t: Target, memo: map<Method, bool>,
                       active: set<Method>, here: Found)
    requires Valid(p) && m < |p| && m !in memo && m !in active && p[m] == [Call(d)] + [t] && d < |p| && t.Member?
    requires Search(p, q, d, memo, active + {m}) == here && !here.hit
    ensures Search(p, q, m, memo, active) == Found(Marks(t, q), here.memo[m := Marks(t, q)])
  {
    assert p[m][1..] == [t] && [t][1..] == [];
    assert SearchCalls(p, q, [], here.memo, active + {m}) == Found(false, here.memo);
    assert SearchCalls(p, q, [t], here.memo, active + {m}) == Found(Marks(t, q), here.memo);
  }
}
