/** The static allocation total of a method and everything it calls, from
    managed/MicroCard.Analyzers/MicroCardProfileAnalyzer.CompilationLimits.cs. */
module CallAllocation {
  import opened CallGraph

  const DIRECT_LIMIT := 16384
  const LONG_MAX := 0x7FFF_FFFF_FFFF_FFFF

  /** A method with one subtree for each of its calls, in order. */
  datatype CallTree = Node(caller: Method, callees: seq<CallTree>)

  function Calls(calls: Graph, m: Method): seq<Method> { if m in calls then calls[m] else [] }

  function Direct(allocations: map<Method, nat>, m: Method): nat { if m in allocations then allocations[m] else 0 }

  /** `t` unfolds every call from its root, and no method in it allocates more than the limit
      by itself. */
  predicate IsTree(calls: Graph, allocations: map<Method, nat>, t: CallTree) {
    && Direct(allocations, t.caller) <= DIRECT_LIMIT
    && |t.callees| == |Calls(calls, t.caller)|
    && (forall i :: 0 <= i < |t.callees| ==>
          t.callees[i].caller == Calls(calls, t.caller)[i] && IsTree(calls, allocations, t.callees[i]))
  }

  function Sum(allocations: map<Method, nat>, t: CallTree): nat {
    Direct(allocations, t.caller) + SumAll(allocations, t.callees)
  }

  function SumAll(allocations: map<Method, nat>, ts: seq<CallTree>): nat {
    if ts == [] then 0 else SumAll(allocations, ts[..|ts| - 1]) + Sum(allocations, ts[|ts| - 1])
  }

  function Saturated(n: nat): nat { if n > LONG_MAX then LONG_MAX else n }

  ghost predicate HasTree(calls: Graph, allocations: map<Method, nat>, m: Method) {
    exists t :: IsTree(calls, allocations, t) && t.caller == m
  }

  /** The whole call tree of `m` is finite and comes to `total`. */
  ghost predicate Costs(calls: Graph, allocations: map<Method, nat>, m: Method, total: int) {
    exists t :: IsTree(calls, allocations, t) && t.caller == m && total == Saturated(Sum(allocations, t))
  }

  ghost predicate MemoCosts(calls: Graph, allocations: map<Method, nat>, memo: map<Method, int>) {
    forall m :: m in memo ==> Costs(calls, allocations, m, memo[m])
  }

  class AllocationAnalysis {
    const calls: Graph
    const allocations: map<Method, nat>
    var memo: map<Method, int>
    var active: set<Method>

    constructor (calls: Graph, allocations: map<Method, nat>)
      ensures this.calls == calls && this.allocations == allocations && memo == map[] && active == {}
    {
      this.calls := calls;
      this.allocations := allocations;
      memo, active := map[], {};
    }

    /** The saturated total of the whole call tree when it is finite and within the direct limit,
        whatever was asked before. */
    method TryCallAllocationBytes(caller: Method) returns (ok: bool, total: int)
      requires MemoCosts(calls, allocations, memo)
      requires forall a :: a in active ==> Reach(calls, a, caller)
      modifies this
      ensures MemoCosts(calls, allocations, memo) && active == old(active)
      ensures old(memo.Keys) <= memo.Keys
      ensures ok <==> HasTree(calls, allocations, caller)
      ensures ok ==> Costs(calls, allocations, caller, total)
      decreases calls.Keys - active
    {
      hide Reach, Costs, HasTree, MemoCosts, SumAll, Unfolds;
      if caller in memo {
        MemoHolds(calls, allocations, memo, caller);
        return true, memo[caller];
      }
      if caller in active {
        CycleHasNoTree(calls, allocations, caller);
        return false, 0;
      }
      ghost var before := active;
      active := active + {caller};
      total := Direct(allocations, caller);
      if total > DIRECT_LIMIT || caller !in calls {
        active := active - {caller};
        LeafTree(calls, allocations, caller);
        if total <= DIRECT_LIMIT {
          MemoGrows(calls, allocations, memo, caller, total);
          memo := memo[caller := total];
        }
        return total <= DIRECT_LIMIT, total;
      }
      ghost var trees: seq<CallTree> := [];
      NothingUnfolds(calls, allocations, calls[caller][..0]);
      for k := 0 to |calls[caller]|
        invariant active == before + {caller} && MemoCosts(calls, allocations, memo) && old(memo.Keys) <= memo.Keys
        invariant Unfolds(calls, allocations, calls[caller][..k], trees)
        invariant total == Saturated(Direct(allocations, caller) + SumAll(allocations, trees))
      {
        var target := calls[caller][k];
        CallReaches(calls, before, caller, k);
        assert calls.Keys - active < calls.Keys - before by {
          assert caller in calls.Keys - before && caller !in calls.Keys - active;
        }
        var found, called := TryCallAllocationBytes(target);
        if !found {
          active := active - {caller};
          CalleeNeedsTree(calls, allocations, caller, k);
          return false, 0;
        }
        ghost var tree := TreeOf(calls, allocations, target, called);
        total := if called > LONG_MAX - total then LONG_MAX else total + called;
        assert calls[caller][..k + 1] == calls[caller][..k] + [target];
        UnfoldsMore(calls, allocations, calls[caller][..k], trees, target, tree);
        trees := trees + [tree];
      }
      active := active - {caller};
      assert calls[caller][..|calls[caller]|] == calls[caller];
      TreeCosts(calls, allocations, caller, trees, total);
      MemoGrows(calls, allocations, memo, caller, total);
      memo := memo[caller := total];
      return true, total;
    }
  }

  predicate Unfolds(calls: Graph, allocations: map<Method, nat>, targets: seq<Method>, trees: seq<CallTree>) {
    |trees| == |targets| &&
    forall i :: 0 <= i < |trees| ==> trees[i].caller == targets[i] && IsTree(calls, allocations, trees[i])
  }

  lemma CallReaches(calls: Graph, before: set<Method>, caller: Method, k: nat)
    requires caller in calls && k < |calls[caller]|
    requires forall a :: a in before ==> Reach(calls, a, caller)
    ensures forall a :: a in before + {caller} ==> Reach(calls, a, calls[caller][k])
  {
    hide Reach;
    forall a | a in before + {caller}
      ensures Reach(calls, a, calls[caller][k])
    {
      ReachExtends(calls, a, caller, calls[caller][k]);
    }
  }

  lemma NothingUnfolds(calls: Graph, allocations: map<Method, nat>, none: seq<Method>)
    requires none == []
    ensures Unfolds(calls, allocations, none, []) && SumAll(allocations, []) == 0
  {
  }

  lemma UnfoldsMore(calls: Graph, allocations: map<Method, nat>, targets: seq<Method>, trees: seq<CallTree>,
                    target: Method, tree: CallTree)
    requires Unfolds(calls, allocations, targets, trees) && IsTree(calls, allocations, tree) && tree.caller == target
    ensures Unfolds(calls, allocations, targets + [target], trees + [tree])
    ensures SumAll(allocations, trees + [tree]) == SumAll(allocations, trees) + Sum(allocations, tree)
  {
    hide IsTree;
    assert (trees + [tree])[..|trees|] == trees;
  }

  lemma MemoHolds(calls: Graph, allocations: map<Method, nat>, memo: map<Method, int>, m: Method)
    requires MemoCosts(calls, allocations, memo) && m in memo
    ensures Costs(calls, allocations, m, memo[m]) && HasTree(calls, allocations, m)
  {
  }

  lemma MemoGrows(calls: Graph, allocations: map<Method, nat>, memo: map<Method, int>, m: Method, total: int)
    requires MemoCosts(calls, allocations, memo) && Costs(calls, allocations, m, total)
    ensures MemoCosts(calls, allocations, memo[m := total])
  {
    hide Costs;
  }

  lemma TreeOf(calls: Graph, allocations: map<Method, nat>, m: Method, total: int) returns (t: CallTree)
    requires Costs(calls, allocations, m, total)
    ensures IsTree(calls, allocations, t) && t.caller == m && total == Saturated(Sum(allocations, t))
  {
    t :| IsTree(calls, allocations, t) && t.caller == m && total == Saturated(Sum(allocations, t));
  }

  lemma LeafTree(calls: Graph, allocations: map<Method, nat>, m: Method)
    ensures Direct(allocations, m) > DIRECT_LIMIT ==> !HasTree(calls, allocations, m)
    ensures Direct(allocations, m) <= DIRECT_LIMIT && m !in calls ==>
              HasTree(calls, allocations, m) && Costs(calls, allocations, m, Direct(allocations, m))
  {
    if Direct(allocations, m) <= DIRECT_LIMIT && m !in calls {
      var t := Node(m, []);
      assert IsTree(calls, allocations, t) && t.caller == m && Direct(allocations, m) == Saturated(Sum(allocations, t));
    }
  }

  lemma TreeCosts(calls: Graph, allocations: map<Method, nat>, m: Method, trees: seq<CallTree>, total: int)
    requires m in calls && Direct(allocations, m) <= DIRECT_LIMIT && Unfolds(calls, allocations, calls[m], trees)
    requires total == Saturated(Direct(allocations, m) + SumAll(allocations, trees))
    ensures HasTree(calls, allocations, m) && Costs(calls, allocations, m, total)
  {
    var t := Node(m, trees);
    assert IsTree(calls, allocations, t) && t.caller == m && total == Saturated(Sum(allocations, t));
  }

  lemma CalleeNeedsTree(calls: Graph, allocations: map<Method, nat>, m: Method, k: nat)
    requires m in calls && k < |calls[m]|
    ensures HasTree(calls, allocations, m) ==> HasTree(calls, allocations, calls[m][k])
  {
    if HasTree(calls, allocations, m) {
      var t :| IsTree(calls, allocations, t) && t.caller == m;
      assert IsTree(calls, allocations, t.callees[k]) && t.callees[k].caller == calls[m][k];
    }
  }

  // ---- Call trees ----

  function Size(t: CallTree): nat { 1 + SizeAll(t.callees) }

  function SizeAll(ts: seq<CallTree>): nat { if ts == [] then 0 else SizeAll(ts[..|ts| - 1]) + Size(ts[|ts| - 1]) }

  lemma {:induction false} SubtreeSmaller(ts: seq<CallTree>, i: nat)
    requires i < |ts|
    ensures Size(ts[i]) <= SizeAll(ts)
  {
    if i < |ts| - 1 { SubtreeSmaller(ts[..|ts| - 1], i); }
  }

  /** A method has at most one tree, so at most one total. */
  lemma {:induction false} TreeUnique(calls: Graph, allocations: map<Method, nat>, t: CallTree, u: CallTree)
    requires IsTree(calls, allocations, t) && IsTree(calls, allocations, u) && t.caller == u.caller
    ensures t == u
    decreases t
  {
    forall i | 0 <= i < |t.callees|
      ensures t.callees[i] == u.callees[i]
    {
      TreeUnique(calls, allocations, t.callees[i], u.callees[i]);
    }
    assert t.callees == u.callees;
  }

  lemma {:induction false} ReachedSubtree(calls: Graph, allocations: map<Method, nat>, t: CallTree, b: Method)
    returns (u: CallTree)
    requires IsTree(calls, allocations, t) && Reach(calls, t.caller, b)
    ensures IsTree(calls, allocations, u) && u.caller == b && Size(u) < Size(t)
    decreases t
  {
    hide Reach;
    var c := ReachStarts(calls, t.caller, b);
    var i :| 0 <= i < |calls[t.caller]| && calls[t.caller][i] == c;
    SubtreeSmaller(t.callees, i);
    u := t.callees[i];
    if c != b { u := ReachedSubtree(calls, allocations, u, b); }
  }

  lemma CycleHasNoTree(calls: Graph, allocations: map<Method, nat>, m: Method)
    requires Reach(calls, m, m)
    ensures !HasTree(calls, allocations, m)
  {
    hide Reach;
    if HasTree(calls, allocations, m) {
      var t :| IsTree(calls, allocations, t) && t.caller == m;
      var u := ReachedSubtree(calls, allocations, t, m);
      TreeUnique(calls, allocations, t, u);
      assert false;
    }
  }

  /** Everything `m` runs into is within the limit and off every cycle. */
  ghost predicate Bounded(calls: Graph, allocations: map<Method, nat>, m: Method) {
    forall r :: ReachOrSame(calls, m, r) ==> Direct(allocations, r) <= DIRECT_LIMIT && !Reach(calls, r, r)
  }

  /** A method gets a total exactly when it reaches no recursion and no oversized method. */
  lemma HasTreeIff(calls: Graph, allocations: map<Method, nat>, m: Method)
    ensures HasTree(calls, allocations, m) <==> Bounded(calls, allocations, m)
  {
    hide Reach;
    if HasTree(calls, allocations, m) {
      var t :| IsTree(calls, allocations, t) && t.caller == m;
      forall r | ReachOrSame(calls, m, r)
        ensures Direct(allocations, r) <= DIRECT_LIMIT && !Reach(calls, r, r)
      {
        var u := t;
        if r != m { u := ReachedSubtree(calls, allocations, t, r); }
        if Reach(calls, r, r) {
          CycleHasNoTree(calls, allocations, r);
          assert false;
        }
      }
    }
    if Bounded(calls, allocations, m) {
      var _ := BuildTree(calls, allocations, m, {});
    }
  }

  lemma {:induction false} BuildTree(calls: Graph, allocations: map<Method, nat>, m: Method, path: set<Method>)
    returns (t: CallTree)
    requires Bounded(calls, allocations, m) && forall a :: a in path ==> Reach(calls, a, m)
    ensures IsTree(calls, allocations, t) && t.caller == m
    decreases calls.Keys - path, 1, 0
  {
    hide Reach;
    assert ReachOrSame(calls, m, m);
    assert m !in path;
    if m in calls {
      var trees := BuildTrees(calls, allocations, m, path, |calls[m]|);
      assert calls[m][..|calls[m]|] == calls[m];
      t := Node(m, trees);
    } else {
      t := Node(m, []);
    }
  }

  lemma {:induction false} BuildTrees(calls: Graph, allocations: map<Method, nat>, m: Method, path: set<Method>, n: nat)
    returns (trees: seq<CallTree>)
    requires m in calls && m !in path && n <= |calls[m]|
    requires Bounded(calls, allocations, m) && forall a :: a in path ==> Reach(calls, a, m)
    ensures Unfolds(calls, allocations, calls[m][..n], trees)
    decreases calls.Keys - path, 0, n
  {
    hide Reach;
    if n == 0 {
      trees := [];
    } else {
      trees := BuildTrees(calls, allocations, m, path, n - 1);
      var c := calls[m][n - 1];
      CallReaches(calls, path, m, n - 1);
      BoundedBelow(calls, allocations, m, c);
      assert m in calls.Keys - path && m !in calls.Keys - (path + {m});
      var tree := BuildTree(calls, allocations, c, path + {m});
      trees := trees + [tree];
      assert calls[m][..n] == calls[m][..n - 1] + [c];
    }
  }

  lemma BoundedBelow(calls: Graph, allocations: map<Method, nat>, m: Method, c: Method)
    requires Bounded(calls, allocations, m) && Edge(calls, m, c)
    ensures Bounded(calls, allocations, c)
  {
    hide Reach;
    forall r | ReachOrSame(calls, c, r)
      ensures Direct(allocations, r) <= DIRECT_LIMIT && !Reach(calls, r, r)
    {
      ReachPrepends(calls, m, c, r);
      assert ReachOrSame(calls, m, r);
    }
  }

  // ---- Totals without trees ----

  /** A method's own bytes and then the totals of its calls, never past the largest 64-bit number. */
  function Added(own: int, totals: seq<int>): int {
    if totals == [] then own
    else
      var sum := Added(own, totals[..|totals| - 1]) + totals[|totals| - 1];
      if sum > 0x7FFF_FFFF_FFFF_FFFF then 0x7FFF_FFFF_FFFF_FFFF else sum
  }

  /** The callees' totals, one for each call in order. */
  ghost predicate CalleesCost(calls: Graph, allocations: map<Method, nat>, m: Method, totals: seq<int>) {
    var targets := if m in calls then calls[m] else [];
    |totals| == |targets| && forall i :: 0 <= i < |totals| ==> Costs(calls, allocations, targets[i], totals[i])
  }

  lemma {:induction false} AddedIs(allocations: map<Method, nat>, own: nat, trees: seq<CallTree>, totals: seq<int>)
    requires own <= LONG_MAX && |totals| == |trees|
    requires forall i :: 0 <= i < |trees| ==> totals[i] == Saturated(Sum(allocations, trees[i]))
    ensures Added(own, totals) == Saturated(own + SumAll(allocations, trees))
  {
    hide Sum;
    if trees != [] { AddedIs(allocations, own, trees[..|trees| - 1], totals[..|totals| - 1]); }
  }

  lemma {:induction false} TreesOf(calls: Graph, allocations: map<Method, nat>, targets: seq<Method>, totals: seq<int>)
    returns (trees: seq<CallTree>)
    requires |totals| == |targets|
    requires forall i :: 0 <= i < |totals| ==> Costs(calls, allocations, targets[i], totals[i])
    ensures Unfolds(calls, allocations, targets, trees)
    ensures forall i :: 0 <= i < |trees| ==> totals[i] == Saturated(Sum(allocations, trees[i]))
  {
    hide Costs, IsTree, Sum;
    if targets == [] {
      trees := [];
    } else {
      var n := |targets| - 1;
      var front := TreesOf(calls, allocations, targets[..n], totals[..n]);
      var last := TreeOf(calls, allocations, targets[n], totals[n]);
      trees := front + [last];
    }
  }

  /** What a method comes to: its own entry, or nothing without one, within 16384 bytes, and what
      each of its calls comes to. */
  lemma CostsIff(calls: Graph, allocations: map<Method, nat>, m: Method, total: int)
    ensures var own := if m in allocations then allocations[m] else 0;
            Costs(calls, allocations, m, total) <==>
            own <= 16384 &&
            exists totals :: CalleesCost(calls, allocations, m, totals) && total == Added(own, totals)
  {
    hide Sum, SumAll;
    var own := if m in allocations then allocations[m] else 0;
    var targets := if m in calls then calls[m] else [];
    if Costs(calls, allocations, m, total) {
      var t := TreeOf(calls, allocations, m, total);
      var totals := seq(|t.callees|, i requires 0 <= i < |t.callees| => Saturated(Sum(allocations, t.callees[i])));
      SumIs(allocations, t);
      AddedIs(allocations, own, t.callees, totals);
      assert CalleesCost(calls, allocations, m, totals);
    }
    if own <= 16384 {
      forall totals | CalleesCost(calls, allocations, m, totals) && total == Added(own, totals)
        ensures Costs(calls, allocations, m, total)
      {
        var trees := TreesOf(calls, allocations, targets, totals);
        AddedIs(allocations, own, trees, totals);
        var t := Node(m, trees);
        SumIs(allocations, t);
        assert IsTree(calls, allocations, t) && t.caller == m && total == Saturated(Sum(allocations, t));
      }
    }
  }

  lemma SumIs(allocations: map<Method, nat>, t: CallTree)
    ensures Sum(allocations, t) == Direct(allocations, t.caller) + SumAll(allocations, t.callees)
  {
  }

  /** A method without calls comes to its own entry. */
  lemma LeafCosts(calls: Graph, allocations: map<Method, nat>, m: Method, total: int)
    requires m !in calls || calls[m] == []
    ensures Costs(calls, allocations, m, total) <==>
            total == (if m in allocations then allocations[m] else 0) && total <= 16384
  {
    CostsIff(calls, allocations, m, total);
    assert CalleesCost(calls, allocations, m, []);
  }
}
