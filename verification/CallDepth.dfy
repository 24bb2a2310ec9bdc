/** The recursion and frame-depth diagnostic of
    managed/MicroCard.Analyzers/MicroCardProfileAnalyzer.CompilationLimits.cs. */
module CallDepth {
  import opened CallGraph

  const FRAME_LIMIT := 32

  datatype Report = Recursion(root: Method, through: Method) | TooDeep(root: Method)

  predicate Distinct(w: seq<Method>) { forall i, j :: 0 <= i < j < |w| ==> w[i] != w[j] }

  ghost predicate Truthful(g: Graph, r: Report) {
    match r
    case Recursion(root, through) => ReachOrSame(g, root, through) && Reach(g, through, through)
    case TooDeep(root) => exists w :: |w| == 33 && Walk(g, w) && w[0] == root && Distinct(w)
  }

  /** The frames from the root down to the one being searched. */
  predicate Path(g: Graph, path: seq<Method>, active: set<Method>, depth: int) {
    |path| == depth >= 1 && Walk(g, path) && Distinct(path) && Elements(path) == active
  }

  function Elements(w: seq<Method>): set<Method> { set i | 0 <= i < |w| :: w[i] }

  /** The calls within the assembly, as the search filters them. */
  function Within(calls: Graph, own: set<Method>): Graph {
    map m | m in calls :: Filtered(calls[m], own)
  }

  function Filtered(targets: seq<Method>, own: set<Method>): seq<Method> {
    if targets == [] then []
    else if targets[0] in own then [targets[0]] + Filtered(targets[1..], own)
    else Filtered(targets[1..], own)
  }

  lemma {:induction false} FilteredKeeps(targets: seq<Method>, own: set<Method>, t: Method)
    ensures t in Filtered(targets, own) <==> t in targets && t in own
  {
    if targets != [] { FilteredKeeps(targets[1..], own, t); }
  }

  lemma CallsWithin(calls: Graph, own: set<Method>, m: Method, t: Method)
    ensures Edge(Within(calls, own), m, t) <==> Edge(calls, m, t) && t in own
  {
    if m in calls { FilteredKeeps(calls[m], own, t); }
  }

  class CallGraphAnalysis {
    const calls: Graph
    const own: set<Method>
    var active: set<Method>
    var reports: seq<Report>

    constructor (calls: Graph, own: set<Method>)
      ensures this.calls == calls && this.own == own && active == {} && reports == []
    {
      this.calls := calls;
      this.own := own;
      active := {};
      reports := [];
    }

    /** Finds trouble exactly when some chain of 33 frames runs from the root through here, and
        says truthfully whether it met recursion or 33 different methods. */
    method AnalyzeCallGraph(root: Method, caller: Method, depth: int, ghost path: seq<Method>) returns (found: bool)
      requires 1 <= depth <= FRAME_LIMIT && caller !in active
      requires Path(Within(calls, own), path, active + {caller}, depth)
      requires path[0] == root && path[depth - 1] == caller
      modifies this
      ensures active == old(active)
      ensures found <==> Deep(Within(calls, own), caller, 34 - depth)
      ensures !found ==> reports == old(reports)
      ensures found ==> exists r :: reports == old(reports) + [r] && r.root == root && Truthful(Within(calls, own), r)
      decreases FRAME_LIMIT - depth
    {
      hide Deep, Truthful, Reach, Path;
      ghost var g := Within(calls, own);
      ghost var before := active;
      active := active + {caller};
      if caller in calls {
        for k := 0 to |calls[caller]|
          invariant active == before + {caller} && reports == old(reports)
          invariant forall i :: 0 <= i < k ==> Shallow(g, own, calls[caller][i], FRAME_LIMIT + 1 - depth)
        {
          var target := calls[caller][k];
          if target !in own { continue; }
          CallsWithin(calls, own, caller, target);
          if target in active {
            PathCloses(g, path, active, depth, target);
            CycleIsDeep(g, caller, FRAME_LIMIT + 2 - depth);
            reports := reports + [Recursion(root, target)];
            active := active - {caller};
            return true;
          }
          PathExtends(g, path, active, depth, target);
          if depth >= FRAME_LIMIT {
            TooDeepIsTrue(g, path + [target], active + {target});
            EdgeIsDeep(g, caller, target);
            reports := reports + [TooDeep(root)];
            active := active - {caller};
            return true;
          }
          var below := AnalyzeCallGraph(root, target, depth + 1, path + [target]);
          if below {
            DeepSteps(g, caller, target, FRAME_LIMIT + 1 - depth);
            active := active - {caller};
            return true;
          }
        }
      }
      AllShallow(calls, own, caller, FRAME_LIMIT + 1 - depth);
      active := active - {caller};
      return false;
    }

    /** One report for each root that starts a chain of 33 frames. */
    method AnalyzeCallGraphs(roots: seq<Method>)
      requires active == {} && reports == []
      modifies this
      ensures active == {}
      ensures forall r :: r in roots ==>
                (Deep(Within(calls, own), r, 33) <==> exists e :: e in reports && e.root == r)
      ensures forall e :: e in reports ==> e.root in roots && Truthful(Within(calls, own), e)
    {
      hide Deep, Truthful;
      ghost var g := Within(calls, own);
      for k := 0 to |roots|
        invariant active == {}
        invariant forall i :: 0 <= i < k && Deep(g, roots[i], FRAME_LIMIT + 1) ==>
                    exists e :: e in reports && e.root == roots[i]
        invariant forall e :: e in reports ==>
                    e.root in roots[..k] && Truthful(g, e) && Deep(g, e.root, FRAME_LIMIT + 1)
      {
        PathStarts(g, roots[k]);
        ghost var before := reports;
        var found := AnalyzeCallGraph(roots[k], roots[k], 1, [roots[k]]);
        if found {
          ghost var r :| reports == before + [r] && r.root == roots[k] && Truthful(g, r);
          Appended(before, r);
        }
        assert roots[..k + 1] == roots[..k] + [roots[k]];
      }
      assert roots[..|roots|] == roots;
    }
  }

  lemma Appended(before: seq<Report>, r: Report)
    ensures forall e :: e in before + [r] <==> e in before || e == r
  {
  }

  ghost predicate Shallow(g: Graph, own: set<Method>, t: Method, n: nat) { t in own ==> !Deep(g, t, n) }

  lemma PathStarts(g: Graph, root: Method)
    ensures Path(g, [root], {} + {root}, 1)
  {
    assert [root][0] == root;
    assert Elements([root]) == {} + {root};
  }

  lemma PathExtends(g: Graph, path: seq<Method>, active: set<Method>, depth: int, target: Method)
    requires Path(g, path, active, depth) && target !in active && Edge(g, path[depth - 1], target)
    ensures Path(g, path + [target], active + {target}, depth + 1)
  {
    var longer := path + [target];
    assert forall i :: 0 <= i < depth ==> longer[i] == path[i] && path[i] in Elements(path);
    assert Elements(longer) == active + {target} by {
      forall m | m in active + {target}
        ensures m in Elements(longer)
      {
        if m in active {
          var i :| 0 <= i < depth && path[i] == m;
          assert longer[i] == m;
        } else {
          assert longer[depth] == m;
        }
      }
    }
  }

  /** A call back onto the path closes a cycle through the last frame. */
  lemma PathCloses(g: Graph, path: seq<Method>, active: set<Method>, depth: int, target: Method)
    requires Path(g, path, active, depth) && target in active && Edge(g, path[depth - 1], target)
    ensures Reach(g, path[depth - 1], path[depth - 1])
    ensures Truthful(g, Recursion(path[0], target))
  {
    var last := path[depth - 1];
    var i :| 0 <= i < depth && path[i] == target;
    WalkReaches(g, path, 0, i);
    WalkReaches(g, path, i, depth - 1);
    ReachExtends(g, target, last, target);
    ReachPrepends(g, last, target, last);
  }

  lemma WalkReaches(g: Graph, w: seq<Method>, i: nat, j: nat)
    requires Walk(g, w) && i <= j < |w|
    ensures ReachOrSame(g, w[i], w[j])
  {
    if i < j {
      var v := w[i..j + 1];
      forall k | 0 < k < |v|
        ensures Edge(g, v[k - 1], v[k])
      {
        assert Edge(g, w[i + k - 1], w[i + k]);
      }
      assert |v| >= 2 && WalkFromTo(g, v, w[i], w[j]);
    }
  }

  lemma TooDeepIsTrue(g: Graph, path: seq<Method>, active: set<Method>)
    requires Path(g, path, active, FRAME_LIMIT + 1)
    ensures Truthful(g, TooDeep(path[0]))
  {
  }

  lemma EdgeIsDeep(g: Graph, m: Method, t: Method)
    requires Edge(g, m, t)
    ensures Deep(g, m, 2)
  {
    assert |[m, t]| == 2 && Walk(g, [m, t]) && [m, t][0] == m;
  }

  lemma AllShallow(calls: Graph, own: set<Method>, m: Method, n: nat)
    requires n >= 1
    requires m in calls ==> forall i :: 0 <= i < |calls[m]| ==> Shallow(Within(calls, own), own, calls[m][i], n)
    ensures !Deep(Within(calls, own), m, n + 1)
  {
    hide Deep;
    if Deep(Within(calls, own), m, n + 1) {
      var t := DeepStarts(Within(calls, own), m, n);
      CallsWithin(calls, own, m, t);
      assert false;
    }
  }
}
