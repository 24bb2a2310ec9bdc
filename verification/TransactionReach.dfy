/** The memoised searches of ValidateTransactions in
    managed/MicroCard.Tool/Mc04Writer.Transactions.cs: which methods reach explicit
    transaction control, and whether one of those also reaches irreversible output. */
module TransactionReach {
  import opened Wrappers
  import opened CallGraph

  /** What one call instruction names: a method of this assembly, or a member elsewhere. */
  datatype Target = Call(callee: Method) | Member(control: bool, output: bool)

  /** The call instructions of every method body, in order. */
  type Program = seq<seq<Target>>

  datatype Question = Control | Output

  predicate Marks(t: Target, q: Question) { t.Member? && if q == Control then t.control else t.output }

  predicate Valid(p: Program) {
    forall m :: 0 <= m < |p| ==> InRange(p[m], |p|)
  }

  /** Calls name methods of the table. */
  predicate InRange(targets: seq<Target>, n: nat) {
    forall i :: 0 <= i < |targets| && targets[i].Call? ==> targets[i].callee < n
  }

  function CallsOf(targets: seq<Target>): seq<Method> {
    if targets == [] then []
    else if targets[0].Call? then [targets[0].callee] + CallsOf(targets[1..])
    else CallsOf(targets[1..])
  }

  function Skeleton(p: Program): seq<seq<Method>> { seq(|p|, m requires 0 <= m < |p| => CallsOf(p[m])) }

  function Indices(n: nat): (s: set<nat>)
    ensures forall m: nat :: m in s <==> m < n
  {
    if n == 0 then {} else Indices(n - 1) + {n - 1}
  }

  function GraphOf(s: seq<seq<Method>>): Graph { map m | m in Indices(|s|) :: s[m] }

  predicate HasMark(p: Program, q: Question, m: Method) {
    m < |p| &&
    exists i :: 0 <= i < |p[m]| && p[m][i].Member? && match q case Control => p[m][i].control
                                                              case Output => p[m][i].output
  }

  /** Some run of calls from `m` comes to a marked call. */
  ghost predicate Hits(p: Program, q: Question, m: Method) {
    exists r :: ReachOrSame(GraphOf(Skeleton(p)), m, r) && HasMark(p, q, r)
  }

  /** Methods only recurse directly, never through another method. */
  ghost predicate Simple(g: Graph) {
    forall a, b :: Reach(g, a, b) && Reach(g, b, a) ==> a == b
  }

  // ---- The search as it runs ----

  datatype Found = Found(hit: bool, memo: map<Method, bool>)

  function Universe(p: Program): set<Method> { Indices(|p|) }

  function Search(p: Program, q: Question, m: Method, memo: map<Method, bool>, active: set<Method>): Found
    requires Valid(p) && m < |p|
    decreases Universe(p) - active, 0, 0
  {
    if m in memo then Found(memo[m], memo)
    else if m in active then Found(false, memo)
    else
      assert m in Universe(p) - active;
      var r := SearchCalls(p, q, p[m], memo, active + {m});
      Found(r.hit, r.memo[m := r.hit])
  }

  function SearchCalls(p: Program, q: Question, targets: seq<Target>, memo: map<Method, bool>,
                       active: set<Method>): Found
    requires Valid(p) && InRange(targets, |p|)
    decreases Universe(p) - active, 1, |targets|
  {
    if targets == [] then Found(false, memo)
    else
      var here := if targets[0].Call? then Search(p, q, targets[0].callee, memo, active)
                  else Found(Marks(targets[0], q), memo);
      if here.hit then here else SearchCalls(p, q, targets[1..], here.memo, active)
  }

  /** The outcome of the loop over the method table: `None` when it throws. */
  function Outcome(p: Program, order: seq<Method>, controls: map<Method, bool>, effects: map<Method, bool>,
                   transactional: set<Method>)
    : Option<set<Method>>
    requires Valid(p) && forall k :: 0 <= k < |order| ==> order[k] < |p|
  {
    if order == [] then Some(transactional)
    else
      var control := Search(p, Control, order[0], controls, {});
      if !control.hit then Outcome(p, order[1..], control.memo, effects, transactional)
      else
        var output := Search(p, Output, order[0], effects, {});
        if output.hit then None
        else Outcome(p, order[1..], control.memo, output.memo, transactional + {order[0]})
  }

  /** One of the two local searches with its dictionary and its active set. */
  class Searcher {
    const p: Program
    const q: Question
    var known: map<Method, bool>
    var active: set<Method>

    constructor (p: Program, q: Question)
      ensures this.p == p && this.q == q && known == map[] && active == {}
    {
      this.p, this.q := p, q;
      known, active := map[], {};
    }

    method Reaches(m: Method) returns (effect: bool)
      requires Valid(p) && m < |p|
      modifies this
      ensures Search(p, q, m, old(known), old(active)) == Found(effect, known)
      ensures active == old(active)
      decreases Universe(p) - active
    {
      if m in known { return known[m]; }
      if m in active { return false; }
      ghost var before := active;
      assert m in Universe(p) - active;
      active := active + {m};
      effect := false;
      ghost var whole := SearchCalls(p, q, p[m], known, active);
      assert p[m][0..] == p[m];
      for k := 0 to |p[m]|
        invariant active == before + {m} && !effect
        invariant whole == SearchCalls(p, q, p[m][k..], known, active)
      {
        var target := p[m][k];
        assert p[m][k..][1..] == p[m][k + 1..];
        if target.Call? {
          effect := Reaches(target.callee);
        } else {
          effect := Marks(target, q);
        }
        if effect { break; }
      }
      active := active - {m};
      known := known[m := effect];
    }
  }

  method ValidateTransactions(p: Program, order: seq<Method>) returns (transactional: Option<set<Method>>)
    requires Valid(p) && forall k :: 0 <= k < |order| ==> order[k] < |p|
    ensures transactional == Outcome(p, order, map[], map[], {})
  {
    hide Search;
    var controls := new Searcher(p, Control);
    var effects := new Searcher(p, Output);
    var methods := {};
    assert order[0..] == order;
    for k := 0 to |order|
      invariant controls.p == p && effects.p == p && controls.q == Control && effects.q == Output
      invariant controls != effects && fresh(controls) && fresh(effects) && controls.active == {}
                && effects.active == {}
      invariant Outcome(p, order, map[], map[], {}) == Outcome(p, order[k..], controls.known, effects.known, methods)
    {
      assert order[k..][1..] == order[k + 1..];
      var control := controls.Reaches(order[k]);
      if !control { continue; }
      methods := methods + {order[k]};
      var output := effects.Reaches(order[k]);
      if output { return None; }
    }
    return Some(methods);
  }
}
