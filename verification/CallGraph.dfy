/** Call graphs and walks over them, shared by the host's three call-graph analyses. */
module CallGraph {
  type Method = nat
  type Graph = map<Method, seq<Method>>

  /** The source of a call is a key; a method without calls need not be one. */
  predicate Edge(g: Graph, a: Method, b: Method) { a in g && b in g[a] }

  predicate Walk(g: Graph, w: seq<Method>) {
    |w| >= 1 && forall i :: 0 < i < |w| ==> Edge(g, w[i - 1], w[i])
  }

  predicate WalkFromTo(g: Graph, w: seq<Method>, a: Method, b: Method) {
    Walk(g, w) && w[0] == a && w[|w| - 1] == b
  }

  /** By one call or more. */
  ghost predicate Reach(g: Graph, a: Method, b: Method) { exists w :: |w| >= 2 && WalkFromTo(g, w, a, b) }

  ghost predicate ReachOrSame(g: Graph, a: Method, b: Method) { a == b || Reach(g, a, b) }

  /** Some chain of `n` frames starts here. */
  ghost predicate Deep(g: Graph, m: Method, n: nat) { exists w :: |w| == n && Walk(g, w) && w[0] == m }

  lemma EdgeReaches(g: Graph, a: Method, b: Method)
    requires Edge(g, a, b)
    ensures Reach(g, a, b)
  {
    assert WalkFromTo(g, [a, b], a, b);
  }

  lemma ReachJoins(g: Graph, a: Method, b: Method, c: Method)
    requires Reach(g, a, b) && Reach(g, b, c)
    ensures Reach(g, a, c)
  {
    var u :| |u| >= 2 && WalkFromTo(g, u, a, b);
    var v :| |v| >= 2 && WalkFromTo(g, v, b, c);
    WalksJoin(g, u, v);
    assert WalkFromTo(g, u + v[1..], a, c);
  }

  lemma WalksJoin(g: Graph, u: seq<Method>, v: seq<Method>)
    requires Walk(g, u) && Walk(g, v) && u[|u| - 1] == v[0]
    ensures Walk(g, u + v[1..])
  {
    var w := u + v[1..];
    forall i | 0 < i < |w|
      ensures Edge(g, w[i - 1], w[i])
    {
      if i >= |u| {
        var j := i - |u| + 1;
        assert w[i] == v[j] && w[i - 1] == v[j - 1];
      }
    }
  }

  lemma ReachExtends(g: Graph, a: Method, b: Method, c: Method)
    requires ReachOrSame(g, a, b) && Edge(g, b, c)
    ensures Reach(g, a, c)
  {
    EdgeReaches(g, b, c);
    if a != b { ReachJoins(g, a, b, c); }
  }

  lemma ReachPrepends(g: Graph, a: Method, b: Method, c: Method)
    requires Edge(g, a, b) && ReachOrSame(g, b, c)
    ensures Reach(g, a, c)
  {
    EdgeReaches(g, a, b);
    if b != c { ReachJoins(g, a, b, c); }
  }

  /** The first call of a walk. */
  lemma ReachStarts(g: Graph, a: Method, c: Method) returns (b: Method)
    requires Reach(g, a, c)
    ensures Edge(g, a, b) && ReachOrSame(g, b, c)
  {
    var w :| |w| >= 2 && WalkFromTo(g, w, a, c);
    b := w[1];
    assert Edge(g, w[0], w[1]);
    if |w| > 2 { assert WalkFromTo(g, w[1..], b, c); }
  }

  // ---- Deep chains ----

  lemma DeepSteps(g: Graph, m: Method, t: Method, n: nat)
    requires Edge(g, m, t) && Deep(g, t, n)
    ensures Deep(g, m, n + 1)
  {
    var w :| |w| == n && Walk(g, w) && w[0] == t;
    var v := [m] + w;
    forall i | 0 < i < |v|
      ensures Edge(g, v[i - 1], v[i])
    {
      if i > 1 { assert Edge(g, w[i - 2], w[i - 1]); }
    }
    assert |v| == n + 1 && Walk(g, v) && v[0] == m;
  }

  lemma DeepStarts(g: Graph, m: Method, n: nat) returns (t: Method)
    requires n >= 1 && Deep(g, m, n + 1)
    ensures Edge(g, m, t) && Deep(g, t, n)
  {
    var w :| |w| == n + 1 && Walk(g, w) && w[0] == m;
    t := w[1];
    assert Edge(g, w[0], w[1]);
    var v := w[1..];
    forall i | 0 < i < |v|
      ensures Edge(g, v[i - 1], v[i])
    {
      assert Edge(g, w[i], w[i + 1]);
    }
    assert |v| == n && Walk(g, v) && v[0] == t;
  }

  /** Recursion makes chains of any depth. */
  lemma CycleIsDeep(g: Graph, m: Method, n: nat)
    requires Reach(g, m, m) && n >= 1
    ensures Deep(g, m, n)
  {
    var w :| |w| >= 2 && WalkFromTo(g, w, m, m);
    var v := seq(n, i requires i >= 0 => Around(w, i));
    forall i | 0 < i < n
      ensures Edge(g, v[i - 1], v[i])
    {
      GoesRound(g, w, i - 1);
    }
    assert |v| == n && Walk(g, v) && v[0] == m;
  }

  /** Step `i` of going round a closed walk for ever. */
  function Around(w: seq<Method>, i: nat): Method
    requires |w| >= 2
  {
    w[i % (|w| - 1)]
  }

  lemma GoesRound(g: Graph, w: seq<Method>, i: nat)
    requires |w| >= 2 && Walk(g, w) && w[0] == w[|w| - 1]
    ensures Edge(g, Around(w, i), Around(w, i + 1))
  {
    var k := |w| - 1;
    var j := i % k;
    Successor(i, k);
    assert Edge(g, w[j], w[j + 1]);
  }

  lemma Successor(i: nat, k: nat)
    requires k > 0
    ensures (i + 1) % k == if i % k + 1 == k then 0 else i % k + 1
  {
    Wraps(i / k, i % k, k);
    assert i == i / k * k + i % k;
  }

  lemma Wraps(q: nat, r: nat, k: nat)
    requires r < k
    ensures (q * k + r + 1) % k == if r + 1 == k then 0 else r + 1
  {
    if r + 1 == k {
      assert q * k + k == (q + 1) * k;
      Remainder(q + 1, 0, k);
    } else {
      Remainder(q, r + 1, k);
    }
  }

  lemma Remainder(q: nat, r: nat, k: nat)
    requires r < k
    ensures (q * k + r) % k == r
  {
    var x := q * k + r;
    var d := x / k - q;
    assert x == k * (x / k) + x % k;
    assert d * k == r - x % k;
    SmallMultiple(d, k);
  }

  lemma SmallMultiple(d: int, k: int)
    requires -k < d * k < k
    ensures d == 0
  {
    AtLeast(d, k);
    AtLeast(-d, k);
  }

  lemma AtLeast(d: int, k: int)
    requires k >= 0
    ensures d >= 1 ==> d * k >= k
  {
    if d >= 1 { assert d * k == k + (d - 1) * k; }
  }
}
