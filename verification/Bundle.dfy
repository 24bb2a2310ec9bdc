/** The load order of a default bundle (managed/MicroCard.Bundle/Program.cs). */
module Bundle {
  import opened Wrappers
  import opened Bytes

  /** UTF-16 code units, compared ordinally. */
  type Name = seq<UInt16>

  /** The fields LoadPackages looks at, and the ones it carries along. */
  datatype Package = Package(
    name: Name, domain: Name, incarnation: seq<Byte>, dependencies: seq<Name>, signer: seq<Byte>, rest: seq<Byte>)

  type Catalog = map<Name, Package>

  /** "mscorlib" */
  const CORE: Name := [109, 115, 99, 111, 114, 108, 105, 98]
  /** "ISD" */
  const ISSUER: Name := [73, 83, 68]

  // ---- Ordinal order ----

  predicate Less(a: Name, b: Name) {
    b != [] && (a == [] || a[0] < b[0] || (a[0] == b[0] && Less(a[1..], b[1..])))
  }

  lemma {:induction false} LessIrreflexive(a: Name)
    ensures !Less(a, a)
  {
    if a != [] { LessIrreflexive(a[1..]); }
  }

  lemma {:induction false} LessTransitive(a: Name, b: Name, c: Name)
    requires Less(a, b) && Less(b, c)
    ensures Less(a, c)
  {
    if a != [] && a[0] == b[0] && b[0] == c[0] { LessTransitive(a[1..], b[1..], c[1..]); }
  }

  lemma {:induction false} LessTotal(a: Name, b: Name)
    ensures Less(a, b) || a == b || Less(b, a)
  {
    if a != [] && b != [] && a[0] == b[0] {
      LessTotal(a[1..], b[1..]);
      assert a == [a[0]] + a[1..] && b == [b[0]] + b[1..];
    }
  }

  /** The first place where two names differ decides; without one the shorter comes first. */
  lemma {:induction false} LessIff(a: Name, b: Name)
    ensures Less(a, b) <==> a < b || exists k :: 0 <= k < |a| && k < |b| && a[..k] == b[..k] && a[k] < b[k]
  {
    if a != [] && b != [] && a[0] == b[0] {
      LessIff(a[1..], b[1..]);
      assert a == [a[0]] + a[1..] && b == [b[0]] + b[1..];
      if k :| 0 <= k < |a| && k < |b| && a[..k] == b[..k] && a[k] < b[k] {
        assert a[1..][..k - 1] == a[..k][1..] && b[1..][..k - 1] == b[..k][1..];
      }
      if k :| 0 <= k < |a| - 1 && k < |b| - 1 && a[1..][..k] == b[1..][..k] && a[1..][k] < b[1..][k] {
        assert a[..k + 1] == [a[0]] + a[1..][..k] && b[..k + 1] == [b[0]] + b[1..][..k];
      }
    } else if a != [] && b != [] {
      assert a[..0] == b[..0];
    }
  }

  predicate Sorted(names: seq<Name>) { forall i, j :: 0 <= i < j < |names| ==> Less(names[i], names[j]) }

  // ---- What a bundle must be ----

  predicate DistinctNames(packages: seq<Package>) {
    forall i, j :: 0 <= i < j < |packages| ==> packages[i].name != packages[j].name
  }

  function CatalogOf(packages: seq<Package>): Catalog {
    if packages == [] then map[]
    else CatalogOf(packages[..|packages| - 1])[packages[|packages| - 1].name := packages[|packages| - 1]]
  }

  predicate Acceptable(catalog: Catalog, p: Package, signer: seq<Byte>) {
    p.domain == ISSUER && p.signer == signer && forall k :: 0 <= k < |p.dependencies| ==> p.dependencies[k] in catalog
  }

  predicate Admissible(packages: seq<Package>, signer: seq<Byte>) {
    var catalog := CatalogOf(packages);
    && 1 <= |packages| <= 255 && DistinctNames(packages)
    && (forall n :: n in catalog ==> catalog[n].domain == ISSUER && catalog[n].signer == signer)
    && (forall n, d :: n in catalog && d in catalog[n].dependencies ==> d in catalog)
    && CORE in catalog && catalog[CORE].dependencies == []
    && (forall n :: n in catalog ==> catalog[n].incarnation == catalog[CORE].incarnation)
  }

  predicate DependsOn(catalog: Catalog, a: Name, b: Name) { a in catalog && b in catalog[a].dependencies }

  /** Names each depending on the next, ending where it began. */
  predicate IsCycle(catalog: Catalog, c: seq<Name>) {
    |c| >= 2 && c[0] == c[|c| - 1] && forall i :: 0 < i < |c| ==> DependsOn(catalog, c[i - 1], c[i])
  }

  ghost predicate HasCycle(catalog: Catalog) { exists c :: IsCycle(catalog, c) }

  /** Each name occurs in the list. */
  predicate AllLoaded(names: seq<Name>, done: seq<Package>) {
    forall d :: 0 <= d < |names| ==> Loaded(names[d], done)
  }

  predicate Loaded(n: Name, done: seq<Package>) { exists j :: 0 <= j < |done| && done[j].name == n }

  predicate DependenciesFirst(order: seq<Package>) {
    forall k :: 0 <= k < |order| ==> AllLoaded(order[k].dependencies, order[..k])
  }

  /** The packages, mscorlib first and each after everything it depends on. */
  predicate IsLoadOrder(packages: seq<Package>, order: seq<Package>) {
    multiset(order) == multiset(packages) && order != [] && order[0].name == CORE && DependenciesFirst(order)
  }

  ghost predicate Ready(catalog: Catalog, n: Name, done: seq<Package>) {
    n in catalog && !Loaded(n, done) && AllLoaded(catalog[n].dependencies, done)
  }

  /** Every package after mscorlib is the ordinally first of those that could come next. */
  ghost predicate Greedy(catalog: Catalog, order: seq<Package>) {
    forall k :: 1 <= k < |order| ==> NextIsFirst(catalog, order, k)
  }

  ghost predicate NextIsFirst(catalog: Catalog, order: seq<Package>, k: nat)
    requires k < |order|
  {
    forall n :: Ready(catalog, n, order[..k]) ==> n == order[k].name || Less(order[k].name, n)
  }

  // ---- Ordering ----

  /** The dictionary keyed by identity; `None` on a duplicate. */
  method ReadAll(packages: seq<Package>) returns (catalog: Option<Catalog>)
    ensures catalog == if DistinctNames(packages) then Some(CatalogOf(packages)) else None
  {
    var read: Catalog := map[];
    assert packages[..0] == [];
    for k := 0 to |packages|
      invariant read == CatalogOf(packages[..k]) && DistinctNames(packages[..k])
    {
      CatalogHas(packages[..k], packages[k].name);
      assert packages[..k + 1][..k] == packages[..k];
      if packages[k].name in read { return None; }
      read := read[packages[k].name := packages[k]];
    }
    assert packages[..|packages|] == packages;
    return Some(read);
  }

  lemma {:induction false} CatalogHas(packages: seq<Package>, n: Name)
    ensures n in CatalogOf(packages) <==> exists k :: 0 <= k < |packages| && packages[k].name == n
  {
    if packages != [] {
      var last := |packages| - 1;
      CatalogHas(packages[..last], n);
      if n in CatalogOf(packages[..last]) {
        var k :| 0 <= k < last && packages[..last][k].name == n;
        assert packages[k].name == n;
      }
      if k :| 0 <= k < |packages| && packages[k].name == n && k != last {
        assert packages[..last][k].name == n;
      }
    }
  }

  /** What the sorted set makes of the keys. */
  method SortedKeys(keys: set<Name>) returns (sorted: seq<Name>)
    ensures Sorted(sorted) && (forall n :: n in sorted <==> n in keys)
  {
    sorted := [];
    var left := keys;
    while left != {}
      invariant left <= keys && Sorted(sorted) && forall n :: n in sorted <==> n in keys && n !in left
      decreases left
    {
      var n :| n in left;
      sorted := Insert(sorted, n);
      left := left - {n};
    }
  }

  method Insert(names: seq<Name>, n: Name) returns (more: seq<Name>)
    requires Sorted(names) && n !in names
    ensures Sorted(more) && forall m :: m in more <==> m in names || m == n
  {
    hide Less;
    var at := 0;
    while at < |names| && Less(names[at], n)
      invariant 0 <= at <= |names| && forall i :: 0 <= i < at ==> Less(names[i], n)
    {
      at := at + 1;
    }
    if at < |names| {
      LessTotal(names[at], n);
      forall j | at < j < |names|
        ensures Less(n, names[j])
      {
        LessTransitive(n, names[at], names[j]);
      }
    }
    more := names[..at] + [n] + names[at..];
    assert names == names[..at] + names[at..];
  }

  method AnyLoaded(n: Name, done: seq<Package>) returns (loaded: bool)
    ensures loaded <==> Loaded(n, done)
  {
    for j := 0 to |done|
      invariant forall i :: 0 <= i < j ==> done[i].name != n
    {
      if done[j].name == n { return true; }
    }
    return false;
  }

  method DependenciesLoaded(names: seq<Name>, done: seq<Package>) returns (loaded: bool)
    ensures loaded <==> AllLoaded(names, done)
  {
    hide Loaded;
    for d := 0 to |names|
      invariant forall i :: 0 <= i < d ==> Loaded(names[i], done)
    {
      var here := AnyLoaded(names[d], done);
      if !here { return false; }
    }
    return true;
  }

  /** FirstOrDefault over the remaining names. */
  method FirstReady(catalog: Catalog, remaining: seq<Name>, done: seq<Package>) returns (at: Option<nat>)
    requires forall i :: 0 <= i < |remaining| ==> remaining[i] in catalog
    ensures at.Some? ==> at.value < |remaining| && AllLoaded(catalog[remaining[at.value]].dependencies, done)
    ensures forall i :: 0 <= i < (if at.Some? then at.value else |remaining|) ==>
              !AllLoaded(catalog[remaining[i]].dependencies, done)
  {
    hide AllLoaded;
    for i := 0 to |remaining|
      invariant forall j :: 0 <= j < i ==> !AllLoaded(catalog[remaining[j]].dependencies, done)
    {
      var ready := DependenciesLoaded(catalog[remaining[i]].dependencies, done);
      if ready { return Some(i); }
    }
    return None;
  }

  /** What the growing list and the shrinking set keep between them. */
  ghost predicate Shared(catalog: Catalog, order: seq<Package>, remaining: seq<Name>) {
    && DistinctNames(order) && Sorted(remaining)
    && (forall i :: 0 <= i < |order| ==> order[i].name in catalog && catalog[order[i].name] == order[i])
    && (forall n :: n in remaining <==> n in catalog && !Loaded(n, order))
  }

  predicate SelfContained(catalog: Catalog) {
    forall n :: n in catalog ==>
      catalog[n].name == n && forall k :: 0 <= k < |catalog[n].dependencies| ==> catalog[n].dependencies[k] in catalog
  }

  method Order(catalog: Catalog) returns (order: Option<seq<Package>>)
    requires CORE in catalog && catalog[CORE].dependencies == [] && SelfContained(catalog)
    ensures order.None? ==> HasCycle(catalog)
    ensures order.Some? ==>
              && Shared(catalog, order.value, []) && DependenciesFirst(order.value) && Greedy(catalog, order.value)
              && order.value != [] && order.value[0].name == CORE
  {
    hide HasCycle, Greedy, DependenciesFirst, Less, Loaded, AllLoaded;
    var done := [catalog[CORE]];
    StartsAtCore(catalog);
    var remaining := SortedKeys(catalog.Keys - {CORE});
    while remaining != []
      invariant Shared(catalog, done, remaining) && DependenciesFirst(done) && Greedy(catalog, done)
      invariant done != [] && done[0].name == CORE
      decreases |remaining|
    {
      var next := FirstReady(catalog, remaining, done);
      if next.None? {
        NothingReadyHasCycle(catalog, done, remaining);
        return None;
      }
      var at := next.value;
      var n := remaining[at];
      Advances(catalog, done, remaining, at);
      done := done + [catalog[n]];
      remaining := remaining[..at] + remaining[at + 1..];
    }
    return Some(done);
  }

  lemma StartsAtCore(catalog: Catalog)
    requires CORE in catalog && catalog[CORE].dependencies == [] && SelfContained(catalog)
    ensures forall n :: Loaded(n, [catalog[CORE]]) <==> n == CORE
    ensures DependenciesFirst([catalog[CORE]]) && Greedy(catalog, [catalog[CORE]])
  {
    assert [catalog[CORE]][0].name == CORE;
  }

  lemma LoadedAppend(n: Name, done: seq<Package>, p: Package)
    ensures Loaded(n, done + [p]) <==> Loaded(n, done) || n == p.name
  {
    var more := done + [p];
    if Loaded(n, done) {
      var j :| 0 <= j < |done| && done[j].name == n;
      assert more[j].name == n;
    }
    assert more[|done|] == p;
  }

  lemma WithoutAt(names: seq<Name>, at: nat)
    requires Sorted(names) && at < |names|
    ensures var fewer := names[..at] + names[at + 1..];
            Sorted(fewer) && forall n :: n in fewer <==> n in names && n != names[at]
  {
    hide Less;
    LessIrreflexive(names[at]);
    var fewer := names[..at] + names[at + 1..];
    forall n | n in names && n != names[at]
      ensures n in fewer
    {
      var i :| 0 <= i < |names| && names[i] == n;
      assert fewer[if i < at then i else i - 1] == n;
    }
    forall n | n in fewer
      ensures n in names && n != names[at]
    {
      var i :| 0 <= i < |fewer| && fewer[i] == n;
      var j := if i < at then i else i + 1;
      assert names[j] == n;
      assert j != at && (j < at ==> Less(n, names[at])) && (at < j ==> Less(names[at], n));
    }
  }

  /** Taking the first ready name keeps everything, and is the greedy choice. */
  lemma Advances(catalog: Catalog, done: seq<Package>, remaining: seq<Name>, at: nat)
    requires Shared(catalog, done, remaining) && DependenciesFirst(done) && Greedy(catalog, done)
             && SelfContained(catalog)
    requires at < |remaining| && AllLoaded(catalog[remaining[at]].dependencies, done)
    requires forall i :: 0 <= i < at ==> !AllLoaded(catalog[remaining[i]].dependencies, done)
    ensures var more, fewer := done + [catalog[remaining[at]]], remaining[..at] + remaining[at + 1..];
            Shared(catalog, more, fewer) && DependenciesFirst(more) && Greedy(catalog, more)
  {
    hide Less, Loaded, AllLoaded, Greedy, DependenciesFirst;
    var n := remaining[at];
    assert n in remaining;
    var p := catalog[n];
    var more := done + [p];
    WithoutAt(remaining, at);
    forall m
      ensures Loaded(m, more) <==> Loaded(m, done) || m == n
    {
      LoadedAppend(m, done, p);
    }
    DistinctAppend(done, p);
    FirstAppend(done, p);
    forall m | Ready(catalog, m, done)
      ensures m == n || Less(n, m)
    {
      assert m in remaining;
      var i :| 0 <= i < |remaining| && remaining[i] == m;
      assert i >= at;
    }
    GreedyAppend(catalog, done, p);
  }

  lemma DistinctAppend(done: seq<Package>, p: Package)
    requires DistinctNames(done) && !Loaded(p.name, done)
    ensures DistinctNames(done + [p])
  {
  }

  lemma FirstAppend(done: seq<Package>, p: Package)
    requires DependenciesFirst(done) && AllLoaded(p.dependencies, done)
    ensures DependenciesFirst(done + [p])
  {
    hide AllLoaded;
    var more := done + [p];
    forall k | 0 <= k < |more|
      ensures AllLoaded(more[k].dependencies, more[..k])
    {
      assert more[..k] == if k < |done| then done[..k] else done;
    }
  }

  lemma GreedyAppend(catalog: Catalog, done: seq<Package>, p: Package)
    requires Greedy(catalog, done)
    requires forall m :: Ready(catalog, m, done) ==> m == p.name || Less(p.name, m)
    ensures Greedy(catalog, done + [p])
  {
    hide Ready, Less;
    var more := done + [p];
    forall k | 1 <= k < |more|
      ensures NextIsFirst(catalog, more, k)
    {
      assert more[..k] == if k < |done| then done[..k] else done;
      if k < |done| { assert NextIsFirst(catalog, done, k); }
    }
  }

  // ---- Stuck means a cycle ----

  /** The remaining name a stuck name is waiting for. */
  lemma Waits(catalog: Catalog, done: seq<Package>, remaining: seq<Name>, n: Name) returns (d: Name)
    requires Shared(catalog, done, remaining) && SelfContained(catalog)
    requires n in remaining && !AllLoaded(catalog[n].dependencies, done)
    ensures d in remaining && DependsOn(catalog, n, d)
  {
    hide Loaded, Less;
    var k :| 0 <= k < |catalog[n].dependencies| && !Loaded(catalog[n].dependencies[k], done);
    d := catalog[n].dependencies[k];
  }

  predicate Stuck(catalog: Catalog, done: seq<Package>, remaining: seq<Name>) {
    forall i :: 0 <= i < |remaining| ==> remaining[i] in catalog && !AllLoaded(catalog[remaining[i]].dependencies, done)
  }

  lemma NothingReadyHasCycle(catalog: Catalog, done: seq<Package>, remaining: seq<Name>)
    requires Shared(catalog, done, remaining) && SelfContained(catalog) && remaining != []
    requires Stuck(catalog, done, remaining)
    ensures HasCycle(catalog)
  {
    hide Loaded, AllLoaded, Less;
    var names := set n | n in remaining;
    FollowWaits(catalog, done, remaining, names, [remaining[0]]);
  }

  /** Following what each waits for must come back, there being only so many names. */
  lemma {:induction false} FollowWaits(catalog: Catalog, done: seq<Package>, remaining: seq<Name>, unseen: set<Name>,
                                       path: seq<Name>)
    requires Shared(catalog, done, remaining) && SelfContained(catalog) && Stuck(catalog, done, remaining)
    requires path != [] && forall i :: 0 <= i < |path| ==> path[i] in remaining
    requires forall i :: 0 < i < |path| ==> DependsOn(catalog, path[i - 1], path[i])
    requires forall n :: n in remaining && n !in path[..|path| - 1] ==> n in unseen
    requires path[|path| - 1] in unseen
    ensures HasCycle(catalog)
    decreases unseen
  {
    hide Loaded, AllLoaded, Less, Shared, SelfContained, Stuck;
    var last := path[|path| - 1];
    StuckAt(catalog, done, remaining, last);
    var d := Waits(catalog, done, remaining, last);
    var longer := path + [d];
    assert longer[..|longer| - 1] == path == path[..|path| - 1] + [last];
    if d in path {
      var i :| 0 <= i < |path| && path[i] == d;
      var c := longer[i..];
      assert c[0] == d == c[|c| - 1];
      forall j | 0 < j < |c|
        ensures DependsOn(catalog, c[j - 1], c[j])
      {
        assert DependsOn(catalog, longer[i + j - 1], longer[i + j]);
      }
      assert IsCycle(catalog, c);
    } else {
      FollowWaits(catalog, done, remaining, unseen - {last}, longer);
    }
  }

  lemma StuckAt(catalog: Catalog, done: seq<Package>, remaining: seq<Name>, n: Name)
    requires Stuck(catalog, done, remaining) && n in remaining
    ensures n in catalog && !AllLoaded(catalog[n].dependencies, done)
  {
  }

  // ---- A cycle rules every order out ----

  /** Going round a cycle goes back in the order by a step each time. */
  lemma {:induction false} CycleGoesBack(catalog: Catalog, order: seq<Package>, c: seq<Name>, i: nat) returns (at: nat)
    requires Shared(catalog, order, []) && DependenciesFirst(order) && IsCycle(catalog, c) && i < |c|
    ensures at < |order| && order[at].name == c[|c| - 1]
    ensures forall k :: 0 <= k < |order| && order[k].name == c[i] ==> at + (|c| - 1 - i) <= k
    decreases |c| - i
  {
    hide Less;
    var n := c[i];
    if i == |c| - 1 {
      assert DependsOn(catalog, c[i - 1], n);
      at := InOrder(catalog, order, c[i - 1], n);
    } else {
      at := CycleGoesBack(catalog, order, c, i + 1);
      assert DependsOn(catalog, n, c[i + 1]);
      forall k | 0 <= k < |order| && order[k].name == n
        ensures at + (|c| - 1 - i) <= k
      {
        var j := Before(catalog, order, k, c[i + 1]);
        assert at + (|c| - 1 - (i + 1)) <= j;
      }
    }
  }

  lemma InOrder(catalog: Catalog, order: seq<Package>, a: Name, b: Name) returns (at: nat)
    requires Shared(catalog, order, []) && DependenciesFirst(order) && DependsOn(catalog, a, b)
    ensures at < |order| && order[at].name == b
  {
    hide Less, DependenciesFirst;
    assert a !in [];
    assert Loaded(a, order);
    var k :| 0 <= k < |order| && order[k].name == a;
    at := Before(catalog, order, k, b);
  }

  lemma Before(catalog: Catalog, order: seq<Package>, k: nat, b: Name) returns (j: nat)
    requires Shared(catalog, order, []) && DependenciesFirst(order) && k < |order|
             && DependsOn(catalog, order[k].name, b)
    ensures j < k && order[j].name == b
  {
    hide Less;
    assert AllLoaded(order[k].dependencies, order[..k]);
    var d :| 0 <= d < |order[k].dependencies| && order[k].dependencies[d] == b;
    assert Loaded(order[k].dependencies[d], order[..k]);
    j :| 0 <= j < k && order[..k][j].name == b;
  }

  lemma OrderHasNoCycle(catalog: Catalog, order: seq<Package>)
    requires Shared(catalog, order, []) && DependenciesFirst(order)
    ensures !HasCycle(catalog)
  {
    hide Less, Shared, DependenciesFirst;
    if HasCycle(catalog) {
      var c :| IsCycle(catalog, c);
      var at := CycleGoesBack(catalog, order, c, 0);
      assert false;
    }
  }
}
