/** LoadPackages, and why its order is the only one it could have produced. */
module BundleOrder {
  import opened Wrappers
  import opened Bytes
  import opened Bundle

  method AllAcceptable(packages: seq<Package>, catalog: Catalog, signer: seq<Byte>) returns (ok: bool)
    ensures ok <==> forall k :: 0 <= k < |packages| ==> Acceptable(catalog, packages[k], signer)
  {
    hide Acceptable;
    for k := 0 to |packages|
      invariant forall i :: 0 <= i < k ==> Acceptable(catalog, packages[i], signer)
    {
      if !Acceptable(catalog, packages[k], signer) { return false; }
    }
    return true;
  }

  method SameIncarnation(packages: seq<Package>, core: Package) returns (ok: bool)
    ensures ok <==> forall k :: 0 <= k < |packages| ==> packages[k].incarnation == core.incarnation
  {
    for k := 0 to |packages|
      invariant forall i :: 0 <= i < k ==> packages[i].incarnation == core.incarnation
    {
      if packages[k].incarnation != core.incarnation { return false; }
    }
    return true;
  }

  ghost predicate IsGreedyOrder(packages: seq<Package>, order: seq<Package>) {
    IsLoadOrder(packages, order) && Greedy(CatalogOf(packages), order)
  }

  /** Succeeds exactly on an admissible set without a dependency cycle; the answer loads every
      package once, mscorlib first, each after its dependencies and as early as its name allows. */
  method LoadPackages(packages: seq<Package>, requiredSigner: seq<Byte>) returns (order: Option<seq<Package>>)
    ensures order.Some? <==> Admissible(packages, requiredSigner) && !HasCycle(CatalogOf(packages))
    ensures order.Some? ==> IsGreedyOrder(packages, order.value)
    ensures order.None? && Admissible(packages, requiredSigner) ==> forall other :: !IsLoadOrder(packages, other)
  {
    hide HasCycle, Greedy, DependenciesFirst, Acceptable, Shared, CatalogOf, DistinctNames;
    if |packages| == 0 || |packages| > 255 { return None; }
    var read := ReadAll(packages);
    if read.None? { return None; }
    var catalog := read.value;
    CatalogIsPackages(packages);
    var ok := AllAcceptable(packages, catalog, requiredSigner);
    if !ok {
      SomeNotAcceptable(packages, catalog, requiredSigner);
      return None;
    }
    if CORE !in catalog || catalog[CORE].dependencies != [] { return None; }
    ok := SameIncarnation(packages, catalog[CORE]);
    if !ok { return None; }
    AcceptableIsSelfContained(packages, catalog, requiredSigner);
    order := Order(catalog);
    if order.None? {
      forall other | IsLoadOrder(packages, other)
        ensures false
      {
        LoadOrderHasNoCycle(packages, other);
      }
      return None;
    }
    OrderHasNoCycle(catalog, order.value);
    SharedIsPermutation(packages, order.value);
    EachAcceptable(catalog, requiredSigner);
    if order.value[0].name != CORE { return None; }
  }

  /** Each name stands for one package. */
  lemma {:induction false} CatalogIsPackages(packages: seq<Package>)
    requires DistinctNames(packages)
    ensures forall k :: 0 <= k < |packages| ==>
              packages[k].name in CatalogOf(packages) && CatalogOf(packages)[packages[k].name] == packages[k]
    ensures forall n :: n in CatalogOf(packages) ==>
              CatalogOf(packages)[n].name == n && CatalogOf(packages)[n] in packages
  {
    if packages != [] {
      var last := |packages| - 1;
      var before := packages[..last];
      CatalogIsPackages(before);
      forall k | 0 <= k < |packages|
        ensures packages[k].name in CatalogOf(packages) && CatalogOf(packages)[packages[k].name] == packages[k]
      {
        if k < last { assert before[k] == packages[k]; }
      }
      forall n | n in CatalogOf(packages)
        ensures CatalogOf(packages)[n].name == n && CatalogOf(packages)[n] in packages
      {
        if n != packages[last].name { assert n in CatalogOf(before) && CatalogOf(before)[n] in before; }
      }
    }
  }

  /** A package that is not acceptable makes the set inadmissible. */
  lemma SomeNotAcceptable(packages: seq<Package>, catalog: Catalog, signer: seq<Byte>)
    requires DistinctNames(packages) && catalog == CatalogOf(packages)
    requires exists k :: 0 <= k < |packages| && !Acceptable(catalog, packages[k], signer)
    ensures !Admissible(packages, signer)
  {
    hide CatalogOf, DistinctNames;
    CatalogIsPackages(packages);
    var k :| 0 <= k < |packages| && !Acceptable(catalog, packages[k], signer);
    assert catalog[packages[k].name] == packages[k];
  }

  lemma EachAcceptable(catalog: Catalog, signer: seq<Byte>)
    requires forall n :: n in catalog ==> Acceptable(catalog, catalog[n], signer)
    ensures forall n :: n in catalog ==> catalog[n].domain == ISSUER && catalog[n].signer == signer
    ensures forall n, d :: n in catalog && d in catalog[n].dependencies ==> d in catalog
  {
    forall n, d | n in catalog && d in catalog[n].dependencies
      ensures d in catalog
    {
      assert Acceptable(catalog, catalog[n], signer);
    }
  }

  lemma AcceptableIsSelfContained(packages: seq<Package>, catalog: Catalog, signer: seq<Byte>)
    requires DistinctNames(packages) && catalog == CatalogOf(packages)
    requires forall k :: 0 <= k < |packages| ==> Acceptable(catalog, packages[k], signer)
    ensures SelfContained(catalog) && forall n :: n in catalog ==> Acceptable(catalog, catalog[n], signer)
  {
    hide CatalogOf;
    CatalogIsPackages(packages);
    forall n | n in catalog
      ensures Acceptable(catalog, catalog[n], signer)
    {
      var k :| 0 <= k < |packages| && packages[k] == catalog[n];
    }
  }

  // ---- Permutation ----

  lemma {:induction false} DistinctCounts(packages: seq<Package>, p: Package)
    requires DistinctNames(packages)
    ensures multiset(packages)[p] == if p in packages then 1 else 0
  {
    if packages != [] {
      var last := |packages| - 1;
      DistinctCounts(packages[..last], p);
      assert packages == packages[..last] + [packages[last]];
    }
  }

  lemma SameElements(a: seq<Package>, b: seq<Package>)
    requires DistinctNames(a) && DistinctNames(b) && forall p :: p in a <==> p in b
    ensures multiset(a) == multiset(b)
  {
    forall p
      ensures multiset(a)[p] == multiset(b)[p]
    {
      DistinctCounts(a, p);
      DistinctCounts(b, p);
    }
  }

  lemma SharedIsPermutation(packages: seq<Package>, order: seq<Package>)
    requires DistinctNames(packages) && Shared(CatalogOf(packages), order, [])
    ensures multiset(order) == multiset(packages)
  {
    hide CatalogOf, Less;
    var catalog := CatalogOf(packages);
    CatalogIsPackages(packages);
    forall p
      ensures p in order <==> p in packages
    {
      if p in packages {
        assert p.name !in [];
        assert Loaded(p.name, order);
      }
    }
    SameElements(order, packages);
  }

  // ---- Uniqueness ----

  lemma Permuted(a: seq<Package>, b: seq<Package>)
    requires multiset(a) == multiset(b)
    ensures |a| == |b| && (forall p :: p in a <==> p in b) && (DistinctNames(a) ==> DistinctNames(b))
  {
    assert |a| == |multiset(a)| == |multiset(b)| == |b|;
    forall p
      ensures p in a <==> p in b
    {
      assert p in a <==> p in multiset(a);
      assert p in b <==> p in multiset(b);
    }
    if DistinctNames(a) {
      forall i, j | 0 <= i < j < |b|
        ensures b[i].name != b[j].name
      {
        SamePackage(a, b[i], b[j]);
        DistinctCounts(a, b[i]);
        CountedTwice(b, i, j);
      }
    }
  }

  lemma CountedTwice(b: seq<Package>, i: nat, j: nat)
    requires i < j < |b|
    ensures b[i] == b[j] ==> multiset(b)[b[i]] >= 2
  {
    var head, tail := b[..j], b[j..];
    assert b == head + tail && head[i] == b[i] && tail[0] == b[j];
    assert b[i] in multiset(head) && b[j] in multiset(tail);
  }

  /** Of two load orders, where they first differ the greedy one has the earlier name. */
  lemma LoadOrderIsLeast(packages: seq<Package>, order: seq<Package>, other: seq<Package>) returns (k: nat)
    requires DistinctNames(packages) && IsLoadOrder(packages, order) && IsLoadOrder(packages, other)
    requires Greedy(CatalogOf(packages), order)
    ensures k <= |order| == |other| && order[..k] == other[..k]
    ensures k < |order| ==> Less(order[k].name, other[k].name)
  {
    hide Less, CatalogOf, DependenciesFirst, Greedy, DistinctNames;
    Permuted(packages, order);
    Permuted(packages, other);
    CatalogIsPackages(packages);
    k := 0;
    while k < |order| && order[k] == other[k]
      invariant k <= |order| && order[..k] == other[..k]
    {
      k := k + 1;
    }
    if k < |order| {
      SamePackage(packages, order[0], other[0]);
      CouldComeNext(packages, order, other, k);
      GreedyAt(CatalogOf(packages), order, k, other[k].name);
      SamePackage(packages, order[k], other[k]);
    }
  }

  lemma SamePackage(packages: seq<Package>, a: Package, b: Package)
    requires DistinctNames(packages) && a in packages && b in packages
    ensures a.name == b.name ==> a == b
  {
  }

  lemma GreedyAt(catalog: Catalog, order: seq<Package>, k: nat, n: Name)
    requires Greedy(catalog, order) && 1 <= k < |order| && Ready(catalog, n, order[..k])
    ensures n == order[k].name || Less(order[k].name, n)
  {
    hide Less, Ready;
    assert NextIsFirst(catalog, order, k);
  }

  /** The next package of any load order is ready after the same beginning. */
  lemma CouldComeNext(packages: seq<Package>, order: seq<Package>, other: seq<Package>, k: nat)
    requires DistinctNames(packages) && IsLoadOrder(packages, other) && k < |other|
    requires k <= |order| && order[..k] == other[..k]
    ensures Ready(CatalogOf(packages), other[k].name, order[..k])
  {
    hide CatalogOf, AllLoaded;
    Permuted(packages, other);
    CatalogIsPackages(packages);
    assert other[k] in packages;
  }

  /** The order of the arguments does not matter. */
  lemma OrderIgnoresArguments(packages: seq<Package>, shuffled: seq<Package>, signer: seq<Byte>)
    requires multiset(packages) == multiset(shuffled)
    ensures Admissible(packages, signer) <==> Admissible(shuffled, signer)
    ensures Admissible(packages, signer) ==> CatalogOf(packages) == CatalogOf(shuffled)
    ensures Admissible(packages, signer) ==>
              forall a, b :: IsGreedyOrder(packages, a) && IsGreedyOrder(shuffled, b) ==> a == b
  {
    hide CatalogOf, DependenciesFirst, Greedy, Acceptable, DistinctNames;
    Permuted(packages, shuffled);
    Permuted(shuffled, packages);
    if DistinctNames(packages) {
      SameCatalog(packages, shuffled);
      forall a, b | IsGreedyOrder(packages, a) && IsGreedyOrder(shuffled, b)
        ensures a == b
      {
        GreedyUnique(packages, a, b);
      }
    }
  }

  lemma GreedyUnique(packages: seq<Package>, a: seq<Package>, b: seq<Package>)
    requires DistinctNames(packages) && IsGreedyOrder(packages, a) && IsGreedyOrder(packages, b)
    ensures a == b
  {
    hide CatalogOf, DependenciesFirst, Greedy, DistinctNames, Less;
    var k := LoadOrderIsLeast(packages, a, b);
    var m := LoadOrderIsLeast(packages, b, a);
    if k < |a| && m < |a| {
      if k < m { assert a[..m][k] == b[..m][k]; }
      if m < k { assert a[..k][m] == b[..k][m]; }
      LessIrreflexive(a[k].name);
      LessIrreflexive(a[m].name);
      LessTransitive(a[k].name, b[k].name, a[k].name);
      assert false;
    }
    assert a[..|a|] == a && b[..|b|] == b;
  }

  lemma SameCatalog(packages: seq<Package>, shuffled: seq<Package>)
    requires DistinctNames(packages) && DistinctNames(shuffled) && forall p :: p in packages <==> p in shuffled
    ensures CatalogOf(packages) == CatalogOf(shuffled)
  {
    hide CatalogOf;
    CatalogIsPackages(packages);
    CatalogIsPackages(shuffled);
    var a, b := CatalogOf(packages), CatalogOf(shuffled);
    forall n
      ensures n in a <==> n in b
      ensures n in a ==> a[n] == b[n]
    {
      if n in a { InOther(packages, shuffled, n); }
      if n in b { InOther(shuffled, packages, n); }
    }
  }

  lemma InOther(packages: seq<Package>, shuffled: seq<Package>, n: Name)
    requires DistinctNames(packages) && DistinctNames(shuffled) && forall p :: p in packages <==> p in shuffled
    requires n in CatalogOf(packages)
    ensures n in CatalogOf(shuffled) && CatalogOf(shuffled)[n] == CatalogOf(packages)[n]
  {
    hide CatalogOf;
    CatalogIsPackages(packages);
    CatalogIsPackages(shuffled);
    var p := CatalogOf(packages)[n];
    var k :| 0 <= k < |shuffled| && shuffled[k] == p;
  }

  /** Any load order at all, greedy or not, rules a cycle out. */
  lemma LoadOrderHasNoCycle(packages: seq<Package>, order: seq<Package>)
    requires DistinctNames(packages) && IsLoadOrder(packages, order)
    ensures !HasCycle(CatalogOf(packages))
  {
    hide Less, HasCycle, DependenciesFirst;
    OrderIsShared(packages, order);
    OrderHasNoCycle(CatalogOf(packages), order);
  }

  lemma OrderIsShared(packages: seq<Package>, order: seq<Package>)
    requires DistinctNames(packages) && multiset(order) == multiset(packages)
    ensures Shared(CatalogOf(packages), order, [])
  {
    hide CatalogOf, Less;
    Permuted(packages, order);
    CatalogIsPackages(packages);
    forall n | n in CatalogOf(packages)
      ensures Loaded(n, order)
    {
      var p := CatalogOf(packages)[n];
      assert p in order;
      var j :| 0 <= j < |order| && order[j] == p;
      assert order[j].name == n;
    }
    forall i | 0 <= i < |order|
      ensures order[i].name in CatalogOf(packages) && CatalogOf(packages)[order[i].name] == order[i]
    {
      assert order[i] in packages;
    }
  }
}
