/** Pulling in the packages that a target needs, with backtracking over a list that is restored on failure. */
module ResolveDeps {
  import opened Common
  import opened DepString
  import opened Package
  import opened PkgLists
  import opened Deps
  import opened Handle

  predicate Usable(db: Db) { db.usage.install || db.usage.upgrade }

  // ---- resolvedep ----

  /** Found by name in a usable database, satisfying the dependency by its own name and version. */
  ghost predicate Literal(db: Db, dep: Depend, ignored: set<Pkg>, excluding: seq<Pkg>, p: Pkg) {
    && Usable(db) && FindPkg(db.pkgcache, dep.name) == Some(p) && DepCmpLiteral(p, dep)
    && p !in ignored && !HasName(excluding, p.name)
  }

  ghost predicate AnyLiteral(dbs: seq<Db>, dep: Depend, ignored: set<Pkg>, excluding: seq<Pkg>) {
    exists db, p :: db in dbs && Literal(db, dep, ignored, excluding, p)
  }

  /** The match of the first database that has one; with prompting an ignored package may be taken instead. */
  ghost predicate FirstLiteral(dbs: seq<Db>, dep: Depend, ignored: set<Pkg>, excluding: seq<Pkg>, prompt: bool, p: Pkg) {
    exists i :: 0 <= i < |dbs| && Literal(dbs[i], dep, if prompt then {} else ignored, excluding, p) &&
                forall k, q :: 0 <= k < i ==> !Literal(dbs[k], dep, ignored, excluding, q)
  }

  /** Named otherwise, and providing the dependency. */
  predicate Provider(db: Db, dep: Depend, excluding: seq<Pkg>, p: Pkg) {
    Usable(db) && p.name != dep.name && DepCmpProvides(dep, p.provisions) && FindPkg(excluding, p.name).None?
  }

  ghost predicate Found(dbs: seq<Db>, p: Pkg) {
    exists db :: db in dbs && Usable(db) && p in db.pkgcache
  }

  /** A package that satisfies the dependency, from a usable database, not excluded, ignored only if prompted for. */
  ghost predicate Fits(dbs: seq<Db>, dep: Depend, ignored: set<Pkg>, excluding: seq<Pkg>, prompt: bool, p: Pkg) {
    Found(dbs, p) && DepCmp(p, dep) && !HasName(excluding, p.name) && (prompt || p !in ignored)
  }

  method FindLiteral(ignored: set<Pkg>, dep: Depend, dbs: seq<Db>, excluding: seq<Pkg>, prompt: bool) returns (r: Option<Pkg>)
    ensures r.Some? ==> r.value.name == dep.name && Fits(dbs, dep, ignored, excluding, prompt, r.value)
    ensures r.Some? ==> FirstLiteral(dbs, dep, ignored, excluding, prompt, r.value)
    ensures r.None? ==> !AnyLiteral(dbs, dep, ignored, excluding)
    ensures r.Some? && !prompt ==> AnyLiteral(dbs, dep, ignored, excluding)
  {
    hide DepCmpLiteral, HasName, DepCmpProvides;
    var i := 0;
    while i < |dbs|
      invariant i <= |dbs| && forall k, p :: 0 <= k < i ==> !Literal(dbs[k], dep, ignored, excluding, p)
    {
      var db := dbs[i];
      if Usable(db) {
        var pkg := FindPkg(db.pkgcache, dep.name);
        if pkg.Some? && DepCmpLiteral(pkg.value, dep) && FindPkg(excluding, pkg.value.name).None? {
          var install := false;
          if pkg.value in ignored && prompt { install := *; }
          if pkg.value !in ignored || install {
            assert Found(dbs, pkg.value);
            assert Literal(db, dep, if prompt then {} else ignored, excluding, pkg.value);
            return pkg;
          }
        }
      }
      i := i + 1;
    }
    r := None;
  }

  /** The providers among the first `j` packages of a database, ignored ones left out. */
  function ProvidersUpTo(db: Db, dep: Depend, ignored: set<Pkg>, excluding: seq<Pkg>, j: nat): (ps: seq<Pkg>)
    requires j <= |db.pkgcache|
    ensures |ps| <= j
  {
    if j == 0 then []
    else
      var pkg := db.pkgcache[j-1];
      ProvidersUpTo(db, dep, ignored, excluding, j - 1) + if Provider(db, dep, excluding, pkg) && pkg !in ignored then [pkg] else []
  }

  /** The providers of the first `n` databases, in order. */
  function Providers(dbs: seq<Db>, n: nat, dep: Depend, ignored: set<Pkg>, excluding: seq<Pkg>): seq<Pkg>
    requires n <= |dbs|
  {
    if n == 0 then []
    else Providers(dbs, n - 1, dep, ignored, excluding) + ProvidersUpTo(dbs[n-1], dep, ignored, excluding, |dbs[n-1].pkgcache|)
  }

  lemma NothingFrom(db: Db, dep: Depend, ignored: set<Pkg>, excluding: seq<Pkg>)
    ensures ProvidersUpTo(db, dep, ignored, excluding, 0) == []
  {
  }

  lemma NextPackage(db: Db, dep: Depend, ignored: set<Pkg>, excluding: seq<Pkg>, j: nat)
    requires j < |db.pkgcache|
    ensures var pkg := db.pkgcache[j];
            ProvidersUpTo(db, dep, ignored, excluding, j + 1) ==
            ProvidersUpTo(db, dep, ignored, excluding, j) + if Provider(db, dep, excluding, pkg) && pkg !in ignored then [pkg] else []
  {
    hide Provider;
  }

  lemma NextDatabase(dbs: seq<Db>, n: nat, dep: Depend, ignored: set<Pkg>, excluding: seq<Pkg>)
    requires n < |dbs|
    ensures Providers(dbs, n + 1, dep, ignored, excluding) ==
            Providers(dbs, n, dep, ignored, excluding) + ProvidersUpTo(dbs[n], dep, ignored, excluding, |dbs[n].pkgcache|)
  {
    hide ProvidersUpTo;
  }

  ghost predicate AnyInstalled(local: seq<Pkg>, pkgs: seq<Pkg>) { exists p :: p in pkgs && HasName(local, p.name) }

  /** The first of the packages that is installed. */
  ghost predicate FirstInstalled(local: seq<Pkg>, pkgs: seq<Pkg>, p: Pkg) {
    HasName(local, p.name) && exists i :: 0 <= i < |pkgs| && pkgs[i] == p && forall k :: 0 <= k < i ==> !HasName(local, pkgs[k].name)
  }

  lemma StillFirst(local: seq<Pkg>, pkgs: seq<Pkg>, more: seq<Pkg>, p: Pkg)
    requires FirstInstalled(local, pkgs, p) && pkgs <= more
    ensures FirstInstalled(local, more, p)
  {
    hide HasName;
    var i :| 0 <= i < |pkgs| && pkgs[i] == p && forall k :: 0 <= k < i ==> !HasName(local, pkgs[k].name);
    assert more[i] == p && forall k :: 0 <= k < i ==> more[k] == pkgs[k];
  }

  lemma IsFirst(local: seq<Pkg>, before: seq<Pkg>, p: Pkg, more: seq<Pkg>)
    requires (forall x :: x in before ==> !HasName(local, x.name)) && HasName(local, p.name) && before + [p] <= more
    ensures FirstInstalled(local, more, p)
  {
    hide HasName;
    var all := before + [p];
    assert all[|before|] == p && forall k :: 0 <= k < |before| ==> all[k] == before[k] && before[k] in before;
    assert FirstInstalled(local, all, p);
    StillFirst(local, all, more, p);
  }

  lemma {:induction false} ProvidersGrow(db: Db, dep: Depend, ignored: set<Pkg>, excluding: seq<Pkg>, i: nat, j: nat)
    requires i <= j <= |db.pkgcache|
    ensures ProvidersUpTo(db, dep, ignored, excluding, i) <= ProvidersUpTo(db, dep, ignored, excluding, j)
    decreases j
  {
    hide Provider;
    if i < j { ProvidersGrow(db, dep, ignored, excluding, i, j - 1); }
  }

  lemma {:induction false} MoreProviders(dbs: seq<Db>, m: nat, n: nat, dep: Depend, ignored: set<Pkg>, excluding: seq<Pkg>)
    requires m <= n <= |dbs|
    ensures Providers(dbs, m, dep, ignored, excluding) <= Providers(dbs, n, dep, ignored, excluding)
    decreases n
  {
    hide ProvidersUpTo;
    if m < n { MoreProviders(dbs, m, n - 1, dep, ignored, excluding); }
  }

  /** A place in the databases: which database, and which of its packages. */
  datatype Place = Place(db: nat, pkg: nat)

  ghost predicate Earlier(x: Place, y: Place) { x.db < y.db || (x.db == y.db && x.pkg < y.pkg) }

  /** A package that provides the dependency under another name, neither excluded nor ignored, where it may be taken from. */
  ghost predicate ProvidesAt(dbs: seq<Db>, dep: Depend, ignored: set<Pkg>, excluding: seq<Pkg>, x: Place) {
    x.db < |dbs| && x.pkg < |dbs[x.db].pkgcache| &&
    var db, p := dbs[x.db], dbs[x.db].pkgcache[x.pkg];
    && (db.usage.install || db.usage.upgrade)
    && p.name != dep.name && DepCmpProvides(dep, p.provisions) && !HasName(excluding, p.name) && p !in ignored
  }

  /** The places of the packages of a list, from the first to the last. */
  ghost predicate TakenFrom(dbs: seq<Db>, places: seq<Place>, pkgs: seq<Pkg>) {
    && |places| == |pkgs|
    && (forall a :: 0 <= a < |places| ==>
          places[a].db < |dbs| && places[a].pkg < |dbs[places[a].db].pkgcache| && dbs[places[a].db].pkgcache[places[a].pkg] == pkgs[a])
    && (forall a, b :: 0 <= a < b < |places| ==> Earlier(places[a], places[b]))
  }

  /** The providers are taken from every place that has one, in the order of the databases and of their packages. */
  lemma {:induction false} ProvidersInOrder(dbs: seq<Db>, n: nat, dep: Depend, ignored: set<Pkg>, excluding: seq<Pkg>)
    returns (places: seq<Place>)
    requires n <= |dbs|
    ensures TakenFrom(dbs, places, Providers(dbs, n, dep, ignored, excluding))
    ensures forall x :: x in places <==> ProvidesAt(dbs, dep, ignored, excluding, x) && x.db < n
  {
    hide ProvidersUpTo, ProvidesAt;
    if n == 0 {
      places := [];
    } else {
      var before := ProvidersInOrder(dbs, n - 1, dep, ignored, excluding);
      var more := ProvidersFromOne(dbs, n - 1, |dbs[n-1].pkgcache|, dep, ignored, excluding);
      places := before + more;
      forall x ensures x in places <==> ProvidesAt(dbs, dep, ignored, excluding, x) && x.db < n { InCache(dbs, dep, ignored, excluding, x); }
      JoinedPlaces(dbs, n - 1, before, Providers(dbs, n - 1, dep, ignored, excluding),
                   more, ProvidersUpTo(dbs[n-1], dep, ignored, excluding, |dbs[n-1].pkgcache|));
    }
  }

  lemma InCache(dbs: seq<Db>, dep: Depend, ignored: set<Pkg>, excluding: seq<Pkg>, x: Place)
    ensures ProvidesAt(dbs, dep, ignored, excluding, x) ==> x.db < |dbs| && x.pkg < |dbs[x.db].pkgcache|
  {
  }

  lemma JoinedPlaces(dbs: seq<Db>, n: nat, before: seq<Place>, pkgs: seq<Pkg>, more: seq<Place>, rest: seq<Pkg>)
    requires TakenFrom(dbs, before, pkgs) && TakenFrom(dbs, more, rest)
    requires (forall x :: x in before ==> x.db < n) && forall x :: x in more ==> x.db == n
    ensures TakenFrom(dbs, before + more, pkgs + rest)
  {
    var places := before + more;
    forall a, b | 0 <= a < b < |places| ensures Earlier(places[a], places[b]) {
      if a < |before| && b >= |before| {
        assert before[a] in before && more[b-|before|] in more;
      }
    }
  }

  lemma {:induction false} ProvidersFromOne(dbs: seq<Db>, n: nat, j: nat, dep: Depend, ignored: set<Pkg>, excluding: seq<Pkg>)
    returns (places: seq<Place>)
    requires n < |dbs| && j <= |dbs[n].pkgcache|
    ensures TakenFrom(dbs, places, ProvidersUpTo(dbs[n], dep, ignored, excluding, j))
    ensures forall x :: x in places <==> ProvidesAt(dbs, dep, ignored, excluding, x) && x.db == n && x.pkg < j
    decreases j
  {
    hide HasName, DepCmpProvides;
    if j == 0 {
      places := [];
    } else {
      places := ProvidersFromOne(dbs, n, j - 1, dep, ignored, excluding);
      assert forall a :: 0 <= a < |places| ==> places[a] in places;
      if ProvidesAt(dbs, dep, ignored, excluding, Place(n, j - 1)) { places := places + [Place(n, j - 1)]; }
    }
  }

  lemma {:induction false} UnusableProvidesNothing(db: Db, dep: Depend, ignored: set<Pkg>, excluding: seq<Pkg>, j: nat)
    requires !Usable(db) && j <= |db.pkgcache|
    ensures ProvidersUpTo(db, dep, ignored, excluding, j) == []
  {
    if j > 0 { UnusableProvidesNothing(db, dep, ignored, excluding, j - 1); }
  }

  /** What has been collected from the first `n` databases: none is installed, and without prompting they are
      all the providers there are. */
  ghost predicate Collecting(local: seq<Pkg>, ignored: set<Pkg>, dep: Depend, dbs: seq<Db>, excluding: seq<Pkg>, prompt: bool,
                             n: nat, providers: seq<Pkg>)
    requires n <= |dbs|
  {
    && (forall p :: p in providers ==> Fits(dbs, dep, ignored, excluding, prompt, p) && !HasName(local, p.name))
    && |providers| <= |Providers(dbs, n, dep, {}, excluding)|
    && (!prompt ==> providers == Providers(dbs, n, dep, ignored, excluding))
  }

  /** The inner loop over database `n`; `early` is a provider that is already installed. */
  method CollectProviders(local: seq<Pkg>, ignored: set<Pkg>, dep: Depend, dbs: seq<Db>, excluding: seq<Pkg>, prompt: bool,
                          n: nat, providers0: seq<Pkg>)
    returns (providers: seq<Pkg>, early: Option<Pkg>)
    requires n < |dbs| && Usable(dbs[n]) && Collecting(local, ignored, dep, dbs, excluding, prompt, n, providers0)
    ensures early.None? ==> Collecting(local, ignored, dep, dbs, excluding, prompt, n + 1, providers)
    ensures early.Some? ==> Fits(dbs, dep, ignored, excluding, prompt, early.value) && HasName(local, early.value.name)
    ensures early.Some? && !prompt ==> FirstInstalled(local, Providers(dbs, n + 1, dep, ignored, excluding), early.value)
  {
    hide HasName, Provider, Fits, Providers, ProvidersUpTo;
    var db := dbs[n];
    providers, early := providers0, None;
    NextDatabase(dbs, n, dep, {}, excluding);
    NextDatabase(dbs, n, dep, ignored, excluding);
    NothingFrom(db, dep, {}, excluding);
    NothingFrom(db, dep, ignored, excluding);
    ghost var all := Providers(dbs, n, dep, {}, excluding);
    var j := 0;
    while j < |db.pkgcache|
      invariant j <= |db.pkgcache|
      invariant forall p :: p in providers ==> Fits(dbs, dep, ignored, excluding, prompt, p) && !HasName(local, p.name)
      invariant |providers| <= |all + ProvidersUpTo(db, dep, {}, excluding, j)|
      invariant !prompt ==> providers == providers0 + ProvidersUpTo(db, dep, ignored, excluding, j)
    {
      var pkg := db.pkgcache[j];
      NextPackage(db, dep, {}, excluding, j);
      NextPackage(db, dep, ignored, excluding, j);
      if Provider(db, dep, excluding, pkg) {
        var install := false;
        if pkg in ignored && prompt { install := *; }
        if pkg !in ignored || install {
          ProviderFits(dbs, dep, ignored, excluding, prompt, db, pkg);
          if FindPkg(local, pkg.name).Some? {
            ProvidersGrow(db, dep, ignored, excluding, j + 1, |db.pkgcache|);
            if !prompt { IsFirst(local, providers, pkg, Providers(dbs, n + 1, dep, ignored, excluding)); }
            return providers, Some(pkg);
          }
          providers := providers + [pkg];
        }
      }
      j := j + 1;
    }
  }

  lemma ProviderFits(dbs: seq<Db>, dep: Depend, ignored: set<Pkg>, excluding: seq<Pkg>, prompt: bool, db: Db, p: Pkg)
    requires db in dbs && p in db.pkgcache && Provider(db, dep, excluding, p) && (prompt || p !in ignored)
    ensures Fits(dbs, dep, ignored, excluding, prompt, p)
  {
    hide DepCmpProvides;
  }

  /** Without prompting: the first installed provider wins; else the user is asked exactly if there are several, and none
      is chosen only if there is none or the user picks none. */
  ghost predicate ProviderChosen(local: seq<Pkg>, providers: seq<Pkg>, r: Option<Pkg>, asked: bool) {
    if AnyInstalled(local, providers) then r.Some? && FirstInstalled(local, providers, r.value) && !asked
    else (asked <==> |providers| > 1) && (if r.Some? then r.value in providers else providers == [] || asked)
  }

  /** `resolvedep`; `asked` says that several providers were put to the user, who may pick none. */
  method ResolveDep(local: seq<Pkg>, ignored: set<Pkg>, dep: Depend, dbs: seq<Db>, excluding: seq<Pkg>, prompt: bool)
    returns (r: Option<Pkg>, asked: bool)
    ensures r.Some? ==> Fits(dbs, dep, ignored, excluding, prompt, r.value)
    ensures AnyLiteral(dbs, dep, ignored, excluding) ==>
              r.Some? && r.value.name == dep.name && FirstLiteral(dbs, dep, ignored, excluding, prompt, r.value) && !asked
    ensures !prompt && !AnyLiteral(dbs, dep, ignored, excluding) ==>
              ProviderChosen(local, Providers(dbs, |dbs|, dep, ignored, excluding), r, asked)
    ensures asked ==> |Providers(dbs, |dbs|, dep, {}, excluding)| > 1
  {
    hide Fits, Literal, Provider, Providers, ProvidersUpTo, HasName;
    asked := false;
    r := FindLiteral(ignored, dep, dbs, excluding, prompt);
    if r.Some? { return; }
    NoProvidersYet(local, ignored, dep, dbs, excluding, prompt);
    var providers: seq<Pkg>, i := [], 0;
    while i < |dbs|
      invariant i <= |dbs| && Collecting(local, ignored, dep, dbs, excluding, prompt, i, providers)
    {
      if Usable(dbs[i]) {
        var early;
        providers, early := CollectProviders(local, ignored, dep, dbs, excluding, prompt, i, providers);
        if early.Some? {
          if !prompt { InstalledChosen(local, dbs, i + 1, dep, ignored, excluding, early.value); }
          return early, asked;
        }
      } else {
        NothingCollected(local, ignored, dep, dbs, excluding, prompt, i, providers);
      }
      i := i + 1;
    }
    if |providers| >= 1 {
      var useIndex: int := 0;
      if |providers| > 1 {
        asked := true;
        useIndex := *;
      }
      if 0 <= useIndex < |providers| {
        return Some(providers[useIndex]), asked;
      }
    }
    r := None;
  }

  lemma InstalledChosen(local: seq<Pkg>, dbs: seq<Db>, n: nat, dep: Depend, ignored: set<Pkg>, excluding: seq<Pkg>, p: Pkg)
    requires n <= |dbs| && FirstInstalled(local, Providers(dbs, n, dep, ignored, excluding), p)
    ensures ProviderChosen(local, Providers(dbs, |dbs|, dep, ignored, excluding), Some(p), false)
  {
    hide HasName, Providers;
    MoreProviders(dbs, n, |dbs|, dep, ignored, excluding);
    StillFirst(local, Providers(dbs, n, dep, ignored, excluding), Providers(dbs, |dbs|, dep, ignored, excluding), p);
  }

  lemma NoProvidersYet(local: seq<Pkg>, ignored: set<Pkg>, dep: Depend, dbs: seq<Db>, excluding: seq<Pkg>, prompt: bool)
    ensures Collecting(local, ignored, dep, dbs, excluding, prompt, 0, [])
  {
  }

  lemma NothingCollected(local: seq<Pkg>, ignored: set<Pkg>, dep: Depend, dbs: seq<Db>, excluding: seq<Pkg>, prompt: bool,
                         n: nat, providers: seq<Pkg>)
    requires n < |dbs| && !Usable(dbs[n]) && Collecting(local, ignored, dep, dbs, excluding, prompt, n, providers)
    ensures Collecting(local, ignored, dep, dbs, excluding, prompt, n + 1, providers)
  {
    hide Fits, HasName, ProvidersUpTo, Provider;
    UnusableProvidesNothing(dbs[n], dep, ignored, excluding, |dbs[n].pkgcache|);
    UnusableProvidesNothing(dbs[n], dep, {}, excluding, |dbs[n].pkgcache|);
  }

  // ---- _alpm_resolvedeps ----

  /** What resolving works with, apart from the list that it extends. */
  datatype Setting = Setting(local: seq<Pkg>, sync: seq<Db>, localpkgs: seq<Pkg>, preferred: seq<Pkg>, rem: seq<Pkg>,
                             nodepversion: bool, assumed: seq<Depend>, ignored: set<Pkg>)

  function Wanted(s: Setting, d: Depend): Depend { if s.nodepversion then d.(mod := Any) else d }

  /** The packages that resolving may choose from. */
  ghost predicate Offered(s: Setting, c: Pkg) { c in s.preferred || Found(s.sync, c) }

  /** Met by an installed package that is not being removed. */
  ghost predicate MetInstalled(s: Setting, d: Depend) {
    exists w :: (w in s.localpkgs || w in s.local) && !HasName(s.rem, w.name) && DepCmp(w, d)
  }

  /** Met by the list, by an installed package that stays, or by an assumption. */
  ghost predicate MetWith(s: Setting, packages: seq<Pkg>, d: Depend) {
    Satisfied(packages, d) || MetInstalled(s, d) || DepCmpProvides(d, s.assumed)
  }

  /** The list has the name of the preferred package that would be chosen. */
  ghost predicate Named(s: Setting, packages: seq<Pkg>, d: Depend) {
    FindSatisfier(s.preferred, d).Some? && HasName(packages, FindSatisfier(s.preferred, d).value.name)
  }

  /** Met, or taken for met because of a name. */
  ghost predicate Settled(s: Setting, packages: seq<Pkg>, d: Depend) { MetWith(s, packages, d) || Named(s, packages, d) }

  ghost predicate AllSettled(s: Setting, packages: seq<Pkg>, from: nat) {
    forall i, d :: from <= i < |packages| && d in packages[i].depends ==> Settled(s, packages, Wanted(s, d))
  }

  lemma SettledGrows(s: Setting, packages: seq<Pkg>, more: seq<Pkg>, d: Depend)
    requires Settled(s, packages, d) && packages <= more
    ensures Settled(s, more, d)
  {
    hide DepCmp, MetInstalled, DepCmpProvides, FindSatisfier, HasName;
    if Satisfied(packages, d) {
      var i :| 0 <= i < |packages| && DepCmp(packages[i], d);
      assert DepCmp(more[i], d);
    } else if Named(s, packages, d) {
      HasNameGrows(packages, more, FindSatisfier(s.preferred, d).value.name);
    }
  }

  lemma HasNameGrows(packages: seq<Pkg>, more: seq<Pkg>, name: string)
    requires HasName(packages, name) && packages <= more
    ensures HasName(more, name)
  {
    var j :| 0 <= j < |packages| && packages[j].name == name;
    assert more[j].name == name;
  }

  function NamesOf(packages: seq<Pkg>): set<string> { set p | p in packages :: p.name }

  lemma NamesOfHas(packages: seq<Pkg>, name: string)
    ensures name in NamesOf(packages) <==> HasName(packages, name)
  {
    if HasName(packages, name) {
      var i :| 0 <= i < |packages| && packages[i].name == name;
      assert packages[i] in packages;
    }
  }

  lemma SmallerSet<T>(a: set<T>, b: set<T>)
    requires a <= b
    ensures |a| <= |b| && (a != b ==> |a| < |b|)
  {
    assert b == a + (b - a);
    assert |b| == |a| + |b - a|;
  }

  /** Fewer names are left to add once `pkg` is on the list. */
  lemma FewerNames(candidates: set<string>, packages: seq<Pkg>, pkg: Pkg, more: seq<Pkg>)
    requires pkg.name in candidates && !HasName(packages, pkg.name) && packages + [pkg] <= more
    ensures |candidates - NamesOf(more)| < |candidates - NamesOf(packages)|
  {
    hide NamesOf, HasName;
    var a, b := candidates - NamesOf(more), candidates - NamesOf(packages);
    forall name | name in a ensures name in b {
      NamesOfHas(packages, name);
      NamesOfHas(more, name);
      if HasName(packages, name) { HasNameGrows(packages, more, name); }
    }
    assert pkg.name !in a by {
      NamesOfHas(more, pkg.name);
      OnList(packages, pkg, more);
    }
    assert pkg.name in b by { NamesOfHas(packages, pkg.name); }
    SmallerSet(a, b);
  }

  lemma OnList(packages: seq<Pkg>, pkg: Pkg, more: seq<Pkg>)
    requires packages + [pkg] <= more
    ensures HasName(more, pkg.name) && packages <= more && pkg in more && more[|packages|] == pkg
  {
    assert (packages + [pkg])[|packages|] == pkg;
    assert more[|packages|].name == pkg.name;
  }

  function PkgQuery(s: Setting, pkg: Pkg): Query {
    Query(s.localpkgs, s.rem, [pkg], false, s.nodepversion, s.assumed)
  }

  /** What may be chosen for a dependency when `list` has been collected: the first preferred package that satisfies it;
      else the package of that name from the first database where it will do; else a provider, the first installed one
      if there is one. */
  ghost predicate Choice(s: Setting, list: seq<Pkg>, d: Depend, c: Pkg) {
    var p := FindSatisfier(s.preferred, d);
    if p.Some? then c == p.value
    else
      var ps := Providers(s.sync, |s.sync|, d, s.ignored, list);
      && Fits(s.sync, d, s.ignored, list, false, c)
      && if AnyLiteral(s.sync, d, s.ignored, list) then c.name == d.name && FirstLiteral(s.sync, d, s.ignored, list, false, c)
         else c in ps && (AnyInstalled(s.local, ps) ==> FirstInstalled(s.local, ps, c))
  }

  lemma ChoiceSatisfies(s: Setting, list: seq<Pkg>, d: Depend, c: Pkg)
    requires Choice(s, list, d, c)
    ensures Offered(s, c) && DepCmp(c, d)
    ensures HasName(list, c.name) ==> Named(s, list, d)
  {
    hide DepCmp, AnyLiteral, AnyInstalled, FirstLiteral, FirstInstalled, Providers, HasName, Satisfied;
  }

  /** A requested package that will do goes before every other, the first such one before the others. */
  lemma PreferredIsChosen(s: Setting, list: seq<Pkg>, d: Depend, c: Pkg)
    requires Choice(s, list, d, c) && Satisfied(s.preferred, d)
    ensures exists i: nat :: FirstAt(s.preferred, d, i) && s.preferred[i] == c
  {
    hide DepCmp, AnyLiteral, Providers, Satisfied, FirstAt;
    var i := FirstSatisfier(s.preferred, d);
  }

  /** Nothing is chosen: nothing preferred and no package of that name will do, and there is no provider, or there are
      several and the user picks none. */
  ghost predicate NoChoice(s: Setting, list: seq<Pkg>, d: Depend) {
    var ps := Providers(s.sync, |s.sync|, d, s.ignored, list);
    FindSatisfier(s.preferred, d).None? && !AnyLiteral(s.sync, d, s.ignored, list) && !AnyInstalled(s.local, ps) && |ps| != 1
  }

  /** `chosen` is what is chosen for a dependency of `pkg` that the check reports and `list` does not satisfy. */
  ghost predicate Needs(s: Setting, pkg: Pkg, list: seq<Pkg>, chosen: Pkg) {
    exists d :: d in pkg.depends && !Met(PkgQuery(s, pkg), Wanted(s, d)) && !Satisfied(list, Wanted(s, d)) &&
                Choice(s, list, Wanted(s, d), chosen)
  }

  /** A package of the list, from `from` on, needed it when the list had come to it. */
  ghost predicate Pulled(s: Setting, list: seq<Pkg>, from: nat, i: nat)
    requires i < |list|
  {
    exists j :: from <= j < i && Needs(s, list[j], list[..i], list[i])
  }

  /** `pkg` is on the list, and everything after it is on offer and was needed, directly or through others. */
  ghost predicate Growing(s: Setting, before: seq<Pkg>, pkg: Pkg, now: seq<Pkg>) {
    && before + [pkg] <= now && DistinctNames(now)
    && forall i :: |before| < i < |now| ==> Offered(s, now[i]) && Pulled(s, now, |before|, i)
  }

  /** How a missing dependency is dealt with when the list has come to `now`: the list satisfies it; or what is chosen is
      listed or comes next; or, where nothing is chosen or what is chosen fails, an installed package does. */
  ghost predicate HandledAt(s: Setting, now: seq<Pkg>, after: seq<Pkg>, d: Depend) {
    || Satisfied(now, d)
    || (exists c :: Choice(s, now, d, c) && (HasName(now, c.name) || (|now| < |after| && after[|now|] == c)))
    || (InstalledFit(s, d) && (NoChoice(s, now, d) || exists c :: Choice(s, now, d, c) && Fails(s, now, c)))
  }

  /** Dealt with in one of these ways at some point after `pkg` has been put on the list `before`. */
  ghost predicate Handled(s: Setting, after: seq<Pkg>, before: seq<Pkg>, pkg: Pkg, d: Depend) {
    exists now :: now <= after && Growing(s, before, pkg, now) && HandledAt(s, now, after, d)
  }

  /** So is every missing dependency of the packages from `from` on. */
  ghost predicate AllHandled(s: Setting, list: seq<Pkg>, from: nat) {
    forall i, m :: from <= i < |list| && Reported(PkgQuery(s, list[i]), m) ==> Handled(s, list, list[..i], list[i], m.depend)
  }

  lemma HandledStays(s: Setting, list: seq<Pkg>, more: seq<Pkg>, before: seq<Pkg>, pkg: Pkg, d: Depend)
    requires Handled(s, list, before, pkg, d) && list <= more
    ensures Handled(s, more, before, pkg, d)
  {
    hide Satisfied, Choice, NoChoice, Fails, InstalledFit, HasName, Growing;
    var now :| now <= list && Growing(s, before, pkg, now) && HandledAt(s, now, list, d);
    assert now <= more && HandledAt(s, now, more, d);
  }

  /** Every missing dependency of the package was recorded or dealt with while it was resolved. */
  ghost predicate DealtWith(s: Setting, before: seq<Pkg>, pkg: Pkg, data: seq<Missing>) {
    exists last :: Growing(s, before, pkg, last) &&
                   forall m :: Reported(PkgQuery(s, pkg), m) ==> m in data || Handled(s, last, before, pkg, m.depend)
  }

  lemma DealtWithStays(s: Setting, before: seq<Pkg>, pkg: Pkg, data: seq<Missing>, more: seq<Missing>)
    requires DealtWith(s, before, pkg, data) && data <= more
    ensures DealtWith(s, before, pkg, more)
  {
    hide Growing, Reported, PkgQuery, Handled;
    var last :| Growing(s, before, pkg, last) &&
                forall m :: Reported(PkgQuery(s, pkg), m) ==> m in data || Handled(s, last, before, pkg, m.depend);
    assert forall m :: m in data ==> m in more;
  }

  /** What is dealt with on a list stays so on a longer one that deals with what it adds. */
  lemma AllHandledGrows(s: Setting, list: seq<Pkg>, from: nat, more: seq<Pkg>)
    requires AllHandled(s, list, from) && list <= more && AllHandled(s, more, |list|)
    ensures AllHandled(s, more, from)
  {
    hide Handled, Reported, PkgQuery;
    forall i, m | from <= i < |more| && Reported(PkgQuery(s, more[i]), m) ensures Handled(s, more, more[..i], more[i], m.depend) {
      if i < |list| {
        assert more[i] == list[i] && more[..i] == list[..i];
        HandledStays(s, list, more, list[..i], list[i], m.depend);
      }
    }
  }

  /** The state between two missing dependencies: what came after `pkg` is also settled. */
  ghost predicate Resolving(s: Setting, before: seq<Pkg>, pkg: Pkg, now: seq<Pkg>) {
    Growing(s, before, pkg, now) && AllSettled(s, now, |before| + 1) && AllHandled(s, now, |before| + 1)
  }

  /** What resolving leaves on success: nothing new if the name was listed, else the list extended by `pkg` and what it
      needs, every missing dependency dealt with and all of it settled. */
  ghost predicate Resolved(s: Setting, before: seq<Pkg>, pkg: Pkg, after: seq<Pkg>) {
    && DistinctNames(after)
    && if HasName(before, pkg.name) then after == before
       else Growing(s, before, pkg, after) && AllSettled(s, after, |before|) && AllHandled(s, after, |before|)
  }

  lemma ResolvingStarts(s: Setting, before: seq<Pkg>, pkg: Pkg)
    requires DistinctNames(before) && !HasName(before, pkg.name)
    ensures Resolving(s, before, pkg, before + [pkg])
  {
    hide Settled, Offered;
    var now := before + [pkg];
    forall i, j | 0 <= i < j < |now| ensures now[i].name != now[j].name {
      if j == |before| { assert before[i].name != pkg.name; }
    }
  }

  lemma PulledStays(s: Setting, now: seq<Pkg>, more: seq<Pkg>, from: nat, i: nat)
    requires i < |now| && now <= more && Pulled(s, now, from, i)
    ensures Pulled(s, more, from, i)
  {
    hide Needs;
    var j :| from <= j < i && Needs(s, now[j], now[..i], now[i]);
    assert more[j] == now[j] && more[i] == now[i] && more[..i] == now[..i];
  }

  lemma PulledFrom(s: Setting, list: seq<Pkg>, from: nat, earlier: nat, i: nat)
    requires i < |list| && earlier <= from && Pulled(s, list, from, i)
    ensures Pulled(s, list, earlier, i)
  {
    hide Needs;
  }

  /** Resolving a chosen package in turn keeps the state, and leaves the dependency settled. */
  lemma ResolvingGrows(s: Setting, before: seq<Pkg>, pkg: Pkg, now: seq<Pkg>, chosen: Pkg, more: seq<Pkg>)
    requires Resolving(s, before, pkg, now) && Needs(s, pkg, now, chosen) && Resolved(s, now, chosen, more)
    ensures Resolving(s, before, pkg, more) && now <= more
  {
    hide Settled, Offered, HasName, DistinctNames, Pulled, Needs, AllHandled;
    if HasName(now, chosen.name) { return; }
    OnList(before, pkg, now);
    OnList(now, chosen, more);
    AllHandledGrows(s, now, |before| + 1, more);
    NeededIsOffered(s, pkg, now, chosen);
    forall i | |before| < i < |more| ensures Offered(s, more[i]) && Pulled(s, more, |before|, i) {
      if i < |now| {
        assert more[i] == now[i];
        PulledStays(s, now, more, |before|, i);
      } else if i == |now| {
        PulledByOwner(s, more, |before|, pkg, now, i);
      } else {
        PulledFrom(s, more, |now|, |before|, i);
      }
    }
    forall i, d | |before| + 1 <= i < |more| && d in more[i].depends ensures Settled(s, more, Wanted(s, d)) {
      if i < |now| {
        assert more[i] == now[i];
        SettledGrows(s, now, more, Wanted(s, d));
      }
    }
  }

  lemma NeededIsOffered(s: Setting, pkg: Pkg, list: seq<Pkg>, chosen: Pkg)
    requires Needs(s, pkg, list, chosen)
    ensures Offered(s, chosen)
  {
    hide Met, Satisfied, Choice, Offered, DepCmp;
    var d :| d in pkg.depends && Choice(s, list, Wanted(s, d), chosen);
    ChoiceSatisfies(s, list, Wanted(s, d), chosen);
  }

  lemma PulledByOwner(s: Setting, list: seq<Pkg>, k: nat, pkg: Pkg, now: seq<Pkg>, i: nat)
    requires k < i < |list| && list[k] == pkg && now == list[..i] && Needs(s, pkg, now, list[i])
    ensures Pulled(s, list, k, i)
  {
    hide Needs;
  }

  /** A chosen package that has been resolved settles the dependency. */
  lemma ChosenSettles(s: Setting, now: seq<Pkg>, chosen: Pkg, more: seq<Pkg>, d: Depend)
    requires Choice(s, now, d, chosen) && Resolved(s, now, chosen, more)
    ensures Settled(s, more, d)
  {
    hide MetWith, Offered, DepCmp, HasName, Choice, Named, Pulled, AllHandled;
    ChoiceSatisfies(s, now, d, chosen);
    if !HasName(now, chosen.name) {
      OnList(now, chosen, more);
      MetByMember(s, more, chosen, d);
    }
  }

  lemma MetByMember(s: Setting, list: seq<Pkg>, p: Pkg, d: Depend)
    requires p in list && DepCmp(p, d)
    ensures MetWith(s, list, d)
  {
    hide DepCmp, MetInstalled, DepCmpProvides;
    var i :| 0 <= i < |list| && list[i] == p;
    assert DepCmp(list[i], d);
  }

  lemma InstalledSettles(s: Setting, now: seq<Pkg>, w: Pkg, d: Depend)
    requires w in s.local && !HasName(s.rem, w.name) && DepCmp(w, d)
    ensures Settled(s, now, d)
  {
    hide DepCmp, HasName, Satisfied, DepCmpProvides, Named;
    assert MetInstalled(s, d);
  }

  /** A dependency that the check does not report is met. */
  lemma NotReportedMet(s: Setting, pkg: Pkg, now: seq<Pkg>, d: Depend)
    requires d in pkg.depends && pkg in now
    requires !Reported(PkgQuery(s, pkg), Missing(pkg.name, Wanted(s, d), None))
    ensures MetWith(s, now, Wanted(s, d))
  {
    hide DepCmp, Keep, HasName, DepCmpProvides;
    var q, e := PkgQuery(s, pkg), Wanted(s, d);
    assert Effective(q, d) == e;
    assert pkg in q.upgrade;
    assert !Met(q, e) ==> LackedByTarget(q, pkg, d, Missing(pkg.name, e, None));
    if Satisfied(q.upgrade, e) {
      var j :| 0 <= j < |now| && now[j] == pkg;
      assert DepCmp(now[j], e);
    } else if Satisfied(Untouched(q), e) {
      var i :| 0 <= i < |Untouched(q)| && DepCmp(Untouched(q)[i], e);
      var w := Untouched(q)[i];
      assert w in Untouched(q) && w in s.localpkgs && !HasName(s.rem, w.name);
    }
  }

  /** Once every reported dependency is settled, the whole extension is. */
  lemma ResolvingFinishes(s: Setting, before: seq<Pkg>, pkg: Pkg, now: seq<Pkg>, deps: seq<Missing>)
    requires Resolving(s, before, pkg, now) && !HasName(before, pkg.name)
    requires forall m :: m in deps <==> Reported(PkgQuery(s, pkg), m)
    requires forall m :: m in deps ==> Settled(s, now, m.depend) && Handled(s, now, before, pkg, m.depend)
    ensures Resolved(s, before, pkg, now)
  {
    hide Settled, Offered, HasName, DistinctNames, Reported, PkgQuery, MetWith, Pulled, Handled;
    OnList(before, pkg, now);
    assert now[..|before|] == before;
    forall i, d | |before| <= i < |now| && d in now[i].depends ensures Settled(s, now, Wanted(s, d)) {
      if i == |before| {
        var m := Missing(pkg.name, Wanted(s, d), None);
        if m !in deps {
          NotReportedMet(s, pkg, now, d);
          MetIsSettled(s, now, Wanted(s, d));
        }
      }
    }
  }

  lemma MetIsSettled(s: Setting, now: seq<Pkg>, d: Depend)
    requires MetWith(s, now, d)
    ensures Settled(s, now, d)
  {
    hide MetWith, Named;
  }

  /** The database of installed packages, which every operation may use. */
  function LocalDb(local: seq<Pkg>): Db { Db(local, Usage(true, true), false, false) }

  /** An installed package, not ignored and not being removed, fits. */
  ghost predicate InstalledFit(s: Setting, d: Depend) {
    AnyLiteral([LocalDb(s.local)], d, s.ignored, s.rem) || Providers([LocalDb(s.local)], 1, d, s.ignored, s.rem) != []
  }

  /** A dependency of `p` that neither `p`, nor what stays installed, nor an assumption meets. */
  ghost predicate Lacks(s: Setting, p: Pkg, m: Missing) {
    exists d :: d in p.depends && m == Missing(p.name, Wanted(s, d), None) &&
                !Met(PkgQuery(s, p), Wanted(s, d)) && !InstalledFit(s, Wanted(s, d))
  }

  /** How resolving `p` fails on `m` when `list` has been collected: at some point nothing on the list satisfies it, and
      nothing is chosen for it, or what is chosen fails in turn. */
  ghost predicate FailsOn(s: Setting, list: seq<Pkg>, p: Pkg, m: Missing, depth: nat)
    decreases depth
  {
    && !HasName(list, p.name) && Lacks(s, p, m)
    && exists now :: Growing(s, list, p, now) && !Satisfied(now, m.depend) &&
                     (NoChoice(s, now, m.depend) ||
                      exists c, n, k: nat :: k < depth && Choice(s, now, m.depend, c) && FailsOn(s, now, c, n, k))
  }

  /** `m` is recorded while `p` is resolved: `p` fails on it, or so does something that is tried for `p`. */
  ghost predicate RecordedAt(s: Setting, list: seq<Pkg>, p: Pkg, m: Missing, depth: nat)
    decreases depth
  {
    || (exists k: nat :: FailsOn(s, list, p, m, k))
    || (depth > 0 && exists now, n, c :: Growing(s, list, p, now) && Reported(PkgQuery(s, p), n) && !Satisfied(now, n.depend) &&
                                         Choice(s, now, n.depend, c) && RecordedAt(s, now, c, m, depth - 1))
  }

  ghost predicate Recorded(s: Setting, list: seq<Pkg>, p: Pkg, m: Missing) { exists k: nat :: RecordedAt(s, list, p, m, k) }

  /** Resolving `p` fails. */
  ghost predicate Fails(s: Setting, list: seq<Pkg>, p: Pkg) { exists m, k: nat :: FailsOn(s, list, p, m, k) }

  lemma FailsWithoutChoice(s: Setting, list: seq<Pkg>, p: Pkg, now: seq<Pkg>, m: Missing)
    requires !HasName(list, p.name) && Lacks(s, p, m) && Growing(s, list, p, now) && !Satisfied(now, m.depend) && NoChoice(s, now, m.depend)
    ensures FailsOn(s, list, p, m, 0)
  {
    hide HasName, Lacks, Growing, Satisfied, NoChoice;
  }

  lemma FailsWithChoice(s: Setting, list: seq<Pkg>, p: Pkg, now: seq<Pkg>, m: Missing, c: Pkg)
    requires !HasName(list, p.name) && Lacks(s, p, m) && Growing(s, list, p, now) && !Satisfied(now, m.depend)
    requires Choice(s, now, m.depend, c) && Fails(s, now, c)
    ensures exists k: nat :: FailsOn(s, list, p, m, k)
  {
    hide HasName, Lacks, Growing, Satisfied, NoChoice, Choice;
    var n, k: nat :| FailsOn(s, now, c, n, k);
    assert FailsOn(s, list, p, m, k + 1);
  }

  lemma FailureIsRecorded(s: Setting, list: seq<Pkg>, p: Pkg, m: Missing)
    requires exists k: nat :: FailsOn(s, list, p, m, k)
    ensures Recorded(s, list, p, m) && Fails(s, list, p)
  {
    hide FailsOn;
    assert RecordedAt(s, list, p, m, 0);
  }

  /** What is recorded while something tried for `p` is resolved is recorded while `p` is. */
  lemma RecordedInTurn(s: Setting, list: seq<Pkg>, p: Pkg, now: seq<Pkg>, n: Missing, c: Pkg)
    requires Growing(s, list, p, now) && Reported(PkgQuery(s, p), n) && !Satisfied(now, n.depend) && Choice(s, now, n.depend, c)
    ensures forall m :: Recorded(s, now, c, m) ==> Recorded(s, list, p, m)
  {
    hide FailsOn, Growing, Satisfied, Choice, Reported, PkgQuery;
    forall m | Recorded(s, now, c, m) ensures Recorded(s, list, p, m) {
      var k: nat :| RecordedAt(s, now, c, m, k);
      assert RecordedAt(s, list, p, m, k + 1);
    }
  }

  /** What the check of one package reports is a wanted dependency that nothing meets. */
  lemma ReportedFor(s: Setting, p: Pkg, m: Missing)
    requires Reported(PkgQuery(s, p), m)
    ensures exists d :: d in p.depends && m == Missing(p.name, Wanted(s, d), None) && !Met(PkgQuery(s, p), Wanted(s, d))
  {
    hide Met;
    var q := PkgQuery(s, p);
    var tp, d :| tp in q.upgrade && d in tp.depends && LackedByTarget(q, tp, d, m);
    assert Effective(q, d) == Wanted(s, d);
  }

  lemma ReportedLacks(s: Setting, p: Pkg, m: Missing)
    requires Reported(PkgQuery(s, p), m) && !InstalledFit(s, m.depend)
    ensures Lacks(s, p, m)
  {
    hide Met, Reported, InstalledFit;
    ReportedFor(s, p, m);
  }

  lemma ReportedNeeds(s: Setting, p: Pkg, m: Missing, list: seq<Pkg>, chosen: Pkg)
    requires Reported(PkgQuery(s, p), m) && !Satisfied(list, m.depend) && Choice(s, list, m.depend, chosen)
    ensures Needs(s, p, list, chosen)
  {
    hide Met, Reported, Satisfied, Choice;
    ReportedFor(s, p, m);
  }

  /** Every provider among the installed packages is installed. */
  lemma {:induction false} LocalProviders(local: seq<Pkg>, d: Depend, ignored: set<Pkg>, excluding: seq<Pkg>, j: nat)
    requires j <= |local|
    ensures forall p :: p in ProvidersUpTo(LocalDb(local), d, ignored, excluding, j) ==> HasName(local, p.name)
  {
    hide Provider;
    if j > 0 { LocalProviders(local, d, ignored, excluding, j - 1); }
  }

  lemma SomeInstalled(local: seq<Pkg>, pkgs: seq<Pkg>)
    requires forall p :: p in pkgs ==> HasName(local, p.name)
    ensures pkgs == [] || AnyInstalled(local, pkgs)
  {
    hide HasName;
    if pkgs != [] { assert pkgs[0] in pkgs; }
  }

  /** When the search among the installed packages finds nothing, none of them fits. */
  lemma NoneInstalled(s: Setting, d: Depend, asked: bool)
    requires !AnyLiteral([LocalDb(s.local)], d, s.ignored, s.rem)
    requires ProviderChosen(s.local, Providers([LocalDb(s.local)], 1, d, s.ignored, s.rem), None, asked)
    ensures !InstalledFit(s, d)
  {
    hide HasName, Provider, Literal, ProvidersUpTo;
    var ps := Providers([LocalDb(s.local)], 1, d, s.ignored, s.rem);
    LocalProviders(s.local, d, s.ignored, s.rem, |s.local|);
    assert ps == Providers([LocalDb(s.local)], 0, d, s.ignored, s.rem) + ProvidersUpTo(LocalDb(s.local), d, s.ignored, s.rem, |s.local|);
    SomeInstalled(s.local, ps);
  }

  lemma FoundInstalled(s: Setting, d: Depend, r: Option<Pkg>, asked: bool)
    requires r.Some?
    requires AnyLiteral([LocalDb(s.local)], d, s.ignored, s.rem) ||
             ProviderChosen(s.local, Providers([LocalDb(s.local)], 1, d, s.ignored, s.rem), r, asked)
    ensures InstalledFit(s, d)
  {
    hide AnyLiteral, Providers, HasName;
  }

  /** Every name on offer is a candidate. */
  ghost predicate Candidates(s: Setting, candidates: set<string>) {
    forall c :: Offered(s, c) ==> c.name in candidates
  }

  ghost predicate SettingOf(handle: AlpmHandle, s: Setting)
    reads handle
  {
    s.local == handle.dbLocal && s.sync == handle.dbsSync && s.assumed == handle.assumeinstalled && s.ignored == handle.ignored
  }

  lemma FitsLocally(s: Setting, d: Depend, ignored: set<Pkg>, now: seq<Pkg>, w: Pkg)
    requires Fits([LocalDb(s.local)], d, ignored, s.rem, false, w)
    ensures Settled(s, now, d)
  {
    hide DepCmp, HasName, Settled;
    InstalledSettles(s, now, w, d);
  }

  lemma PreferredIsOffered(s: Setting)
    ensures forall c :: c in s.preferred ==> Offered(s, c)
  {
  }

  /** The list satisfies the dependency, or has the name of the preferred package that would be chosen. */
  ghost predicate AtHand(s: Setting, list: seq<Pkg>, d: Depend) { Satisfied(list, d) || Named(s, list, d) }

  /** Nothing has to be pulled in for `pkg`. */
  ghost predicate AllAtHand(s: Setting, before: seq<Pkg>, pkg: Pkg) {
    forall m :: Reported(PkgQuery(s, pkg), m) ==> AtHand(s, before + [pkg], m.depend)
  }

  /** `*packages` and `*data`, which the recursive calls extend in place. */
  class Resolver {
    var packages: seq<Pkg>
    var data: seq<Missing>

    constructor ()
      ensures packages == [] && data == []
    {
      packages, data := [], [];
    }

    /** The package to pull in for a missing dependency: a preferred one, else one of the databases. */
    method Choose(handle: AlpmHandle, s: Setting, missdep: Depend) returns (spkg: Option<Pkg>)
      requires SettingOf(handle, s)
      ensures spkg.Some? ==> Offered(s, spkg.value) && DepCmp(spkg.value, missdep) && Choice(s, packages, missdep, spkg.value)
      ensures spkg.Some? && HasName(packages, spkg.value.name) ==> Named(s, packages, missdep)
      ensures spkg.None? ==> NoChoice(s, packages, missdep)
      ensures FindSatisfier(s.preferred, missdep).Some? ==> spkg == FindSatisfier(s.preferred, missdep)
    {
      hide DepCmp, Offered, Fits, AnyLiteral, FirstLiteral, AnyInstalled, Satisfied, Providers, HasName, Named;
      spkg := FindSatisfier(s.preferred, missdep);
      if spkg.None? {
        var asked;
        spkg, asked := ResolveDep(handle.dbLocal, handle.ignored, missdep, handle.dbsSync, packages, false);
      }
      if spkg.Some? { ChoiceSatisfies(s, packages, missdep, spkg.value); }
    }

    /** The last resort: an installed package that fits; else the dependency is recorded. */
    method FallBack(handle: AlpmHandle, s: Setting, pkg: Pkg, miss: Missing) returns (ok: bool)
      requires SettingOf(handle, s) && Reported(PkgQuery(s, pkg), miss)
      modifies this`data
      ensures ok ==> Settled(s, packages, miss.depend) && InstalledFit(s, miss.depend) && data == old(data)
      ensures !ok ==> Lacks(s, pkg, miss) && data == old(data) + [miss]
    {
      hide DepCmp, Fits, AnyLiteral, ProviderChosen, Settled, Lacks, Reported, Providers, InstalledFit;
      var installed, asked := ResolveDep(handle.dbLocal, handle.ignored, miss.depend, [LocalDb(handle.dbLocal)], s.rem, false);
      ok := installed.Some?;
      if ok {
        FoundInstalled(s, miss.depend, installed, asked);
        FitsLocally(s, miss.depend, handle.ignored, packages, installed.value);
      } else {
        NoneInstalled(s, miss.depend, asked);
        ReportedLacks(s, pkg, miss);
        data := data + [miss];
      }
    }

    /** One missing dependency of `pkg`: on the list, pulled in, installed, or recorded. */
    method ResolveOne(handle: AlpmHandle, s: Setting, pkg: Pkg, miss: Missing, ghost before: seq<Pkg>, ghost candidates: set<string>)
      returns (ok: bool)
      requires SettingOf(handle, s) && Candidates(s, candidates)
      requires Resolving(s, before, pkg, packages) && Reported(PkgQuery(s, pkg), miss) && !HasName(before, pkg.name)
      modifies this
      ensures Resolving(s, before, pkg, packages) && old(packages) <= packages
      ensures ok ==> Settled(s, packages, miss.depend) && Handled(s, packages, before, pkg, miss.depend)
      ensures ok || (miss in data && Fails(s, before, pkg))
      ensures old(data) <= data && forall m :: m in data ==> m in old(data) || Recorded(s, before, pkg, m)
      ensures AtHand(s, old(packages), miss.depend) ==> ok && packages == old(packages) && data == old(data)
      decreases |candidates - NamesOf(packages)|, 1
    {
      hide DepCmp, Offered, PkgQuery, Resolved, Resolving, HasName, Reported, Settled, NamesOf, Satisfied, Lacks, Recorded, FindSatisfier, Needs,
           Growing, Choice, NoChoice, FailsOn, Fails, HandledAt, InstalledFit;
      ghost var now := packages;
      ResolvingParts(s, before, pkg, now);
      if FindSatisfier(packages, miss.depend).Some? {
        ListSettles(s, packages, miss.depend);
        SatisfiedIsHandled(s, now, miss.depend);
        return true;
      }
      var spkg := Choose(handle, s, miss.depend);
      if spkg.Some? {
        CandidateNamed(s, candidates, spkg.value);
        var pulled := ResolveDeps(handle, s, spkg.value, candidates);
        RecordedInTurn(s, before, pkg, now, miss, spkg.value);
        if pulled == 0 {
          ReportedNeeds(s, pkg, miss, now, spkg.value);
          Pulling(s, before, pkg, now, spkg.value, packages, miss.depend);
          PulledIsHandled(s, now, spkg.value, packages, miss.depend);
          return true;
        }
      }
      ok := FallBack(handle, s, pkg, miss);
      if ok {
        InstalledIsHandled(s, now, spkg, miss.depend);
      } else {
        if spkg.Some? { FailsWithChoice(s, before, pkg, now, miss, spkg.value); } else { FailsWithoutChoice(s, before, pkg, now, miss); }
        FailureIsRecorded(s, before, pkg, miss);
      }
    }

    /** `_alpm_resolvedeps`; it ends because each level puts one more candidate name on the list. */
    method ResolveDeps(handle: AlpmHandle, s: Setting, pkg: Pkg, ghost candidates: set<string>) returns (ret: int)
      requires SettingOf(handle, s) && DistinctNames(packages)
      requires Candidates(s, candidates) && pkg.name in candidates
      modifies this
      ensures ret == 0 || ret == -1
      ensures ret == 0 ==> Resolved(s, old(packages), pkg, packages)
      ensures ret == -1 ==> packages == old(packages) && data != [] && Fails(s, old(packages), pkg)
      ensures ret == -1 ==> DealtWith(s, old(packages), pkg, data)
      ensures old(data) <= data && forall m :: m in data ==> m in old(data) || Recorded(s, old(packages), pkg, m)
      ensures HasName(old(packages), pkg.name) ==> ret == 0 && packages == old(packages) && data == old(data)
      ensures !HasName(old(packages), pkg.name) && AllAtHand(s, old(packages), pkg) ==>
                ret == 0 && packages == old(packages) + [pkg] && data == old(data)
      decreases |candidates - NamesOf(packages)|, 0
    {
      hide DepCmp, PkgQuery, Offered, Resolved, Resolving, DistinctNames, HasName, Reported, Settled, NamesOf, Satisfied, Lacks, Recorded,
           AtHand, Candidates, Report, Fails, Handled, DealtWith;
      ret := 0;
      if FindPkg(packages, pkg.name).Some? {
        AlreadyResolved(s, packages, pkg);
        return;
      }
      var packagesCopy := packages;
      packages := packages + [pkg];
      ResolvingStarts(s, packagesCopy, pkg);
      var deps := CheckDeps(PkgQuery(s, pkg));
      var j := 0;
      while j < |deps|
        invariant j <= |deps| && (ret == 0 || ret == -1) && packagesCopy == old(packages)
        invariant Resolving(s, packagesCopy, pkg, packages)
        invariant ret == 0 ==> forall k :: 0 <= k < j ==> Settled(s, packages, deps[k].depend)
        invariant forall k :: 0 <= k < j ==> (ret == -1 && deps[k] in data) || Handled(s, packages, packagesCopy, pkg, deps[k].depend)
        invariant ret == -1 ==> data != [] && Fails(s, packagesCopy, pkg)
        invariant old(data) <= data && forall m :: m in data ==> m in old(data) || Recorded(s, packagesCopy, pkg, m)
        invariant AllAtHand(s, packagesCopy, pkg) ==> ret == 0 && packages == packagesCopy + [pkg] && data == old(data)
      {
        ghost var now, known := packages, data;
        OneMore(s, candidates, packagesCopy, pkg, packages);
        assert deps[j] in deps;
        var ok := ResolveOne(handle, s, pkg, deps[j], packagesCopy, candidates);
        if !ok { ret := -1; }
        forall k | 0 <= k < j && ret == 0 ensures Settled(s, packages, deps[k].depend) {
          SettledStays(s, now, packages, deps[k].depend);
        }
        forall k | 0 <= k < j ensures (ret == -1 && deps[k] in data) || Handled(s, packages, packagesCopy, pkg, deps[k].depend) {
          assert deps[k] in known ==> deps[k] in data;
          if Handled(s, now, packagesCopy, pkg, deps[k].depend) { HandledStays(s, now, packages, packagesCopy, pkg, deps[k].depend); }
        }
        j := j + 1;
      }
      if ret != 0 {
        AllDealtWith(s, packagesCopy, pkg, packages, deps, data);
        packages := packagesCopy;
      } else {
        ResolvingFinishes(s, packagesCopy, pkg, packages, deps);
      }
    }
  }

  lemma ResolvingParts(s: Setting, before: seq<Pkg>, pkg: Pkg, now: seq<Pkg>)
    requires Resolving(s, before, pkg, now)
    ensures DistinctNames(now) && Growing(s, before, pkg, now)
  {
    hide Settled, Offered, Pulled, DistinctNames, AllHandled;
  }

  lemma AllDealtWith(s: Setting, before: seq<Pkg>, pkg: Pkg, now: seq<Pkg>, deps: seq<Missing>, data: seq<Missing>)
    requires Resolving(s, before, pkg, now) && forall m :: m in deps <==> Reported(PkgQuery(s, pkg), m)
    requires forall k :: 0 <= k < |deps| ==> deps[k] in data || Handled(s, now, before, pkg, deps[k].depend)
    ensures DealtWith(s, before, pkg, data)
  {
    hide Handled, Reported, PkgQuery, Growing, AllSettled, AllHandled;
    forall m | Reported(PkgQuery(s, pkg), m) ensures m in data || Handled(s, now, before, pkg, m.depend) {
      var k :| 0 <= k < |deps| && deps[k] == m;
    }
  }

  lemma SatisfiedIsHandled(s: Setting, now: seq<Pkg>, d: Depend)
    requires Satisfied(now, d)
    ensures HandledAt(s, now, now, d)
  {
    hide Satisfied, Choice, NoChoice, Fails, InstalledFit;
  }

  lemma PulledIsHandled(s: Setting, now: seq<Pkg>, chosen: Pkg, more: seq<Pkg>, d: Depend)
    requires Choice(s, now, d, chosen) && Resolved(s, now, chosen, more)
    ensures HandledAt(s, now, more, d)
  {
    hide Satisfied, Choice, NoChoice, Fails, InstalledFit, HasName, AllSettled, AllHandled, DistinctNames;
    if !HasName(now, chosen.name) { OnList(now, chosen, more); }
  }

  lemma InstalledIsHandled(s: Setting, now: seq<Pkg>, spkg: Option<Pkg>, d: Depend)
    requires InstalledFit(s, d)
    requires if spkg.Some? then Choice(s, now, d, spkg.value) && Fails(s, now, spkg.value) else NoChoice(s, now, d)
    ensures HandledAt(s, now, now, d)
  {
    hide Satisfied, Choice, NoChoice, Fails, InstalledFit;
  }

  lemma CandidateNamed(s: Setting, candidates: set<string>, chosen: Pkg)
    requires Candidates(s, candidates) && Offered(s, chosen)
    ensures chosen.name in candidates
  {
    hide Offered;
  }

  lemma AlreadyResolved(s: Setting, packages: seq<Pkg>, pkg: Pkg)
    requires DistinctNames(packages) && HasName(packages, pkg.name)
    ensures Resolved(s, packages, pkg, packages)
  {
    hide Growing, AllSettled, AllHandled, HasName, DistinctNames;
  }

  lemma ListSettles(s: Setting, now: seq<Pkg>, d: Depend)
    requires Satisfied(now, d)
    ensures Settled(s, now, d)
  {
    hide Satisfied, Named;
  }

  lemma OneMore(s: Setting, candidates: set<string>, before: seq<Pkg>, pkg: Pkg, now: seq<Pkg>)
    requires Resolving(s, before, pkg, now) && pkg.name in candidates && !HasName(before, pkg.name)
    ensures DistinctNames(now) && |candidates - NamesOf(now)| < |candidates - NamesOf(before)|
  {
    hide Settled, Offered, HasName, DistinctNames, NamesOf, AllHandled;
    FewerNames(candidates, before, pkg, now);
  }

  lemma Pulling(s: Setting, before: seq<Pkg>, pkg: Pkg, now: seq<Pkg>, chosen: Pkg, more: seq<Pkg>, d: Depend)
    requires Resolving(s, before, pkg, now) && Choice(s, now, d, chosen) && Resolved(s, now, chosen, more)
    requires Needs(s, pkg, now, chosen)
    ensures Resolving(s, before, pkg, more) && Settled(s, more, d) && now <= more
  {
    hide Settled, Resolving, Resolved, Needs, Choice;
    ResolvingGrows(s, before, pkg, now, chosen, more);
    ChosenSettles(s, now, chosen, more, d);
  }

  lemma SettledStays(s: Setting, now: seq<Pkg>, more: seq<Pkg>, d: Depend)
    requires Settled(s, now, d) && now <= more
    ensures Settled(s, more, d)
  {
    hide Settled;
    SettledGrows(s, now, more, d);
  }

  // ---- what success means ----

  ghost predicate AllOffered(s: Setting, list: seq<Pkg>) { forall p :: p in list ==> Offered(s, p) }

  /** Whatever is on offer under the name of the first preferred package that satisfies the dependency satisfies it. */
  ghost predicate NameMeets(s: Setting, d: Depend) {
    var p := FindSatisfier(s.preferred, d);
    p.Some? ==> forall c :: Offered(s, c) && c.name == p.value.name ==> DepCmp(c, d)
  }

  /** Met by an installed package that stays, or by an assumption. */
  ghost predicate MetOutside(s: Setting, d: Depend) { MetInstalled(s, d) || DepCmpProvides(d, s.assumed) }

  /** Where the name is enough, whatever is settled is met. */
  lemma SettledIsMet(s: Setting, packages: seq<Pkg>, d: Depend)
    requires forall p :: p in packages ==> Offered(s, p) || !Named(s, [p], d)
    requires NameMeets(s, d) && Settled(s, packages, d)
    ensures MetWith(s, packages, d)
  {
    hide MetInstalled, Offered, DepCmp, DepCmpProvides, FindSatisfier;
    if Named(s, packages, d) {
      var i :| 0 <= i < |packages| && packages[i].name == FindSatisfier(s.preferred, d).value.name;
      assert packages[i] in packages && [packages[i]][0].name == FindSatisfier(s.preferred, d).value.name;
      assert DepCmp(packages[i], d);
    }
  }

  /** Exactly where the name is enough, or the dependency is met anyway, is it met on every list that settles it. */
  lemma SettledIsMetIff(s: Setting, d: Depend)
    ensures (forall list :: AllOffered(s, list) && DistinctNames(list) && Settled(s, list, d) ==> MetWith(s, list, d)) <==>
            NameMeets(s, d) || MetOutside(s, d)
  {
    hide MetWith, MetOutside, Settled, NameMeets, DistinctNames, Named, Offered;
    if MetOutside(s, d) {
      forall list ensures MetWith(s, list, d) { OutsideIsMet(s, list, d); }
    } else if NameMeets(s, d) {
      forall list | AllOffered(s, list) && Settled(s, list, d) ensures MetWith(s, list, d) { SettledIsMet(s, list, d); }
    } else {
      var e := Misnomer(s, d);
      NotMetByOne(s, e, d);
    }
  }

  lemma OutsideIsMet(s: Setting, list: seq<Pkg>, d: Depend)
    requires MetOutside(s, d)
    ensures MetWith(s, list, d)
  {
    hide MetInstalled, DepCmpProvides;
  }

  /** A package on offer with that name that does not satisfy the dependency. */
  lemma Misnomer(s: Setting, d: Depend) returns (e: Pkg)
    requires !NameMeets(s, d)
    ensures Named(s, [e], d) && Offered(s, e) && !DepCmp(e, d)
  {
    hide Offered, DepCmp, FindSatisfier;
    e :| Offered(s, e) && e.name == FindSatisfier(s.preferred, d).value.name && !DepCmp(e, d);
    assert [e][0].name == e.name;
  }

  lemma NotMetByOne(s: Setting, e: Pkg, d: Depend)
    requires Named(s, [e], d) && Offered(s, e) && !DepCmp(e, d) && !MetOutside(s, d)
    ensures AllOffered(s, [e]) && DistinctNames([e]) && Settled(s, [e], d) && !MetWith(s, [e], d)
  {
    hide Offered, DepCmp, Named, MetInstalled, DepCmpProvides;
  }

  /** Every successful run meets, for the packages that it adds, each dependency for which the name is enough. The package
      itself need not be on offer, unless it has that name. */
  lemma RunMeets(s: Setting, before: seq<Pkg>, pkg: Pkg, after: seq<Pkg>, i: nat, d: Depend)
    requires AllOffered(s, before) && Resolved(s, before, pkg, after)
    requires |before| <= i < |after| && d in after[i].depends && NameMeets(s, Wanted(s, d))
    requires Offered(s, pkg) || !Named(s, [pkg], Wanted(s, d))
    ensures MetWith(s, after, Wanted(s, d))
  {
    hide Offered, Settled, NameMeets, MetWith, DistinctNames, HasName, Pulled, Named, AllHandled;
    assert Growing(s, before, pkg, after) && AllSettled(s, after, |before|);
    OnList(before, pkg, after);
    forall p | p in after ensures Offered(s, p) || !Named(s, [p], Wanted(s, d)) {
      var k :| 0 <= k < |after| && after[k] == p;
      if k < |before| { assert after[k] == before[k]; }
    }
    SettledIsMet(s, after, Wanted(s, d));
  }

  /** Every name has one candidate among the packages on offer. */
  ghost predicate OneCandidate(s: Setting) {
    forall c, e :: Offered(s, c) && Offered(s, e) && c.name == e.name ==> c == e
  }

  lemma OneCandidateMeets(s: Setting, d: Depend)
    requires OneCandidate(s)
    ensures NameMeets(s, d)
  {
    hide DepCmp, Satisfied, Found;
  }

  /** Where the list has the name and nothing meets the dependency, a package that otherwise has everything at hand is
      resolved, and its dependency stays unmet. */
  method UnmetRun(handle: AlpmHandle, s: Setting, before: seq<Pkg>, p: Pkg, d: Depend, ghost candidates: set<string>)
    returns (resolver: Resolver, ret: int)
    requires SettingOf(handle, s) && Candidates(s, candidates) && p.name in candidates
    requires DistinctNames(before) && !HasName(before, p.name) && d in p.depends
    requires Named(s, before, Wanted(s, d)) && !MetWith(s, before + [p], Wanted(s, d))
    requires forall c :: c in p.depends && c != d ==> Met(PkgQuery(s, p), Wanted(s, c)) || AtHand(s, before + [p], Wanted(s, c))
    ensures fresh(resolver) && ret == 0 && resolver.packages == before + [p] && !MetWith(s, resolver.packages, Wanted(s, d))
  {
    hide Candidates, MetWith, Named, AtHand, DistinctNames, HasName, PkgQuery, Met, Reported;
    resolver := new Resolver();
    resolver.packages := before;
    forall m | Reported(PkgQuery(s, p), m) ensures AtHand(s, before + [p], m.depend) {
      ReportedFor(s, p, m);
      NamedAtHand(s, before, p, Wanted(s, d));
    }
    ret := resolver.ResolveDeps(handle, s, p, candidates);
  }

  lemma NamedAtHand(s: Setting, before: seq<Pkg>, p: Pkg, d: Depend)
    requires Named(s, before, d)
    ensures AtHand(s, before + [p], d)
  {
    hide HasName, Satisfied, FindSatisfier;
    HasNameGrows(before, before + [p], FindSatisfier(s.preferred, d).value.name);
  }

  function CandidateNames(sync: seq<Db>): set<string> {
    set db, p | db in sync && p in db.pkgcache :: p.name
  }

  lemma AllCandidates(s: Setting)
    ensures Candidates(s, NamesOf(s.preferred) + CandidateNames(s.sync))
  {
    forall c | Offered(s, c) ensures c.name in NamesOf(s.preferred) + CandidateNames(s.sync) {
      if c in s.preferred {
      } else {
        var db :| db in s.sync && Usable(db) && c in db.pkgcache;
      }
    }
  }

  /** So in every setting in which `e`, on offer under that name, does not satisfy the dependency and nothing else meets
      it, some run succeeds and leaves it unmet. */
  method UnmetWhere(handle: AlpmHandle, s: Setting, e: Pkg, d: Depend) returns (resolver: Resolver, ret: int, p: Pkg)
    requires SettingOf(handle, s) && Offered(s, e) && Named(s, [e], Wanted(s, d))
    requires !DepCmp(e, Wanted(s, d)) && !MetOutside(s, Wanted(s, d))
    ensures fresh(resolver) && ret == 0 && resolver.packages == [e, p] && d in p.depends && !Named(s, [p], Wanted(s, d))
    ensures !MetWith(s, resolver.packages, Wanted(s, d))
  {
    hide Candidates, MetWith, MetOutside, Named, DistinctNames, HasName, DepCmp;
    p := Pkg(e.name + d.name + "x", "1", [d], [], [], Explicit, "", false);
    NothingMeets(s, e, p, d);
    NamedOtherwise(s, e, p, Wanted(s, d));
    AllCandidates(s);
    ghost var candidates := NamesOf(s.preferred) + CandidateNames(s.sync) + {p.name};
    MoreCandidates(s, NamesOf(s.preferred) + CandidateNames(s.sync), p.name);
    assert [e] + [p] == [e, p];
    resolver, ret := UnmetRun(handle, s, [e], p, d, candidates);
  }

  lemma MoreCandidates(s: Setting, candidates: set<string>, name: string)
    requires Candidates(s, candidates)
    ensures Candidates(s, candidates + {name})
  {
    hide Offered;
  }

  lemma NamedOtherwise(s: Setting, e: Pkg, p: Pkg, d: Depend)
    requires Named(s, [e], d) && p.name != e.name
    ensures !Named(s, [p], d)
  {
    hide FindSatisfier;
  }

  lemma NothingMeets(s: Setting, e: Pkg, p: Pkg, d: Depend)
    requires !DepCmp(e, Wanted(s, d)) && !MetOutside(s, Wanted(s, d))
    requires |p.name| > |e.name| && |p.name| > |d.name| && p.provisions == []
    ensures DistinctNames([e]) && !HasName([e], p.name) && !MetWith(s, [e] + [p], Wanted(s, d))
  {
    hide MetInstalled, DepVercmp;
    assert !DepCmp(p, Wanted(s, d));
  }

  /** An instance: the list holds `held`, and the package of that name that satisfies the dependency of `p` is not
      pulled in any more. */
  method DisagreementRun() returns (resolver: Resolver, ret: int, s: Setting, p: Pkg, d: Depend)
    ensures ret == 0 && |resolver.packages| == 2 && resolver.packages[1] == p && d in p.depends
    ensures Offered(s, resolver.packages[0]) && Offered(s, p) && !MetWith(s, resolver.packages, Wanted(s, d))
  {
    hide MetWith, Named, DistinctNames, HasName;
    d := Depend("x", Any, None, None);
    var held := Pkg("q", "2", [], [], [], Explicit, "q-2", true);
    var other := Pkg("q", "1", [], [d], [], Explicit, "q-1", true);
    p := Pkg("p", "1", [d], [], [], Explicit, "p-1", true);
    s := Setting([], [Db([held], Usage(true, true), false, false)], [], [p, other], [], false, [], {});
    var handle := new AlpmHandle([], {});
    handle.dbsSync := s.sync;
    DisagreementSetting(s, held, other, p, d);
    resolver, ret := UnmetRun(handle, s, [held], p, d, {"p", "q"});
  }

  /** The state that the run starts from, and what its end lacks. */
  lemma DisagreementSetting(s: Setting, held: Pkg, other: Pkg, p: Pkg, d: Depend)
    requires d == Depend("x", Any, None, None) && held == Pkg("q", "2", [], [], [], Explicit, "q-2", true)
    requires other == Pkg("q", "1", [], [d], [], Explicit, "q-1", true) && p == Pkg("p", "1", [d], [], [], Explicit, "p-1", true)
    requires s == Setting([], [Db([held], Usage(true, true), false, false)], [], [p, other], [], false, [], {})
    ensures Candidates(s, {"p", "q"}) && Offered(s, held) && Offered(s, p) && !NameMeets(s, d)
    ensures DistinctNames([held]) && !HasName([held], p.name) && Named(s, [held], d)
    ensures !MetWith(s, [held] + [p], d)
  {
    assert s.sync[0] in s.sync && held in s.sync[0].pkgcache && Found(s.sync, held);
    forall c | Offered(s, c) ensures c.name in {"p", "q"} {
      if db :| db in s.sync && Usable(db) && c in db.pkgcache { assert db == s.sync[0]; }
    }
    assert p.name == "p" && held.name == "q" && "p"[0] == 'p' && "q"[0] == 'q';
    assert ProvisionMatches(other.provisions[0], d);
    assert |d.name| == 1 && d.name[0] == 'x';
    assert DepCmp(other, d) && !DepCmp(p, d) && !DepCmp(held, d);
    assert FindSatisfier(s.preferred, d) == Some(other) by { assert s.preferred[1..] == [other]; }
    assert [held][0].name == other.name;
  }
}
