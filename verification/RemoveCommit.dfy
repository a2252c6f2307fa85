/** Carrying out removals one package at a time, and what holds after each of them. */
module RemoveCommit {
  import opened Common
  import opened DepString
  import opened Package
  import opened PkgLists
  import opened Deps
  import opened DepGraph
  import opened DepOrder
  import opened RecurseDeps
  import opened Handle
  import opened Remove

  /** The packages left when those of `removed` have been taken out of the cache one by one. */
  function Left(local: seq<Pkg>, removed: seq<Pkg>): seq<Pkg> {
    if removed == [] then local
    else RemoveByName(Left(local, removed[..|removed|-1]), removed[|removed|-1].name)
  }

  lemma {:induction false} LeftMembers(local: seq<Pkg>, removed: seq<Pkg>)
    requires DistinctNames(local)
    ensures DistinctNames(Left(local, removed))
    ensures forall x :: x in Left(local, removed) <==> x in local && !HasName(removed, x.name)
  {
    hide HasName, RemoveByName, DistinctNames;
    if removed == [] {
      forall x: Pkg ensures !HasName([], x.name) { NoName(x.name); }
    } else {
      var n := |removed| - 1;
      LeftMembers(local, removed[..n]);
      RemoveByNameMembers(Left(local, removed[..n]), removed[n].name);
      assert removed[..n+1] == removed;
      forall x: Pkg ensures HasName(removed, x.name) <==> HasName(removed[..n], x.name) || removed[n].name == x.name {
        HasNameSnoc(removed, n, x.name);
      }
    }
  }

  /** Met by an installed package or by an assumption. */
  predicate Supported(pkgs: seq<Pkg>, assumed: seq<Depend>, d: Depend) {
    Satisfied(pkgs, d) || DepCmpProvides(d, assumed)
  }

  /** Every package of `now` keeps each of its dependencies that was met by `before`. */
  ghost predicate KeepsSupport(before: seq<Pkg>, now: seq<Pkg>, assumed: seq<Depend>) {
    forall u, d :: u in now && d in u.depends && Supported(before, assumed, d) ==> Supported(now, assumed, d)
  }

  /** The graph of a removal is the whole set of installed packages. */
  lemma GraphIsLocal(local: seq<Pkg>, rem: seq<Pkg>)
    requires DistinctNames(local) && SubsetOf(rem, local)
    ensures forall x :: x in GraphNodes(local, rem, []) <==> x in local
  {
    hide HasName, LocalCandidates, DistinctNames;
    CandidatesByName(local, rem, []);
    forall x ensures x in GraphNodes(local, rem, []) <==> x in local {
      NoName(x.name);
      if x in local { NameIsMember(local, rem, x); }
    }
  }

  lemma ReachesIn(nodes: seq<Pkg>, other: seq<Pkg>, u: Pkg, v: Pkg)
    requires SubsetOf(nodes, other) && Reaches(nodes, u, v)
    ensures Reaches(other, u, v)
  {
    hide DependsOn;
    var path :| Joins(nodes, path, u, v);
    assert Joins(other, path, u, v);
  }

  lemma BackwardsIndex(order: seq<Pkg>, first: Pkg, second: Pkg, k: nat)
    requires Precedes(order, first, second) && Distinct(Reverse(order)) && k <= |order|
    requires first in Reverse(order)[..k]
    ensures second in Reverse(order)[..k]
  {
    var r := Reverse(order);
    var a, b :| 0 <= a < b < |order| && order[a] == first && order[b] == second;
    var c :| 0 <= c < k && r[..k][c] == first;
    assert r[c] == first && r[|order|-1-a] == first && r[|order|-1-b] == second;
    assert c == |order| - 1 - a;
    assert r[..k][|order|-1-b] == second;
  }

  lemma PermutedDistinct(s: seq<Pkg>, t: seq<Pkg>)
    requires multiset(s) == multiset(t) && Distinct(t)
    ensures Distinct(s) && forall x :: x in s <==> x in t
  {
    DistinctCounts(t);
    CountsDistinct(s);
    forall x ensures x in s <==> x in t {
      assert x in multiset(s) <==> x in s;
      assert x in multiset(t) <==> x in t;
    }
  }

  lemma NamesApartDistinct(s: seq<Pkg>)
    requires DistinctNames(s)
    ensures Distinct(s)
  {
  }

  /** When removals are sorted, a package goes before what it depends on, unless the two are on a cycle. */
  lemma NeededGoesLater(nodes: seq<Pkg>, rem: seq<Pkg>, order: seq<Pkg>, k: nat, u: Pkg, w: Pkg)
    requires SortedByDeps(nodes, rem, true, order) && Distinct(order) && k <= |order|
    requires u in order && w in order && u in nodes && w in nodes
    requires DependsOn(u, w) && !Reaches(nodes, w, u)
    requires w in order[..k]
    ensures u in order[..k]
  {
    hide DependsOn, Reaches, DependenciesLead, Precedes, Distinct;
    var o :| DependenciesLead(nodes, o) && order == Reverse(o);
    ReversePermutes(o);
    assert u in multiset(order) && w in multiset(order);
    assert u in multiset(o) && w in multiset(o);
    DirectDependencyLeads(nodes, o, u, w);
    BackwardsIndex(o, w, u, k);
  }

  /** `HasName` looks at the members only. */
  lemma SameNames(s: seq<Pkg>, t: seq<Pkg>, name: string)
    requires forall x :: x in s ==> x in t
    requires HasName(s, name)
    ensures HasName(t, name)
  {
    var i :| 0 <= i < |s| && s[i].name == name;
    assert s[i] in t;
    var j :| 0 <= j < |t| && t[j] == s[i];
  }

  /** A clean removal leaves a staying package's dependency met. */
  lemma StayingKeeps(local: seq<Pkg>, rem: seq<Pkg>, assumed: seq<Depend>, u: Pkg, d: Depend, w: Pkg)
    requires DistinctNames(local) && SubsetOf(rem, local) && Clean(RemovalQuery(local, rem, false, assumed))
    requires u in local && !HasName(rem, u.name) && d in u.depends && w in local && DepCmp(w, d)
    ensures DepCmpProvides(d, assumed) || exists v :: v in local && !HasName(rem, v.name) && DepCmp(v, d)
  {
    hide DepCmp, Keep, HasName, Satisfied, DepCmpProvides, DistinctNames;
    var q := RemovalQuery(local, rem, false, assumed);
    UntouchedIs(local, rem, false, assumed);
    assert Effective(q, d) == d;
    if HasName(rem, w.name) {
      SatisfiedBy(Modified(q), w, d);
      assert u in Untouched(q);
      assert Met(q, d);
      NothingSatisfies(d);
      if !DepCmpProvides(d, assumed) {
        var v := SatisfierOf(Untouched(q), d);
      }
    }
  }

  /** After any number of removals of a clean plan, the dependency `d` of an installed package `u` is met
      if `w` satisfied it, unless both are still to go and on a cycle. */
  lemma StepKeeps(local: seq<Pkg>, rem: seq<Pkg>, order: seq<Pkg>, assumed: seq<Depend>, k: nat, u: Pkg, d: Depend, w: Pkg)
    requires DistinctNames(local) && DistinctNames(rem) && SubsetOf(rem, local)
    requires Clean(RemovalQuery(local, rem, false, assumed))
    requires SortedByDeps(GraphNodes(local, rem, []), rem, true, order) && k <= |order|
    requires u in Left(local, order[..k]) && d in u.depends && w in local && DepCmp(w, d)
    requires u in rem && w in rem && u != w ==> !Reaches(local, w, u)
    ensures Supported(Left(local, order[..k]), assumed, d)
  {
    hide DepCmp, HasName, Satisfied, DepCmpProvides, Left, Reaches, Clean, DependsOn, SortedByDeps, GraphNodes, DistinctNames;
    var now := Left(local, order[..k]);
    LeftMembers(local, order[..k]);
    NamesApartDistinct(rem);
    assert multiset(order) == multiset(rem) by { OrderPermutes(local, rem, order); }
    PermutedDistinct(order, rem);
    assert SubsetOf(order[..k], local);
    NameIsMember(local, rem, u);
    if u !in rem {
      StayingKeeps(local, rem, assumed, u, d, w);
      if !DepCmpProvides(d, assumed) {
        var v :| v in local && !HasName(rem, v.name) && DepCmp(v, d);
        if HasName(order[..k], v.name) { SameNames(order[..k], rem, v.name); }
        SatisfiedBy(now, v, d);
      }
    } else {
      NameIsMember(local, order[..k], u);
      NameIsMember(local, order[..k], w);
      if w in order[..k] && u != w {
        GraphIsLocal(local, rem);
        if Reaches(GraphNodes(local, rem, []), w, u) { ReachesIn(GraphNodes(local, rem, []), local, w, u); }
        DependsOnBy(u, w, d);
        NeededGoesLater(GraphNodes(local, rem, []), rem, order, k, u, w);
      }
      SatisfiedBy(now, w, d);
    }
  }

  lemma OrderPermutes(local: seq<Pkg>, rem: seq<Pkg>, order: seq<Pkg>)
    requires SortedByDeps(GraphNodes(local, rem, []), rem, true, order)
    ensures multiset(order) == multiset(rem)
  {
  }

  lemma DependsOnBy(u: Pkg, w: Pkg, d: Depend)
    requires d in u.depends && DepCmp(w, d)
    ensures DependsOn(u, w)
  {
    hide DepCmp;
    var j :| 0 <= j < |u.depends| && u.depends[j] == d;
    assert DepCmp(w, u.depends[j]);
  }

  /** After any number of removals of a clean plan on acyclic dependencies, nothing installed has lost
      a dependency. */
  lemma EveryStepKeeps(local: seq<Pkg>, rem: seq<Pkg>, order: seq<Pkg>, assumed: seq<Depend>, k: nat)
    requires DistinctNames(local) && DistinctNames(rem) && SubsetOf(rem, local) && Acyclic(local)
    requires Clean(RemovalQuery(local, rem, false, assumed))
    requires SortedByDeps(GraphNodes(local, rem, []), rem, true, order) && k <= |order|
    ensures KeepsSupport(local, Left(local, order[..k]), assumed)
  {
    hide DepCmp, HasName, Satisfied, DepCmpProvides, Left, Reaches, Clean, DependsOn, SortedByDeps, GraphNodes, DistinctNames;
    var now := Left(local, order[..k]);
    LeftMembers(local, order[..k]);
    forall u, d | u in now && d in u.depends && Supported(local, assumed, d) ensures Supported(now, assumed, d) {
      if !DepCmpProvides(d, assumed) {
        var w := SatisfierOf(local, d);
        DependsOnBy(u, w, d);
        StepKeeps(local, rem, order, assumed, k, u, d, w);
      }
    }
  }

  function Next(i: nat, n: nat): (j: nat)
    requires i < n
    ensures j < n && (n > 1 ==> j != i)
  {
    if i + 1 < n then i + 1 else 0
  }

  /** Each package of the cycle is the only installed one that satisfies a dependency of the one before it. */
  ghost predicate SoleSupports(local: seq<Pkg>, assumed: seq<Depend>, cycle: seq<Pkg>, needs: seq<Depend>) {
    |cycle| == |needs| && forall i :: 0 <= i < |cycle| ==>
      && cycle[i] in local && needs[i] in cycle[i].depends && !DepCmpProvides(needs[i], assumed)
      && forall x :: x in local ==> (DepCmp(x, needs[i]) <==> x == cycle[Next(i, |cycle|)])
  }

  /** Between a package of the cycle that stays and one that is gone, one that stays is followed by one that is gone. */
  lemma Boundary(cycle: seq<Pkg>, gone: seq<Pkg>, i: nat, j: nat) returns (k: nat)
    requires i < |cycle| && j < |cycle| && cycle[i] !in gone && cycle[j] in gone
    ensures k < |cycle| && cycle[k] !in gone && cycle[Next(k, |cycle|)] in gone
  {
    k := i;
    while cycle[Next(k, |cycle|)] !in gone
      invariant k < |cycle| && cycle[k] !in gone
      decreases if k < j then j - k else |cycle| + j - k
    {
      assert k != j;
      k := Next(k, |cycle|);
    }
  }

  /** While some packages of such a cycle are gone and some are not, one that stays has lost a dependency. */
  lemma PartOfCycleBreaks(local: seq<Pkg>, gone: seq<Pkg>, assumed: seq<Depend>, cycle: seq<Pkg>, needs: seq<Depend>, i: nat, j: nat)
    requires DistinctNames(local) && SubsetOf(gone, local) && SoleSupports(local, assumed, cycle, needs)
    requires i < |cycle| && j < |cycle| && cycle[i] !in gone && cycle[j] in gone
    ensures !KeepsSupport(local, Left(local, gone), assumed)
  {
    hide DepCmp, HasName, Satisfied, DepCmpProvides, Left, DistinctNames;
    var now := Left(local, gone);
    var k := Boundary(cycle, gone, i, j);
    var u, w, d := cycle[k], cycle[Next(k, |cycle|)], needs[k];
    LeftMembers(local, gone);
    NameIsMember(local, gone, u);
    NameIsMember(local, gone, w);
    SatisfiedBy(local, w, d);
    if Satisfied(now, d) { var x := SatisfierOf(now, d); }
    assert u in now && !Supported(now, assumed, d);
  }

  /** The packages of such a cycle cannot be removed, in whatever order, without a step that breaks one. */
  lemma MutualNeedBreaks(local: seq<Pkg>, order: seq<Pkg>, assumed: seq<Depend>, cycle: seq<Pkg>, needs: seq<Depend>)
    requires DistinctNames(local) && SubsetOf(order, local) && SubsetOf(cycle, order)
    requires |cycle| >= 2 && Distinct(cycle) && SoleSupports(local, assumed, cycle, needs)
    ensures exists k: nat :: k <= |order| && !KeepsSupport(local, Left(local, order[..k]), assumed)
  {
    hide Left, DistinctNames, KeepsSupport, SoleSupports;
    var k, i, j := FirstOf(order, cycle);
    PartOfCycleBreaks(local, order[..k], assumed, cycle, needs, i, j);
  }

  /** The steps after which the first of several packages is gone. */
  lemma FirstOf(order: seq<Pkg>, cycle: seq<Pkg>) returns (k: nat, i: nat, j: nat)
    requires SubsetOf(cycle, order) && |cycle| >= 2 && Distinct(cycle)
    ensures k <= |order| && i < |cycle| && j < |cycle| && cycle[i] !in order[..k] && cycle[j] in order[..k]
  {
    assert order[..|order|] == order && cycle[0] in cycle && cycle[0] in order;
    k := 0;
    while k < |order| && forall x :: x in cycle ==> x !in order[..k+1]
      invariant k <= |order| && forall x :: x in cycle ==> x !in order[..k]
    {
      k := k + 1;
    }
    assert k < |order|;
    assert order[..k+1] == order[..k] + [order[k]];
    j :| 0 <= j < |cycle| && cycle[j] in order[..k+1];
    i := Next(j, |cycle|);
    k := k + 1;
  }

  /** The steps taken when `interrupt(k)` says whether an interrupt arrives before step `k`. */
  ghost predicate StopsAt(interrupt: nat -> bool, steps: nat, done: nat) {
    done <= steps && (forall i :: 0 <= i < done ==> !interrupt(i)) && (done < steps ==> interrupt(done))
  }

  /** `_alpm_remove_packages`, on the package cache; another thread may interrupt it before any step. */
  method RemovePackages(handle: AlpmHandle, trans: Trans, interrupt: nat -> bool) returns (ret: int, ghost done: nat)
    requires DistinctNames(handle.dbLocal) && trans.state == Committing
    modifies handle`dbLocal, trans`state
    ensures ret == 0 && StopsAt(interrupt, |trans.remove|, done)
    ensures handle.dbLocal == Left(old(handle.dbLocal), trans.remove[..done])
    ensures trans.state == if done < |trans.remove| then Interrupted else Committing
  {
    ret, done := 0, 0;
    var i := 0;
    while i < |trans.remove|
      invariant i == done <= |trans.remove| && trans.state == Committing && forall k :: 0 <= k < i ==> !interrupt(k)
      invariant handle.dbLocal == Left(old(handle.dbLocal), trans.remove[..i])
    {
      var pkg := trans.remove[i];
      if interrupt(i) { trans.state := Interrupted; }
      if trans.state == Interrupted { return; }
      assert trans.remove[..i+1][..i] == trans.remove[..i];
      handle.dbLocal := RemoveByName(handle.dbLocal, pkg.name);
      i, done := i + 1, i + 1;
    }
  }
}
