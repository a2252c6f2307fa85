/** Installing the targets one at a time, and what holds at every step, also when a step fails. */
module Upgrade {
  import opened Common
  import opened DepString
  import opened Package
  import opened PkgLists
  import opened Deps
  import opened DepGraph
  import opened ListSpec
  import opened DepOrder
  import opened RecurseDeps
  import opened Handle
  import opened Remove
  import opened RemoveCommit
  import opened Sync

  /** The same package up to the install reason and where it came from. */
  ghost predicate SameMeta(p: Pkg, x: Pkg) { x == p.(reason := x.reason, fromSync := x.fromSync) }

  ghost predicate Holds(now: seq<Pkg>, p: Pkg) { exists x :: x in now && SameMeta(p, x) }

  /** `_alpm_pkghash_add_sorted` on the list of packages. */
  function AddSorted(pkgs: seq<Pkg>, p: Pkg): seq<Pkg> { Merge(pkgs, [p], Identity, PkgCmp) }

  lemma AddSortedMembers(pkgs: seq<Pkg>, p: Pkg)
    ensures forall x :: x in AddSorted(pkgs, p) <==> x in pkgs || x == p
    ensures DistinctNames(pkgs) && !HasName(pkgs, p.name) ==> DistinctNames(AddSorted(pkgs, p))
  {
    hide Merge, PkgCmp, HasName;
    MergePermutes(pkgs, [p], Identity, PkgCmp);
    MultisetMembers(pkgs, [p], AddSorted(pkgs, p));
    if DistinctNames(pkgs) && !HasName(pkgs, p.name) {
      FreshName(pkgs, p);
      assert multiset(AddSorted(pkgs, p)) == multiset(pkgs + [p]);
      NamesPermute(pkgs + [p], AddSorted(pkgs, p));
    }
  }

  /** The names in the order of their characters. */
  ghost predicate InNameOrder(pkgs: seq<Pkg>) {
    forall i, j :: 0 <= i < j < |pkgs| ==> StrCmp(pkgs[i].name, pkgs[j].name) <= 0
  }

  /** A sorted cache stays sorted. */
  lemma AddSortedKeepsOrder(pkgs: seq<Pkg>, p: Pkg)
    requires InNameOrder(pkgs)
    ensures InNameOrder(AddSorted(pkgs, p))
  {
    hide StrCmp;
    PkgCmpCompares();
    MergeSorted(pkgs, [p], Identity, PkgCmp);
    var more := AddSorted(pkgs, p);
    forall i, j | 0 <= i < j < |more| ensures StrCmp(more[i].name, more[j].name) <= 0 {
      assert PkgCmp(Identity(more[i]), Identity(more[j])) <= 0;
    }
  }

  /** Distinct names do not depend on the order. */
  lemma NamesPermute(s: seq<Pkg>, t: seq<Pkg>)
    requires multiset(s) == multiset(t) && DistinctNames(s)
    ensures DistinctNames(t)
  {
    NamesApartDistinct(s);
    PermutedDistinct(t, s);
    forall i, j | 0 <= i < j < |t| ensures t[i].name != t[j].name {
      assert t[i] in s && t[j] in s;
      DifferentNames(s, t[i], t[j]);
    }
  }

  // ---- stages of the installation ----

  /** The database when the old versions of the first `gone` targets have been taken out and the first
      `put` targets put in, everything to be removed being gone. */
  ghost predicate Stage(q: Query, add: seq<Pkg>, gone: nat, put: nat, now: seq<Pkg>)
    requires put <= gone <= |add|
  {
    && DistinctNames(now)
    && (forall x :: x in q.pkglist && !HasName(q.rem, x.name) && !HasName(add[..gone], x.name) ==> x in now)
    && (forall i :: 0 <= i < put ==> Holds(now, add[i]))
    && (forall x :: x in now ==>
          (x in q.pkglist && !HasName(q.rem, x.name) && !HasName(add[..gone], x.name)) ||
          exists i :: 0 <= i < put && SameMeta(add[i], x))
  }

  /** The installed package that the target takes over from, unless it is removed first. */
  ghost predicate Replaces(q: Query, p: Pkg, before: Pkg) {
    before in q.pkglist && before.name == p.name && !HasName(q.rem, p.name)
  }

  /** `x` has the reason that is due to the target `p`: what the flags say, else that of the package it replaces, else
      its own. It no longer counts as coming from a database. */
  ghost predicate Due(q: Query, flags: Flags, p: Pkg, x: Pkg) {
    && !x.fromSync
    && (flags.alldeps ==> x.reason == AsDependency)
    && (flags.allexplicit && !flags.alldeps ==> x.reason == Explicit)
    && (!flags.alldeps && !flags.allexplicit ==>
          (forall before :: Replaces(q, p, before) ==> x.reason == before.reason) &&
          ((forall before :: !Replaces(q, p, before)) ==> x.reason == p.reason))
  }

  /** The targets put in so far have the reasons that are due to them. */
  ghost predicate ReasonsDue(q: Query, flags: Flags, add: seq<Pkg>, put: nat, now: seq<Pkg>)
    requires put <= |add|
  {
    forall i, x :: 0 <= i < put && x in now && x.name == add[i].name ==> Due(q, flags, add[i], x)
  }

  /** Every dependency of the targets put in so far is met by what is installed. */
  ghost predicate PutAreMet(add: seq<Pkg>, put: nat, now: seq<Pkg>, assumed: seq<Depend>)
    requires put <= |add|
  {
    forall i, d :: 0 <= i < put && d in add[i].depends ==> Supported(now, assumed, d)
  }

  lemma MetaSatisfies(p: Pkg, x: Pkg, d: Depend)
    requires SameMeta(p, x)
    ensures DepCmp(p, d) <==> DepCmp(x, d)
  {
    hide DepVercmp, DepCmpProvides;
  }

  lemma HeldSupports(now: seq<Pkg>, assumed: seq<Depend>, w: Pkg, d: Depend)
    requires Holds(now, w) && DepCmp(w, d)
    ensures Supported(now, assumed, d)
  {
    hide DepCmp, DepCmpProvides, Satisfied;
    var x :| x in now && SameMeta(w, x);
    MetaSatisfies(w, x, d);
    SatisfiedBy(now, x, d);
  }

  lemma PrecedesIndex(s: seq<Pkg>, first: Pkg, i: nat)
    requires Distinct(s) && i < |s| && Precedes(s, first, s[i])
    ensures exists a :: 0 <= a < i && s[a] == first
  {
    var a, b :| 0 <= a < b < |s| && s[a] == first && s[b] == s[i];
    assert b == i;
  }

  /** A dependency of a target on another comes earlier in the sorted list, unless the two are on a cycle. */
  lemma NeededGoesEarlier(nodes: seq<Pkg>, add0: seq<Pkg>, add: seq<Pkg>, i: nat, w: Pkg)
    requires SortedByDeps(nodes, add0, false, add) && Distinct(add) && i < |add| && w in add && w in nodes && add[i] in nodes
    requires DependsOn(add[i], w) && !Reaches(nodes, w, add[i])
    ensures exists a :: 0 <= a < i && add[a] == w
  {
    hide DependsOn, Reaches, DependenciesLead, Precedes, Distinct;
    assert DependenciesLead(nodes, add);
    DirectDependencyLeads(nodes, add, add[i], w);
    PrecedesIndex(add, w, i);
  }

  /** One dependency of a target already put in, satisfied in the plan by `w`. */
  lemma TargetKeeps(q: Query, add: seq<Pkg>, nodes: seq<Pkg>, gone: nat, put: nat, now: seq<Pkg>, i: nat, d: Depend, w: Pkg)
    requires put <= gone <= |add| && Stage(q, add, gone, put, now)
    requires SortedByDeps(nodes, q.upgrade, false, add) && Distinct(add) && (forall x :: x in q.upgrade ==> x in nodes)
    requires i < put && d in add[i].depends && DepCmp(w, d)
    requires w in Untouched(q) || (w in q.upgrade && (w == add[i] || !Reaches(nodes, w, add[i])))
    ensures Supported(now, q.assumed, d)
  {
    hide DepCmp, DepCmpProvides, Satisfied, HasName, DependsOn, Reaches, DependenciesLead, Holds, DistinctNames, SameMeta, Distinct, Keep;
    SortedMembers(nodes, q.upgrade, add);
    assert add[i] in add;
    if w in Untouched(q) {
      assert w in q.pkglist && !HasName(q.rem, w.name);
      if HasName(add[..gone], w.name) { SameNames(add[..gone], q.upgrade, w.name); }
      assert w in now;
      SatisfiedBy(now, w, d);
    } else {
      if w != add[i] {
        DependsOnBy(add[i], w, d);
        NeededGoesEarlier(nodes, q.upgrade, add, i, w);
        var a :| 0 <= a < i && add[a] == w;
        assert Holds(now, add[a]);
      }
      HeldSupports(now, q.assumed, w, d);
    }
  }

  lemma SortedMembers(nodes: seq<Pkg>, add0: seq<Pkg>, add: seq<Pkg>)
    requires SortedByDeps(nodes, add0, false, add)
    ensures (forall x :: x in add <==> x in add0) && |add| == |add0|
  {
    hide DependenciesLead;
    assert |multiset(add)| == |multiset(add0)|;
    forall x ensures x in add <==> x in add0 {
      assert x in add <==> x in multiset(add);
      assert x in add0 <==> x in multiset(add0);
    }
  }

  /** At every stage of a clean plan on acyclic dependencies, the targets already put in have all their
      dependencies met. */
  lemma EveryStageMeets(q: Query, add: seq<Pkg>, nodes: seq<Pkg>, gone: nat, put: nat, now: seq<Pkg>)
    requires put <= gone <= |add| && Stage(q, add, gone, put, now)
    requires SortedByDeps(nodes, q.upgrade, false, add) && Distinct(add) && (forall x :: x in q.upgrade ==> x in nodes)
    requires Clean(q) && !q.nodepversion && Acyclic(nodes)
    ensures PutAreMet(add, put, now, q.assumed)
  {
    hide DepCmp, DepCmpProvides, Satisfied, HasName, DependsOn, Reaches, Stage, Distinct, SortedByDeps, Keep, Untouched, Modified;
    SortedMembers(nodes, q.upgrade, add);
    forall i, d | 0 <= i < put && d in add[i].depends ensures Supported(now, q.assumed, d) {
      assert add[i] in add && add[i] in q.upgrade && Effective(q, d) == d;
      assert Met(q, d);
      if Satisfied(q.upgrade, d) {
        var w := SatisfierOf(q.upgrade, d);
        DependsOnBy(add[i], w, d);
        TargetKeeps(q, add, nodes, gone, put, now, i, d, w);
      } else if Satisfied(Untouched(q), d) {
        var w := SatisfierOf(Untouched(q), d);
        TargetKeeps(q, add, nodes, gone, put, now, i, d, w);
      }
    }
  }

  // ---- commit_single_pkg ----

  datatype Outcome = NotAdded | AddedWithErrors | Added

  /** The target as it goes into the database. */
  function AsInstalled(newpkg: Pkg, flags: Flags, upgraded: Option<Pkg>): Pkg {
    var reason := if flags.alldeps then AsDependency else if flags.allexplicit then Explicit
                  else if upgraded.Some? then upgraded.value.reason else newpkg.reason;
    newpkg.(reason := reason, fromSync := false)
  }

  lemma StageDrops(q: Query, add: seq<Pkg>, k: nat, now: seq<Pkg>)
    requires k < |add| && DistinctNames(add) && Stage(q, add, k, k, now)
    ensures Stage(q, add, k + 1, k, RemoveByName(now, add[k].name)) && !HasName(RemoveByName(now, add[k].name), add[k].name)
    ensures !HasName(now, add[k].name) ==> Stage(q, add, k + 1, k, now)
    ensures SubsetOf(RemoveByName(now, add[k].name), now)
  {
    hide HasName, DistinctNames, RemoveByName;
    var less := RemoveByName(now, add[k].name);
    RemoveByNameMembers(now, add[k].name);
    DroppedParts(now, add[k].name);
    forall x: Pkg ensures HasName(add[..k+1], x.name) <==> HasName(add[..k], x.name) || add[k].name == x.name {
      HasNameSnoc(add, k, x.name);
    }
    forall i | 0 <= i < k ensures Holds(less, add[i]) {
      assert Holds(now, add[i]);
      var x :| x in now && SameMeta(add[i], x);
      TwoNames(add, i, k);
    }
    forall x | x in now && !HasName(now, add[k].name) ensures x.name != add[k].name { NamedMember(now, x); }
  }

  lemma TwoNames(s: seq<Pkg>, i: nat, j: nat)
    requires DistinctNames(s) && i < j < |s|
    ensures s[i].name != s[j].name
  {
  }

  lemma StagePuts(q: Query, add: seq<Pkg>, k: nat, now: seq<Pkg>, x: Pkg)
    requires k < |add| && Stage(q, add, k + 1, k, now) && SameMeta(add[k], x) && !HasName(now, x.name)
    ensures Stage(q, add, k + 1, k + 1, AddSorted(now, x))
  {
    hide HasName, AddSorted, DistinctNames, SameMeta;
    var more := AddSorted(now, x);
    AddSortedMembers(now, x);
    forall i | 0 <= i < k + 1 ensures Holds(more, add[i]) {
      assert i < k ==> Holds(now, add[i]);
      if i < k { HeldStays(now, more, x, add[i]); }
    }
    forall y | y in more
      ensures (y in q.pkglist && !HasName(q.rem, y.name) && !HasName(add[..k+1], y.name)) || exists i :: 0 <= i < k + 1 && SameMeta(add[i], y)
    {
      assert y == x || y in now;
    }
  }

  lemma HeldStays(now: seq<Pkg>, more: seq<Pkg>, x: Pkg, p: Pkg)
    requires (forall y :: y in more <==> y in now || y == x) && Holds(now, p)
    ensures Holds(more, p)
  {
    hide SameMeta;
    var y :| y in now && SameMeta(p, y);
    assert y in more;
  }

  /** The old version of each target, as recorded when the plan was made. */
  ghost predicate OldRecorded(q: Query, add: seq<Pkg>, oldpkg: map<Pkg, Pkg>) {
    forall p :: p in add ==> if p in oldpkg then oldpkg[p].name == p.name && oldpkg[p] in q.pkglist else !HasName(q.pkglist, p.name)
  }

  lemma NotAmongEarlier(add: seq<Pkg>, k: nat)
    requires k < |add| && DistinctNames(add)
    ensures !HasName(add[..k], add[k].name)
  {
    forall i | 0 <= i < k ensures add[..k][i].name != add[k].name { TwoNames(add, i, k); }
  }

  /** Before a target is put in, an installed package has its name exactly when one was installed and is not removed. */
  lemma NamedNow(q: Query, add: seq<Pkg>, k: nat, now: seq<Pkg>)
    requires k < |add| && DistinctNames(add) && Stage(q, add, k, k, now)
    ensures HasName(now, add[k].name) <==> HasName(q.pkglist, add[k].name) && !HasName(q.rem, add[k].name)
  {
    hide DistinctNames;
    var name := add[k].name;
    if HasName(now, name) {
      var j :| 0 <= j < |now| && now[j].name == name;
      assert now[j] in now;
      if i :| 0 <= i < k && SameMeta(add[i], now[j]) { TwoNames(add, i, k); }
      NamedMember(q.pkglist, now[j]);
    }
    if HasName(q.pkglist, name) && !HasName(q.rem, name) {
      var j :| 0 <= j < |q.pkglist| && q.pkglist[j].name == name;
      NotAmongEarlier(add, k);
      NamedMember(now, q.pkglist[j]);
    }
  }

  /** What is put in has the reason that is due. */
  lemma InstalledIsDue(q: Query, flags: Flags, p: Pkg, upgraded: Option<Pkg>)
    requires DistinctNames(q.pkglist)
    requires upgraded.Some? <==> HasName(q.pkglist, p.name) && !HasName(q.rem, p.name)
    requires upgraded.Some? ==> upgraded.value in q.pkglist && upgraded.value.name == p.name
    ensures SameMeta(p, AsInstalled(p, flags, upgraded)) && Due(q, flags, p, AsInstalled(p, flags, upgraded))
  {
    hide DistinctNames, HasName;
    forall before | Replaces(q, p, before) ensures upgraded == Some(before) {
      NamedMember(q.pkglist, before);
      if upgraded.value != before { DifferentNames(q.pkglist, upgraded.value, before); }
    }
    assert upgraded.Some? ==> Replaces(q, p, upgraded.value);
  }

  /** Taking packages out, and putting a due one in, keeps the reasons due. */
  lemma DueStays(q: Query, flags: Flags, add: seq<Pkg>, put: nat, now: seq<Pkg>, fewer: seq<Pkg>)
    requires put <= |add| && ReasonsDue(q, flags, add, put, now) && SubsetOf(fewer, now)
    ensures ReasonsDue(q, flags, add, put, fewer)
  {
    hide Due;
  }

  lemma DuePuts(q: Query, flags: Flags, add: seq<Pkg>, k: nat, now: seq<Pkg>, x: Pkg)
    requires k < |add| && DistinctNames(add) && ReasonsDue(q, flags, add, k, now)
    requires !HasName(now, x.name) && SameMeta(add[k], x) && Due(q, flags, add[k], x)
    ensures ReasonsDue(q, flags, add, k + 1, AddSorted(now, x))
  {
    hide Due, AddSorted, DistinctNames, HasName;
    AddSortedMembers(now, x);
    forall i, y | 0 <= i < k + 1 && y in AddSorted(now, x) && y.name == add[i].name ensures Due(q, flags, add[i], y) {
      if y in now { NamedMember(now, y); }
      if i < k { TwoNames(add, i, k); }
    }
  }

  /** `commit_single_pkg`, on the package cache: the old version goes, then the target may be added. */
  method CommitSinglePkg(handle: AlpmHandle, trans: Trans, k: nat, outcome: Outcome, ghost q: Query) returns (ret: int)
    requires k < |trans.add| && DistinctNames(trans.add) && OldRecorded(q, trans.add, trans.oldpkg)
    requires DistinctNames(q.pkglist)
    requires Stage(q, trans.add, k, k, handle.dbLocal) && ReasonsDue(q, trans.flags, trans.add, k, handle.dbLocal)
    modifies handle`dbLocal
    ensures Stage(q, trans.add, k + 1, if outcome == NotAdded then k else k + 1, handle.dbLocal)
    ensures ReasonsDue(q, trans.flags, trans.add, if outcome == NotAdded then k else k + 1, handle.dbLocal)
    ensures ret == if outcome == Added then 0 else -1
  {
    hide HasName, DistinctNames, RemoveByName, Stage, AddSorted, Distinct, ReasonsDue, Due, AsInstalled;
    var newpkg := trans.add[k];
    var upgraded: Option<Pkg> := None;
    if FindPkg(handle.dbLocal, newpkg.name).Some? && newpkg in trans.oldpkg {
      upgraded := Some(trans.oldpkg[newpkg]);
    }
    NamedNow(q, trans.add, k, handle.dbLocal);
    StageDrops(q, trans.add, k, handle.dbLocal);
    DueStays(q, trans.flags, trans.add, k, handle.dbLocal, RemoveByName(handle.dbLocal, newpkg.name));
    if upgraded.Some? {
      handle.dbLocal := RemoveByName(handle.dbLocal, upgraded.value.name);
    }
    if outcome == NotAdded { return -1; }
    InstalledIsDue(q, trans.flags, newpkg, upgraded);
    DuePuts(q, trans.flags, trans.add, k, handle.dbLocal, AsInstalled(newpkg, trans.flags, upgraded));
    StagePuts(q, trans.add, k, handle.dbLocal, AsInstalled(newpkg, trans.flags, upgraded));
    handle.dbLocal := AddSorted(handle.dbLocal, AsInstalled(newpkg, trans.flags, upgraded));
    ret := if outcome == Added then 0 else -1;
  }

  /** The targets handled when `interrupt(k)` says whether an interrupt arrives before target `k`, and
      `outcome(k)` how installing it ends: all of them, or those before an interrupt, or up to a failure. */
  ghost predicate HandledUpTo(interrupt: nat -> bool, outcome: nat -> Outcome, targets: nat, gone: nat) {
    && gone <= targets
    && (forall i :: 0 <= i < gone ==> !interrupt(i) && (i + 1 < gone ==> outcome(i) == Added))
    && (gone < targets ==> interrupt(gone) || (gone > 0 && outcome(gone - 1) != Added))
  }

  /** The last target handled was not installed, or with errors. */
  predicate LastFailed(outcome: nat -> Outcome, gone: nat) { gone > 0 && outcome(gone - 1) != Added }

  /** Nothing is handled after a target that fails, nor from an interrupt on. What is installed with errors is in. */
  lemma NothingAfterFailure(interrupt: nat -> bool, outcome: nat -> Outcome, targets: nat, gone: nat, k: nat)
    requires HandledUpTo(interrupt, outcome, targets, gone) && k < targets
    ensures outcome(k) != Added ==> gone <= k + 1
    ensures interrupt(k) ==> gone <= k
    ensures gone == k + 1 ==> PutBy(outcome, gone) == if outcome(k) == NotAdded then k else k + 1
    ensures !LastFailed(outcome, gone) && (forall i :: 0 <= i < targets ==> !interrupt(i)) ==> gone == targets
  {
  }

  /** The targets that are in when `gone` have been handled. */
  function PutBy(outcome: nat -> Outcome, gone: nat): nat {
    if gone > 0 && outcome(gone - 1) == NotAdded then gone - 1 else gone
  }

  /** `_alpm_upgrade_packages` */
  method UpgradePackages(handle: AlpmHandle, trans: Trans, interrupt: nat -> bool, outcome: nat -> Outcome, ghost q: Query)
    returns (ret: int, ghost gone: nat)
    requires DistinctNames(trans.add) && OldRecorded(q, trans.add, trans.oldpkg)
    requires trans.state == Committing || trans.state == Interrupted
    requires DistinctNames(q.pkglist) && (trans.state == Committing ==> Stage(q, trans.add, 0, 0, handle.dbLocal))
    modifies handle`dbLocal, trans`state
    ensures old(trans.state) == Interrupted ==> trans.state == Interrupted && ret == 0 && handle.dbLocal == old(handle.dbLocal)
    ensures old(trans.state) == Committing ==>
              HandledUpTo(interrupt, outcome, |trans.add|, gone) &&
              Stage(q, trans.add, gone, PutBy(outcome, gone), handle.dbLocal) &&
              ReasonsDue(q, trans.flags, trans.add, PutBy(outcome, gone), handle.dbLocal) &&
              ret == (if LastFailed(outcome, gone) then -1 else 0) &&
              trans.state == (if gone < |trans.add| || LastFailed(outcome, gone) then Interrupted else Committing)
  {
    hide HasName, DistinctNames, Stage, Due, OldRecorded;
    ret, gone := 0, 0;
    var k := 0;
    while k < |trans.add|
      invariant k <= |trans.add| && gone == k
      invariant old(trans.state) == Interrupted ==> trans.state == Interrupted && k == 0 && ret == 0 && handle.dbLocal == old(handle.dbLocal)
      invariant old(trans.state) == Committing ==> Stage(q, trans.add, k, PutBy(outcome, k), handle.dbLocal)
      invariant old(trans.state) == Committing ==> ReasonsDue(q, trans.flags, trans.add, PutBy(outcome, k), handle.dbLocal)
      invariant old(trans.state) == Committing ==> forall i :: 0 <= i < k ==> !interrupt(i) && (i + 1 < k ==> outcome(i) == Added)
      invariant old(trans.state) == Committing ==> ret == if LastFailed(outcome, k) then -1 else 0
      invariant old(trans.state) == Committing ==> trans.state == if LastFailed(outcome, k) then Interrupted else Committing
    {
      if trans.state == Committing && interrupt(k) { trans.state := Interrupted; }
      if trans.state == Interrupted { return; }
      var r := CommitSinglePkg(handle, trans, k, outcome(k), q);
      if r != 0 {
        trans.state := Interrupted;
        ret := -1;
      }
      k, gone := k + 1, k + 1;
    }
  }

  // ---- the end ----

  /** The target is in, with the reason that is due to it. */
  ghost predicate Arrived(q: Query, flags: Flags, now: seq<Pkg>, p: Pkg) { exists x :: x in now && SameMeta(p, x) && Due(q, flags, p, x) }

  /** The plan's final set: the packages that stay as they were, the targets with the reasons due to them, and nothing else. */
  ghost predicate AtEnd(q: Query, flags: Flags, now: seq<Pkg>) {
    && DistinctNames(now)
    && (forall p :: p in Untouched(q) ==> p in now)
    && (forall p :: p in q.upgrade ==> Arrived(q, flags, now, p))
    && (forall x :: x in now ==> x in Untouched(q) || exists p :: p in q.upgrade && SameMeta(p, x) && Due(q, flags, p, x))
  }

  /** When every target is in, what is installed is the plan's final set. */
  lemma FinishedIsFinal(q: Query, flags: Flags, add: seq<Pkg>, now: seq<Pkg>)
    requires Stage(q, add, |add|, |add|, now) && ReasonsDue(q, flags, add, |add|, now) && (forall x :: x in add <==> x in q.upgrade)
    ensures AtEnd(q, flags, now)
  {
    hide HasName, DistinctNames, Keep, Due;
    assert add[..|add|] == add;
    forall p | p in Untouched(q) ensures p in now {
      if HasName(add, p.name) { SameNames(add, q.upgrade, p.name); }
    }
    forall p | p in q.upgrade ensures Arrived(q, flags, now, p) {
      var i :| 0 <= i < |add| && add[i] == p;
      assert Holds(now, add[i]);
    }
    forall x | x in now ensures x in Untouched(q) || exists p :: p in q.upgrade && SameMeta(p, x) && Due(q, flags, p, x) {
      if x in q.pkglist && !HasName(q.rem, x.name) && !HasName(add, x.name) {
        if HasName(q.upgrade, x.name) { SameNames(q.upgrade, add, x.name); }
      } else {
        var i :| 0 <= i < |add| && SameMeta(add[i], x);
        assert add[i] in add && add[i] in q.upgrade;
      }
    }
  }

  /** Up to reasons and origins. */
  lemma AtEndHolds(q: Query, flags: Flags, now: seq<Pkg>)
    requires AtEnd(q, flags, now)
    ensures forall p :: p in FinalSet(q) ==> Holds(now, p)
    ensures forall x :: x in now ==> exists p :: p in FinalSet(q) && SameMeta(p, x)
  {
    hide Untouched, DistinctNames, Due;
    forall p | p in FinalSet(q) ensures Holds(now, p) {
      if p in q.upgrade { assert Arrived(q, flags, now, p); } else { assert p in now && SameMeta(p, p); }
    }
    forall x | x in now ensures exists p :: p in FinalSet(q) && SameMeta(p, x) {
      if x in Untouched(q) {
        assert x in FinalSet(q) && SameMeta(x, x);
      } else {
        var p :| p in q.upgrade && SameMeta(p, x) && Due(q, flags, p, x);
        assert p in FinalSet(q);
      }
    }
  }

  /** Unless the flags say otherwise, a package that was installed and not removed keeps its reason through the transaction. */
  lemma ReasonsSurvive(q: Query, flags: Flags, now: seq<Pkg>, before: Pkg, x: Pkg)
    requires AtEnd(q, flags, now) && DistinctNames(q.pkglist) && !flags.alldeps && !flags.allexplicit
    requires before in q.pkglist && !HasName(q.rem, before.name) && x in now && x.name == before.name
    ensures x.reason == before.reason
  {
    hide DistinctNames, HasName;
    if x in Untouched(q) && x != before { DifferentNames(q.pkglist, x, before); }
    if x !in Untouched(q) {
      var p :| p in q.upgrade && SameMeta(p, x) && Due(q, flags, p, x);
      assert Replaces(q, p, before);
    }
  }

  lemma FinalSupports(q: Query, now: seq<Pkg>, d: Depend)
    requires (forall p :: p in FinalSet(q) ==> Holds(now, p)) && Supported(FinalSet(q), q.assumed, d)
    ensures Supported(now, q.assumed, d)
  {
    hide DepCmp, DepCmpProvides, Satisfied, Holds;
    if !DepCmpProvides(d, q.assumed) {
      var w := SatisfierOf(FinalSet(q), d);
      HeldSupports(now, q.assumed, w, d);
    }
  }
}
