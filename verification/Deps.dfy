/** When a package satisfies a dependency, and which dependencies a set of changes leaves missing. */
module Deps {
  import opened Common
  import opened DepString
  import opened Package
  import opened PkgLists
  import Version

  // ---- one package against one dependency ----

  predicate DepVercmp(version1: Option<string>, mod: Mod, version2: Option<string>) {
    match mod
    case Any => true
    case Eq => Version.PkgVerCmp(version1, version2) == 0
    case Ge => Version.PkgVerCmp(version1, version2) >= 0
    case Le => Version.PkgVerCmp(version1, version2) <= 0
    case Lt => Version.PkgVerCmp(version1, version2) < 0
    case Gt => Version.PkgVerCmp(version1, version2) > 0
  }

  predicate DepCmpLiteral(pkg: Pkg, dep: Depend) {
    pkg.name == dep.name && DepVercmp(Some(pkg.version), dep.mod, dep.version)
  }

  predicate ProvisionMatches(provision: Depend, dep: Depend) {
    provision.name == dep.name &&
    (dep.mod == Any || (provision.mod == Eq && DepVercmp(provision.version, dep.mod, dep.version)))
  }

  predicate DepCmpProvides(dep: Depend, provisions: seq<Depend>) {
    exists i :: 0 <= i < |provisions| && ProvisionMatches(provisions[i], dep)
  }

  predicate DepCmp(pkg: Pkg, dep: Depend) {
    DepCmpLiteral(pkg, dep) || DepCmpProvides(dep, pkg.provisions)
  }

  /** `_alpm_pkg_depends_on`: some dependency of the first package is satisfied by the second. */
  predicate DependsOn(pkg1: Pkg, pkg2: Pkg) {
    exists i :: 0 <= i < |pkg1.depends| && DepCmp(pkg2, pkg1.depends[i])
  }

  predicate Satisfied(pkgs: seq<Pkg>, dep: Depend) {
    exists i :: 0 <= i < |pkgs| && DepCmp(pkgs[i], dep)
  }

  /** `find_dep_satisfier` */
  function FindSatisfier(pkgs: seq<Pkg>, dep: Depend): (r: Option<Pkg>)
    ensures r.Some? <==> Satisfied(pkgs, dep)
    ensures r.Some? ==> r.value in pkgs && DepCmp(r.value, dep)
  {
    if pkgs == [] then None
    else if DepCmp(pkgs[0], dep) then Some(pkgs[0])
    else
      assert Satisfied(pkgs, dep) <==> Satisfied(pkgs[1..], dep) by {
        if i :| 0 <= i < |pkgs| && DepCmp(pkgs[i], dep) { assert DepCmp(pkgs[1..][i-1], dep); }
      }
      FindSatisfier(pkgs[1..], dep)
  }

  /** The package at `i` satisfies the dependency, and none before it does. */
  ghost predicate FirstAt(pkgs: seq<Pkg>, dep: Depend, i: nat) {
    i < |pkgs| && DepCmp(pkgs[i], dep) && forall k :: 0 <= k < i ==> !DepCmp(pkgs[k], dep)
  }

  /** The satisfier found is the first on the list. */
  lemma {:induction false} FirstSatisfier(pkgs: seq<Pkg>, dep: Depend) returns (i: nat)
    requires Satisfied(pkgs, dep)
    ensures FirstAt(pkgs, dep, i) && FindSatisfier(pkgs, dep) == Some(pkgs[i])
  {
    hide DepCmp;
    if DepCmp(pkgs[0], dep) {
      i := 0;
    } else {
      var j :| 0 <= j < |pkgs| && DepCmp(pkgs[j], dep);
      assert pkgs[1..][j-1] == pkgs[j];
      i := FirstSatisfier(pkgs[1..], dep);
      forall k | 0 <= k < i + 1 ensures !DepCmp(pkgs[k], dep) { assert k > 0 ==> pkgs[1..][k-1] == pkgs[k]; }
      i := i + 1;
    }
  }

  // ---- alpm_checkdeps ----

  datatype Missing = Missing(target: string, depend: Depend, causing: Option<string>)

  /** What `alpm_checkdeps` is asked: the packages present, those removed and those added, whether
      to look at the packages that stay, whether versions are ignored, and what is assumed installed. */
  datatype Query = Query(pkglist: seq<Pkg>, rem: seq<Pkg>, upgrade: seq<Pkg>, reversedeps: bool,
                         nodepversion: bool, assumed: seq<Depend>)

  predicate Touched(q: Query, p: Pkg) { HasName(q.rem, p.name) || HasName(q.upgrade, p.name) }

  function Untouched(q: Query): seq<Pkg> { Keep(q.pkglist, p => !Touched(q, p)) }

  function Modified(q: Query): seq<Pkg> { Keep(q.pkglist, p => Touched(q, p)) }

  function Effective(q: Query, d: Depend): Depend { if q.nodepversion then d.(mod := Any) else d }

  /** Satisfied by an added package, by one that stays, or by an assumption. */
  predicate Met(q: Query, d: Depend) {
    Satisfied(q.upgrade, d) || Satisfied(Untouched(q), d) || DepCmpProvides(d, q.assumed)
  }

  predicate LackedByTarget(q: Query, tp: Pkg, d: Depend, m: Missing) {
    m == Missing(tp.name, Effective(q, d), None) && !Met(q, Effective(q, d))
  }

  predicate BrokenForKept(q: Query, lp: Pkg, d: Depend, m: Missing) {
    var causing := FindSatisfier(Modified(q), Effective(q, d));
    causing.Some? && !Met(q, Effective(q, d)) && m == Missing(lp.name, Effective(q, d), Some(causing.value.name))
  }

  /** The missing dependencies that the check is to report. */
  ghost predicate Reported(q: Query, m: Missing) {
    || (exists tp, d :: tp in q.upgrade && d in tp.depends && LackedByTarget(q, tp, d, m))
    || (q.reversedeps && exists lp, d :: lp in Untouched(q) && d in lp.depends && BrokenForKept(q, lp, d, m))
  }

  /** Nothing to report: every dependency of an added package is met, and so is every dependency of a
      kept package that a removed or replaced package satisfied. */
  ghost predicate Clean(q: Query) {
    && (forall tp, d :: tp in q.upgrade && d in tp.depends ==> Met(q, Effective(q, d)))
    && (q.reversedeps ==> forall lp, d :: lp in Untouched(q) && d in lp.depends && Satisfied(Modified(q), Effective(q, d)) ==>
          Met(q, Effective(q, d)))
  }

  /** What the first `n` dependencies of one package add to the report. */
  function MissingOf(q: Query, p: Pkg, n: nat, kept: bool): seq<Missing>
    requires n <= |p.depends|
  {
    if n == 0 then []
    else
      var depend := Effective(q, p.depends[n-1]);
      var causing := FindSatisfier(Modified(q), depend);
      MissingOf(q, p, n - 1, kept) +
      if (kept && causing.None?) || Met(q, depend) then []
      else [Missing(p.name, depend, if kept then Some(causing.value.name) else None)]
  }

  /** What the first `n` packages of a list add to the report. */
  function MissingAmong(q: Query, pkgs: seq<Pkg>, n: nat, kept: bool): seq<Missing>
    requires n <= |pkgs|
  {
    if n == 0 then [] else MissingAmong(q, pkgs, n - 1, kept) + MissingOf(q, pkgs[n-1], |pkgs[n-1].depends|, kept)
  }

  /** The report, in its order: the added packages, then those that stay. */
  function Report(q: Query): seq<Missing> {
    MissingAmong(q, q.upgrade, |q.upgrade|, false) +
    if q.reversedeps then MissingAmong(q, Untouched(q), |Untouched(q)|, true) else []
  }

  /** The inner loop: appends what is missing for one package. */
  method CheckPkg(q: Query, dblist: seq<Pkg>, modified: seq<Pkg>, p: Pkg, kept: bool, baddeps0: seq<Missing>)
    returns (baddeps: seq<Missing>)
    requires dblist == Untouched(q) && modified == Modified(q)
    ensures baddeps == baddeps0 + MissingOf(q, p, |p.depends|, kept)
  {
    hide DepCmp, DepCmpProvides, Satisfied, Keep, Untouched, Modified;
    baddeps := baddeps0;
    var j := 0;
    while j < |p.depends|
      invariant j <= |p.depends| && baddeps == baddeps0 + MissingOf(q, p, j, kept)
    {
      var depend := Effective(q, p.depends[j]);
      var causing := FindSatisfier(modified, depend);
      if (kept ==> causing.Some?) && FindSatisfier(q.upgrade, depend).None? && FindSatisfier(dblist, depend).None?
         && !DepCmpProvides(depend, q.assumed) {
        var miss := Missing(p.name, depend, if kept then Some(causing.value.name) else None);
        baddeps := baddeps + [miss];
      }
      j := j + 1;
    }
  }

  method CheckList(q: Query, dblist: seq<Pkg>, modified: seq<Pkg>, pkgs: seq<Pkg>, kept: bool, baddeps0: seq<Missing>)
    returns (baddeps: seq<Missing>)
    requires dblist == Untouched(q) && modified == Modified(q)
    ensures baddeps == baddeps0 + MissingAmong(q, pkgs, |pkgs|, kept)
  {
    hide Untouched, Modified, MissingOf;
    baddeps := baddeps0;
    var i := 0;
    while i < |pkgs|
      invariant i <= |pkgs| && baddeps == baddeps0 + MissingAmong(q, pkgs, i, kept)
    {
      baddeps := CheckPkg(q, dblist, modified, pkgs[i], kept, baddeps);
      i := i + 1;
    }
  }

  /** A missing dependency of one package. */
  ghost predicate MissingFor(q: Query, p: Pkg, d: Depend, kept: bool, m: Missing) {
    if kept then BrokenForKept(q, p, d, m) else LackedByTarget(q, p, d, m)
  }

  lemma {:induction false} MissingOfMembers(q: Query, p: Pkg, n: nat, kept: bool, m: Missing)
    requires n <= |p.depends|
    ensures m in MissingOf(q, p, n, kept) <==> exists j :: 0 <= j < n && MissingFor(q, p, p.depends[j], kept, m)
  {
    hide Met, Modified, FindSatisfier, Effective;
    if n > 0 {
      MissingOfMembers(q, p, n - 1, kept, m);
    }
  }

  lemma {:induction false} MissingAmongMembers(q: Query, pkgs: seq<Pkg>, n: nat, kept: bool, m: Missing)
    requires n <= |pkgs|
    ensures m in MissingAmong(q, pkgs, n, kept) <==>
            exists i :: 0 <= i < n && exists j :: 0 <= j < |pkgs[i].depends| && MissingFor(q, pkgs[i], pkgs[i].depends[j], kept, m)
  {
    hide MissingOf, MissingFor;
    if n > 0 {
      MissingAmongMembers(q, pkgs, n - 1, kept, m);
      MissingOfMembers(q, pkgs[n-1], |pkgs[n-1].depends|, kept, m);
    }
  }

  lemma MissingInList(q: Query, pkgs: seq<Pkg>, kept: bool, m: Missing)
    ensures m in MissingAmong(q, pkgs, |pkgs|, kept) <==> exists p, d :: p in pkgs && d in p.depends && MissingFor(q, p, d, kept, m)
  {
    hide MissingAmong, MissingFor;
    MissingAmongMembers(q, pkgs, |pkgs|, kept, m);
    if p, d :| p in pkgs && d in p.depends && MissingFor(q, p, d, kept, m) {
      var i :| 0 <= i < |pkgs| && pkgs[i] == p;
      var j :| 0 <= j < |p.depends| && p.depends[j] == d;
    }
  }

  /** The report holds exactly the missing dependencies. */
  lemma ReportMembers(q: Query, m: Missing)
    ensures m in Report(q) <==> Reported(q, m)
  {
    hide MissingAmong, BrokenForKept, LackedByTarget, Untouched;
    MissingInList(q, q.upgrade, false, m);
    MissingInList(q, Untouched(q), true, m);
    forall p, d
      ensures MissingFor(q, p, d, false, m) <==> LackedByTarget(q, p, d, m)
      ensures MissingFor(q, p, d, true, m) <==> BrokenForKept(q, p, d, m)
    {
    }
  }

  /** A place in the report: for a target or a package that stays, which one, and which of its dependencies. */
  datatype Slot = Slot(kept: bool, pkg: nat, dep: nat)

  ghost predicate Sooner(x: Slot, y: Slot) {
    if x.kept != y.kept then y.kept else x.pkg < y.pkg || (x.pkg == y.pkg && x.dep < y.dep)
  }

  /** The entry of the report at this place. */
  ghost predicate EntryAt(q: Query, x: Slot, m: Missing) {
    var pkgs := if x.kept then Untouched(q) else q.upgrade;
    x.pkg < |pkgs| && x.dep < |pkgs[x.pkg].depends| && MissingFor(q, pkgs[x.pkg], pkgs[x.pkg].depends[x.dep], x.kept, m)
  }

  /** The entries stand in the order of these places. */
  ghost predicate InSlots(q: Query, slots: seq<Slot>, ms: seq<Missing>) {
    && |slots| == |ms| && (forall a :: 0 <= a < |ms| ==> EntryAt(q, slots[a], ms[a]))
    && forall a, b :: 0 <= a < b < |slots| ==> Sooner(slots[a], slots[b])
  }

  lemma JoinedSlots(q: Query, slots: seq<Slot>, ms: seq<Missing>, more: seq<Slot>, rest: seq<Missing>)
    requires InSlots(q, slots, ms) && InSlots(q, more, rest)
    requires forall x, y :: x in slots && y in more ==> Sooner(x, y)
    ensures InSlots(q, slots + more, ms + rest)
  {
    hide EntryAt, Sooner;
    var all := slots + more;
    forall a, b | 0 <= a < b < |all| ensures Sooner(all[a], all[b]) {
      if a < |slots| <= b { assert slots[a] in slots && more[b-|slots|] in more; }
    }
  }

  lemma {:induction false} SlotsOfPkg(q: Query, kept: bool, i: nat, n: nat) returns (slots: seq<Slot>)
    requires var pkgs := if kept then Untouched(q) else q.upgrade; i < |pkgs| && n <= |pkgs[i].depends|
    ensures InSlots(q, slots, MissingOf(q, (if kept then Untouched(q) else q.upgrade)[i], n, kept))
    ensures forall x :: x in slots ==> x.kept == kept && x.pkg == i && x.dep < n
  {
    hide MissingOf, Untouched, EntryAt;
    if n == 0 {
      slots := [];
      NothingMissing(q, (if kept then Untouched(q) else q.upgrade)[i], kept);
    } else {
      var before := SlotsOfPkg(q, kept, i, n - 1);
      var more, last := SlotOfDep(q, kept, i, n - 1);
      JoinedSlots(q, before, MissingOf(q, (if kept then Untouched(q) else q.upgrade)[i], n - 1, kept), more, last);
      slots := before + more;
    }
  }

  lemma NothingMissing(q: Query, p: Pkg, kept: bool)
    ensures MissingOf(q, p, 0, kept) == []
  {
  }

  lemma SlotOfDep(q: Query, kept: bool, i: nat, n: nat) returns (more: seq<Slot>, last: seq<Missing>)
    requires var pkgs := if kept then Untouched(q) else q.upgrade; i < |pkgs| && n < |pkgs[i].depends|
    ensures var p := (if kept then Untouched(q) else q.upgrade)[i]; MissingOf(q, p, n + 1, kept) == MissingOf(q, p, n, kept) + last
    ensures InSlots(q, more, last) && forall x :: x in more ==> x == Slot(kept, i, n)
  {
    hide Met, Untouched, Modified, Effective, FindSatisfier;
    var p := (if kept then Untouched(q) else q.upgrade)[i];
    last := MissingOf(q, p, n + 1, kept)[|MissingOf(q, p, n, kept)|..];
    more := if last == [] then [] else [Slot(kept, i, n)];
  }

  lemma {:induction false} SlotsAmong(q: Query, kept: bool, n: nat) returns (slots: seq<Slot>)
    requires n <= |if kept then Untouched(q) else q.upgrade|
    ensures InSlots(q, slots, MissingAmong(q, if kept then Untouched(q) else q.upgrade, n, kept))
    ensures forall x :: x in slots ==> x.kept == kept && x.pkg < n
  {
    hide MissingOf, Untouched, EntryAt;
    if n == 0 {
      slots := [];
    } else {
      var pkgs := if kept then Untouched(q) else q.upgrade;
      var before := SlotsAmong(q, kept, n - 1);
      var more := SlotsOfPkg(q, kept, n - 1, |pkgs[n-1].depends|);
      JoinedSlots(q, before, MissingAmong(q, pkgs, n - 1, kept), more, MissingOf(q, pkgs[n-1], |pkgs[n-1].depends|, kept));
      slots := before + more;
    }
  }

  /** The report goes through the targets and then through the packages that stay, each in the order of its list and of its
      dependencies. */
  lemma ReportInOrder(q: Query) returns (slots: seq<Slot>)
    ensures InSlots(q, slots, Report(q))
  {
    hide MissingAmong, Untouched, EntryAt;
    slots := SlotsAmong(q, false, |q.upgrade|);
    if q.reversedeps {
      var more := SlotsAmong(q, true, |Untouched(q)|);
      JoinedSlots(q, slots, MissingAmong(q, q.upgrade, |q.upgrade|, false), more, MissingAmong(q, Untouched(q), |Untouched(q)|, true));
      slots := slots + more;
    }
  }

  /** Nothing is reported exactly when the changes are clean. */
  lemma CleanIff(q: Query)
    ensures Clean(q) <==> forall m :: !Reported(q, m)
  {
    hide Keep, DepCmp, Satisfied, DepCmpProvides, Met;
    if !Clean(q) {
      if tp, d :| tp in q.upgrade && d in tp.depends && !Met(q, Effective(q, d)) {
        assert LackedByTarget(q, tp, d, Missing(tp.name, Effective(q, d), None));
        assert Reported(q, Missing(tp.name, Effective(q, d), None));
      } else {
        var lp, d :| lp in Untouched(q) && d in lp.depends && Satisfied(Modified(q), Effective(q, d)) && !Met(q, Effective(q, d));
        var m := Missing(lp.name, Effective(q, d), Some(FindSatisfier(Modified(q), Effective(q, d)).value.name));
        assert BrokenForKept(q, lp, d, m);
        assert Reported(q, m);
      }
    }
  }

  /** The partition of the packages present into kept and changed ones. */
  method Partition(q: Query) returns (dblist: seq<Pkg>, modified: seq<Pkg>)
    ensures dblist == Untouched(q) && modified == Modified(q)
  {
    dblist, modified := [], [];
    var i := 0;
    while i < |q.pkglist|
      invariant i <= |q.pkglist|
      invariant dblist == Keep(q.pkglist[..i], p => !Touched(q, p)) && modified == Keep(q.pkglist[..i], p => Touched(q, p))
    {
      var pkg := q.pkglist[i];
      assert q.pkglist[..i+1][..i] == q.pkglist[..i];
      if FindPkg(q.rem, pkg.name).Some? || FindPkg(q.upgrade, pkg.name).Some? {
        modified := modified + [pkg];
      } else {
        dblist := dblist + [pkg];
      }
      i := i + 1;
    }
    assert q.pkglist[..|q.pkglist|] == q.pkglist;
  }

  /** `alpm_checkdeps` */
  method CheckDeps(q: Query) returns (baddeps: seq<Missing>)
    ensures baddeps == Report(q)
    ensures forall m :: m in baddeps <==> Reported(q, m)
    ensures baddeps == [] <==> Clean(q)
  {
    hide Untouched, Modified, Reported, Clean, MissingAmong;
    var dblist, modified := Partition(q);
    baddeps := CheckList(q, dblist, modified, q.upgrade, false, []);
    if q.reversedeps {
      baddeps := CheckList(q, dblist, modified, dblist, true, baddeps);
    }
    forall m ensures m in baddeps <==> Reported(q, m) { ReportMembers(q, m); }
    CleanIff(q);
    assert baddeps != [] ==> Reported(q, baddeps[0]);
  }
}
