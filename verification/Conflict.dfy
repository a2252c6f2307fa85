/** Which packages conflict: inside a list of targets, and between targets and installed packages. */
module Conflict {
  import opened DepString
  import opened Package
  import opened PkgLists
  import opened Deps
  import opened ListSpec
  import opened DepOrder

  datatype Conflict = Conflict(package1: string, package2: string, reason: Depend)

  /** The conflict entry `c` of `p` names `q`, a package of another name. */
  ghost predicate Clash(p: Pkg, c: Depend, q: Pkg) {
    c in p.conflicts && p.name != q.name && DepCmp(q, c)
  }

  ghost predicate ConflictsWith(p: Pkg, q: Pkg) { exists c :: Clash(p, c, q) }

  /** `conflict_isin`: an entry with these names, whatever its reason. */
  predicate Listed(baddeps: seq<Conflict>, package1: string, package2: string) {
    exists i :: 0 <= i < |baddeps| && baddeps[i].package1 == package1 && baddeps[i].package2 == package2
  }

  function Entry(p: Pkg, q: Pkg, reason: Depend, forward: bool): Conflict {
    if forward then Conflict(p.name, q.name, reason) else Conflict(q.name, p.name, reason)
  }

  /** An entry about a package of the first list whose conflict names one of the second. */
  ghost predicate Justified(list1: seq<Pkg>, list2: seq<Pkg>, forward: bool, x: Conflict) {
    exists p, q :: p in list1 && q in list2 && Clash(p, x.reason, q) && x == Entry(p, q, x.reason, forward)
  }

  ghost predicate PairsDistinct(baddeps: seq<Conflict>) {
    forall i, j :: 0 <= i < j < |baddeps| ==>
      baddeps[i].package1 != baddeps[j].package1 || baddeps[i].package2 != baddeps[j].package2
  }

  /** `add_conflict` */
  method AddConflict(baddeps0: seq<Conflict>, pkg1: Pkg, pkg2: Pkg, reason: Depend) returns (baddeps: seq<Conflict>)
    requires PairsDistinct(baddeps0)
    ensures PairsDistinct(baddeps) && baddeps0 <= baddeps && Listed(baddeps, pkg1.name, pkg2.name)
    ensures baddeps == baddeps0 || baddeps == baddeps0 + [Conflict(pkg1.name, pkg2.name, reason)]
  {
    baddeps := baddeps0;
    if !Listed(baddeps, pkg1.name, pkg2.name) {
      baddeps := baddeps + [Conflict(pkg1.name, pkg2.name, reason)];
      assert baddeps[|baddeps0|].package1 == pkg1.name;
    }
  }

  lemma ListedGrows(before: seq<Conflict>, after: seq<Conflict>, a: string, b: string)
    requires before <= after && Listed(before, a, b)
    ensures Listed(after, a, b)
  {
    var i :| 0 <= i < |before| && before[i].package1 == a && before[i].package2 == b;
    assert after[i] == before[i];
  }

  /** All clashes of the entry `c` of `p` with packages of `list2` are listed. */
  ghost predicate EntryCovered(baddeps: seq<Conflict>, p: Pkg, c: Depend, list2: seq<Pkg>, forward: bool) {
    forall q :: q in list2 && Clash(p, c, q) ==>
      Listed(baddeps, Entry(p, q, c, forward).package1, Entry(p, q, c, forward).package2)
  }

  ghost predicate Covered(baddeps: seq<Conflict>, p: Pkg, list2: seq<Pkg>, forward: bool) {
    forall c :: c in p.conflicts ==> EntryCovered(baddeps, p, c, list2, forward)
  }

  lemma CoveredGrows(before: seq<Conflict>, after: seq<Conflict>, p: Pkg, c: Depend, list2: seq<Pkg>, forward: bool)
    requires before <= after && EntryCovered(before, p, c, list2, forward)
    ensures EntryCovered(after, p, c, list2, forward)
  {
    hide Listed, DepCmp;
    forall q | q in list2 && Clash(p, c, q)
      ensures Listed(after, Entry(p, q, c, forward).package1, Entry(p, q, c, forward).package2)
    {
      ListedGrows(before, after, Entry(p, q, c, forward).package1, Entry(p, q, c, forward).package2);
    }
  }

  /** The innermost loop of `check_conflict`. */
  method CheckEntry(pkg1: Pkg, conflict: Depend, list1: seq<Pkg>, list2: seq<Pkg>, forward: bool, baddeps0: seq<Conflict>)
    returns (baddeps: seq<Conflict>)
    requires pkg1 in list1 && conflict in pkg1.conflicts && PairsDistinct(baddeps0)
    ensures PairsDistinct(baddeps) && baddeps0 <= baddeps && EntryCovered(baddeps, pkg1, conflict, list2, forward)
    ensures forall x :: x in baddeps ==> x in baddeps0 || Justified(list1, list2, forward, x)
  {
    hide DepCmp, PairsDistinct, Listed;
    baddeps := baddeps0;
    var k := 0;
    while k < |list2|
      invariant k <= |list2| && PairsDistinct(baddeps) && baddeps0 <= baddeps
      invariant EntryCovered(baddeps, pkg1, conflict, list2[..k], forward)
      invariant forall x :: x in baddeps ==> x in baddeps0 || Justified(list1, list2, forward, x)
    {
      var pkg2 := list2[k];
      ghost var before := baddeps;
      if pkg1.name != pkg2.name && DepCmp(pkg2, conflict) {
        assert Justified(list1, list2, forward, Entry(pkg1, pkg2, conflict, forward));
        if forward {
          baddeps := AddConflict(baddeps, pkg1, pkg2, conflict);
        } else {
          baddeps := AddConflict(baddeps, pkg2, pkg1, conflict);
        }
      }
      CoveredGrows(before, baddeps, pkg1, conflict, list2[..k], forward);
      assert list2[..k+1] == list2[..k] + [pkg2];
      k := k + 1;
    }
    assert list2[..|list2|] == list2;
  }

  /** The two inner loops. */
  method CheckPackage(pkg1: Pkg, list1: seq<Pkg>, list2: seq<Pkg>, forward: bool, baddeps0: seq<Conflict>)
    returns (baddeps: seq<Conflict>)
    requires pkg1 in list1 && PairsDistinct(baddeps0)
    ensures PairsDistinct(baddeps) && baddeps0 <= baddeps && Covered(baddeps, pkg1, list2, forward)
    ensures forall x :: x in baddeps ==> x in baddeps0 || Justified(list1, list2, forward, x)
  {
    hide DepCmp, PairsDistinct, EntryCovered, Justified;
    baddeps := baddeps0;
    var j := 0;
    while j < |pkg1.conflicts|
      invariant j <= |pkg1.conflicts| && PairsDistinct(baddeps) && baddeps0 <= baddeps
      invariant forall i :: 0 <= i < j ==> EntryCovered(baddeps, pkg1, pkg1.conflicts[i], list2, forward)
      invariant forall x :: x in baddeps ==> x in baddeps0 || Justified(list1, list2, forward, x)
    {
      ghost var before := baddeps;
      baddeps := CheckEntry(pkg1, pkg1.conflicts[j], list1, list2, forward, baddeps);
      forall i | 0 <= i < j ensures EntryCovered(baddeps, pkg1, pkg1.conflicts[i], list2, forward) {
        CoveredGrows(before, baddeps, pkg1, pkg1.conflicts[i], list2, forward);
      }
      j := j + 1;
    }
  }

  /** `check_conflict`; `forward` when the order of each pair is kept. */
  method CheckConflict(list1: seq<Pkg>, list2: seq<Pkg>, forward: bool, baddeps0: seq<Conflict>) returns (baddeps: seq<Conflict>)
    requires PairsDistinct(baddeps0)
    ensures PairsDistinct(baddeps) && baddeps0 <= baddeps
    ensures forall p :: p in list1 ==> Covered(baddeps, p, list2, forward)
    ensures forall x :: x in baddeps ==> x in baddeps0 || Justified(list1, list2, forward, x)
  {
    hide DepCmp, PairsDistinct, EntryCovered, Justified;
    baddeps := baddeps0;
    var i := 0;
    while i < |list1|
      invariant i <= |list1| && PairsDistinct(baddeps) && baddeps0 <= baddeps
      invariant forall k :: 0 <= k < i ==> Covered(baddeps, list1[k], list2, forward)
      invariant forall x :: x in baddeps ==> x in baddeps0 || Justified(list1, list2, forward, x)
    {
      ghost var before := baddeps;
      baddeps := CheckPackage(list1[i], list1, list2, forward, baddeps);
      forall k | 0 <= k < i ensures Covered(baddeps, list1[k], list2, forward) {
        forall c | c in list1[k].conflicts ensures EntryCovered(baddeps, list1[k], c, list2, forward) {
          CoveredGrows(before, baddeps, list1[k], c, list2, forward);
        }
      }
      i := i + 1;
    }
  }

  lemma CoveredListed(baddeps: seq<Conflict>, p: Pkg, list2: seq<Pkg>, forward: bool, q: Pkg)
    requires Covered(baddeps, p, list2, forward) && q in list2 && ConflictsWith(p, q)
    ensures if forward then Listed(baddeps, p.name, q.name) else Listed(baddeps, q.name, p.name)
  {
    hide DepCmp, Listed;
    var c :| Clash(p, c, q);
    assert EntryCovered(baddeps, p, c, list2, forward);
  }

  lemma JustifiedConflicts(list1: seq<Pkg>, list2: seq<Pkg>, forward: bool, x: Conflict) returns (p: Pkg, q: Pkg)
    requires Justified(list1, list2, forward, x)
    ensures p in list1 && q in list2 && Clash(p, x.reason, q)
    ensures x.package1 == (if forward then p.name else q.name) && x.package2 == (if forward then q.name else p.name)
  {
    hide DepCmp;
    p, q :| p in list1 && q in list2 && Clash(p, x.reason, q) && x == Entry(p, q, x.reason, forward);
  }

  /** The pairs listed are exactly the names of two targets the first of which conflicts with the second, the reason being an
      entry of the first. */
  ghost predicate InnerReport(packages: seq<Pkg>, baddeps: seq<Conflict>) {
    && PairsDistinct(baddeps)
    && (forall p, q :: p in packages && q in packages && ConflictsWith(p, q) ==> Listed(baddeps, p.name, q.name))
    && (forall x :: x in baddeps ==>
          exists p, q :: p in packages && q in packages && Clash(p, x.reason, q) && x.package1 == p.name && x.package2 == q.name)
  }

  /** `_alpm_innerconflicts` */
  method InnerConflicts(packages: seq<Pkg>) returns (baddeps: seq<Conflict>)
    ensures InnerReport(packages, baddeps)
  {
    hide Covered, Justified, Listed, ConflictsWith, Clash;
    baddeps := CheckConflict(packages, packages, true, []);
    forall p, q | p in packages && q in packages && ConflictsWith(p, q) ensures Listed(baddeps, p.name, q.name) {
      CoveredListed(baddeps, p, packages, true, q);
    }
    forall x | x in baddeps
      ensures exists p, q :: p in packages && q in packages && Clash(p, x.reason, q) && x.package1 == p.name && x.package2 == q.name
    {
      var p, q := JustifiedConflicts(packages, packages, true, x);
    }
  }

  ghost predicate EitherConflicts(p: Pkg, q: Pkg) { ConflictsWith(p, q) || ConflictsWith(q, p) }

  /** The entry is about `p` and `q` in this order, its reason a conflict of one that names the other. */
  ghost predicate About(x: Conflict, p: Pkg, q: Pkg) {
    x.package1 == p.name && x.package2 == q.name && (Clash(p, x.reason, q) || Clash(q, x.reason, p))
  }

  lemma AboutConflicts(x: Conflict, p: Pkg, q: Pkg)
    requires About(x, p, q)
    ensures EitherConflicts(p, q)
  {
    hide DepCmp;
  }

  /** The pairs listed are exactly the names of a target and an installed package, not replaced by a target,
      that conflict one way or the other; the target comes first. */
  ghost predicate OuterReport(local: seq<Pkg>, packages: seq<Pkg>, baddeps: seq<Conflict>) {
    && PairsDistinct(baddeps)
    && (forall p, q :: p in packages && q in local && !HasName(packages, q.name) && EitherConflicts(p, q) ==>
          Listed(baddeps, p.name, q.name))
    && (forall x :: x in baddeps ==>
          exists p, q :: p in packages && q in local && !HasName(packages, q.name) && About(x, p, q))
  }

  /** `_alpm_outerconflicts`, on the difference that `alpm_list_diff` computes. */
  method OuterConflicts(local: seq<Pkg>, packages: seq<Pkg>) returns (baddeps: seq<Conflict>)
    requires DistinctNames(local)
    ensures OuterReport(local, packages, baddeps)
  {
    hide Covered, Justified, Listed, ConflictsWith, Clash, PairsDistinct, HasName, Difference, DistinctNames;
    var dblist := Difference(local, packages, PkgCmp);
    DifferenceByName(local, packages);
    assert PairsDistinct([]) by { NoPairs(); }
    var first := CheckConflict(packages, dblist, true, []);
    baddeps := CheckConflict(dblist, packages, false, first);
    forall p, q | p in packages && q in local && !HasName(packages, q.name) && EitherConflicts(p, q)
      ensures Listed(baddeps, p.name, q.name)
    {
      if ConflictsWith(p, q) {
        CoveredListed(first, p, dblist, true, q);
        ListedGrows(first, baddeps, p.name, q.name);
      } else {
        CoveredListed(baddeps, q, packages, false, p);
      }
    }
    forall x | x in baddeps
      ensures exists p, q :: p in packages && q in local && !HasName(packages, q.name) && About(x, p, q)
    {
      if Justified(packages, dblist, true, x) {
        var p, q := JustifiedConflicts(packages, dblist, true, x);
        assert About(x, p, q);
      } else {
        var q, p := JustifiedConflicts(dblist, packages, false, x);
        assert About(x, p, q);
      }
    }
  }

  lemma NoPairs()
    ensures PairsDistinct([])
  {
  }
}
