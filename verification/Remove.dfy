/** Preparing a removal: pulling in what would break, leaving out what is needed, or refusing. */
module Remove {
  import opened Common
  import opened DepString
  import opened Package
  import opened PkgLists
  import opened Deps
  import opened RecurseDeps
  import opened Handle
  import VersionOrder

  /** The check of a pure removal: nothing is added, and the packages that stay are looked at. */
  function RemovalQuery(local: seq<Pkg>, rem: seq<Pkg>, nodepversion: bool, assumed: seq<Depend>): Query {
    Query(local, rem, [], true, nodepversion, assumed)
  }

  lemma UntouchedIs(local: seq<Pkg>, rem: seq<Pkg>, nodepversion: bool, assumed: seq<Depend>)
    ensures var q := RemovalQuery(local, rem, nodepversion, assumed);
            (forall p :: p in Untouched(q) <==> p in local && !HasName(rem, p.name)) &&
            (forall p :: p in Modified(q) <==> p in local && HasName(rem, p.name))
  {
    hide Keep;
    forall p: Pkg ensures !HasName([], p.name) {}
  }

  lemma NameIsMember(local: seq<Pkg>, rem: seq<Pkg>, p: Pkg)
    requires DistinctNames(local) && SubsetOf(rem, local) && p in local
    ensures HasName(rem, p.name) <==> p in rem
  {
    if HasName(rem, p.name) {
      var i :| 0 <= i < |rem| && rem[i].name == p.name;
      assert rem[i] in rem && rem[i] in local;
      var a :| 0 <= a < |local| && local[a] == rem[i];
      var b :| 0 <= b < |local| && local[b] == p;
      assert a == b;
    }
    if p in rem {
      var i :| 0 <= i < |rem| && rem[i] == p;
    }
  }

  lemma SatisfiedBy(pkgs: seq<Pkg>, p: Pkg, d: Depend)
    requires p in pkgs && DepCmp(p, d)
    ensures Satisfied(pkgs, d)
  {
    hide DepCmp;
    var i :| 0 <= i < |pkgs| && pkgs[i] == p;
    assert DepCmp(pkgs[i], d);
  }

  lemma SatisfierOf(pkgs: seq<Pkg>, d: Depend) returns (p: Pkg)
    requires Satisfied(pkgs, d)
    ensures p in pkgs && DepCmp(p, d)
  {
    hide DepCmp;
    var i :| 0 <= i < |pkgs| && DepCmp(pkgs[i], d);
    p := pkgs[i];
  }

  // ---- remove_prepare_cascade ----

  /** A removal that contains the first one and breaks nothing. */
  ghost predicate ClosedRemoval(local: seq<Pkg>, rem: seq<Pkg>, nodepversion: bool, assumed: seq<Depend>, all: seq<Pkg>) {
    SubsetOf(all, local) && SubsetOf(rem, all) && Clean(RemovalQuery(local, all, nodepversion, assumed))
  }

  /** A package that a removal breaks belongs to every removal that contains it and breaks nothing. */
  lemma BrokenIsForced(local: seq<Pkg>, rem: seq<Pkg>, nodepversion: bool, assumed: seq<Depend>, all: seq<Pkg>, lp: Pkg, d: Depend)
    requires DistinctNames(local) && SubsetOf(rem, local) && ClosedRemoval(local, rem, nodepversion, assumed, all)
    requires var q := RemovalQuery(local, rem, nodepversion, assumed);
             lp in Untouched(q) && d in lp.depends && Satisfied(Modified(q), Effective(q, d)) && !Met(q, Effective(q, d))
    ensures lp in all
  {
    hide DepCmp, Keep, HasName, DepCmpProvides, Satisfied;
    var q, qa := RemovalQuery(local, rem, nodepversion, assumed), RemovalQuery(local, all, nodepversion, assumed);
    var e := Effective(q, d);
    UntouchedIs(local, rem, nodepversion, assumed);
    UntouchedIs(local, all, nodepversion, assumed);
    NameIsMember(local, all, lp);
    if lp !in all {
      var c := SatisfierOf(Modified(q), e);
      NameIsMember(local, rem, c);
      NameIsMember(local, all, c);
      SatisfiedBy(Modified(qa), c, e);
      assert lp in Untouched(qa) && e == Effective(qa, d);
      assert Met(qa, e);
      NothingSatisfies(e);
      var w := SatisfierOf(Untouched(qa), e);
      NameIsMember(local, rem, w);
      NameIsMember(local, all, w);
      SatisfiedBy(Untouched(q), w, e);
    }
  }

  lemma NothingSatisfies(d: Depend)
    ensures !Satisfied([], d)
  {
  }

  /** The removal so far lies between the first one and every removal that contains it and breaks nothing. */
  ghost predicate Forced(local: seq<Pkg>, rem0: seq<Pkg>, nodepversion: bool, assumed: seq<Depend>, rem: seq<Pkg>) {
    && SubsetOf(rem, local) && DistinctNames(rem) && |rem0| <= |rem| && rem[..|rem0|] == rem0
    && (forall all :: ClosedRemoval(local, rem0, nodepversion, assumed, all) ==> SubsetOf(rem, all))
  }

  lemma ForcedIsClosed(local: seq<Pkg>, rem0: seq<Pkg>, nodepversion: bool, assumed: seq<Depend>, rem: seq<Pkg>, all: seq<Pkg>)
    requires Forced(local, rem0, nodepversion, assumed, rem) && ClosedRemoval(local, rem0, nodepversion, assumed, all)
    ensures ClosedRemoval(local, rem, nodepversion, assumed, all)
  {
    hide Clean;
  }

  /** Reported by the check of the removal `rem`. */
  ghost predicate Broken(local: seq<Pkg>, rem: seq<Pkg>, nodepversion: bool, assumed: seq<Depend>, m: Missing) {
    Reported(RemovalQuery(local, rem, nodepversion, assumed), m)
  }

  /** A report names an installed package that stays, and a removed one that satisfied it. */
  lemma BrokenNames(local: seq<Pkg>, rem: seq<Pkg>, nodepversion: bool, assumed: seq<Depend>, m: Missing) returns (lp: Pkg, d: Depend)
    requires Broken(local, rem, nodepversion, assumed, m)
    ensures var q := RemovalQuery(local, rem, nodepversion, assumed);
            lp in Untouched(q) && d in lp.depends && Satisfied(Modified(q), Effective(q, d)) && !Met(q, Effective(q, d))
    ensures m.target == lp.name && lp in local && !HasName(rem, lp.name)
    ensures m.causing.Some? && HasName(rem, m.causing.value)
  {
    hide Keep, DepCmp, HasName, Satisfied, Met;
    var q := RemovalQuery(local, rem, nodepversion, assumed);
    UntouchedIs(local, rem, nodepversion, assumed);
    lp, d :| lp in Untouched(q) && d in lp.depends && BrokenForKept(q, lp, d, m);
  }

  /** Taking in a broken package keeps the removal forced. */
  lemma ForcedGrows(local: seq<Pkg>, rem0: seq<Pkg>, nodepversion: bool, assumed: seq<Depend>, start: seq<Pkg>, rem: seq<Pkg>, m: Missing, info: Pkg)
    requires DistinctNames(local)
    requires Forced(local, rem0, nodepversion, assumed, start) && Broken(local, start, nodepversion, assumed, m)
    requires Forced(local, rem0, nodepversion, assumed, rem)
    requires info in local && info.name == m.target && !HasName(rem, info.name)
    ensures Forced(local, rem0, nodepversion, assumed, rem + [info])
  {
    hide Keep, DepCmp, Clean, Met, Satisfied;
    var lp, d := BrokenNames(local, start, nodepversion, assumed, m);
    assert lp == info by {
      var a :| 0 <= a < |local| && local[a] == lp;
      var b :| 0 <= b < |local| && local[b] == info;
      assert a == b;
    }
    forall all | ClosedRemoval(local, rem0, nodepversion, assumed, all) ensures SubsetOf(rem + [info], all) {
      ForcedIsClosed(local, rem0, nodepversion, assumed, start, all);
      BrokenIsForced(local, start, nodepversion, assumed, all, lp, d);
    }
    forall i | 0 <= i < |rem| ensures rem[i].name != info.name {}
  }

  lemma RemovalFits(local: seq<Pkg>, rem: seq<Pkg>)
    requires DistinctNames(rem) && SubsetOf(rem, local)
    ensures |rem| <= |local|
  {
    DistinctFits(rem, local);
  }

  /** One round of the cascade: pulls in every package that the reports name. */
  method PullReported(handle: AlpmHandle, trans: Trans, lp: seq<Missing>, ghost rem0: seq<Pkg>)
    requires DistinctNames(handle.dbLocal)
    requires Forced(handle.dbLocal, rem0, trans.flags.nodepversion, handle.assumeinstalled, trans.remove)
    requires forall m :: m in lp ==> Broken(handle.dbLocal, trans.remove, trans.flags.nodepversion, handle.assumeinstalled, m)
    modifies trans`remove
    ensures Forced(handle.dbLocal, rem0, trans.flags.nodepversion, handle.assumeinstalled, trans.remove)
    ensures |trans.remove| >= old(|trans.remove|) && (lp != [] ==> |trans.remove| > old(|trans.remove|))
  {
    hide Broken, DistinctNames;
    ghost var start, nodepversion, assumed := trans.remove, trans.flags.nodepversion, handle.assumeinstalled;
    var i := 0;
    while i < |lp|
      invariant i <= |lp| && Forced(handle.dbLocal, rem0, nodepversion, assumed, trans.remove)
      invariant |trans.remove| >= |start| && (i > 0 ==> |trans.remove| > |start|)
      invariant i == 0 ==> trans.remove == start
    {
      var miss := lp[i];
      ghost var p, d := BrokenNames(handle.dbLocal, start, nodepversion, assumed, miss);
      var info := FindPkg(handle.dbLocal, miss.target);
      assert HasName(handle.dbLocal, p.name) by { var k :| 0 <= k < |handle.dbLocal| && handle.dbLocal[k] == p; }
      if info.Some? {
        if FindPkg(trans.remove, info.value.name).None? {
          ForcedGrows(handle.dbLocal, rem0, nodepversion, assumed, start, trans.remove, miss, info.value);
          trans.remove := trans.remove + [info.value];
        }
      }
      i := i + 1;
    }
  }

  /** The least removal that contains `rem0` and breaks nothing. */
  ghost predicate LeastClosed(local: seq<Pkg>, rem0: seq<Pkg>, nodepversion: bool, assumed: seq<Depend>, rem: seq<Pkg>) {
    && DistinctNames(rem) && ClosedRemoval(local, rem0, nodepversion, assumed, rem)
    && forall all :: ClosedRemoval(local, rem0, nodepversion, assumed, all) ==> SubsetOf(rem, all)
  }

  lemma ForcedAndClean(local: seq<Pkg>, rem0: seq<Pkg>, nodepversion: bool, assumed: seq<Depend>, rem: seq<Pkg>)
    requires Forced(local, rem0, nodepversion, assumed, rem) && Clean(RemovalQuery(local, rem, nodepversion, assumed))
    ensures LeastClosed(local, rem0, nodepversion, assumed, rem)
  {
    hide Clean;
    forall p | p in rem0 ensures p in rem {
      var i :| 0 <= i < |rem0| && rem0[i] == p;
      assert rem[..|rem0|][i] == rem[i];
    }
  }

  lemma ForcedStart(local: seq<Pkg>, rem: seq<Pkg>, nodepversion: bool, assumed: seq<Depend>)
    requires SubsetOf(rem, local) && DistinctNames(rem)
    ensures Forced(local, rem, nodepversion, assumed, rem)
  {
    hide Clean;
    assert rem[..|rem|] == rem;
  }

  /** `remove_prepare_cascade` */
  method Cascade(handle: AlpmHandle, trans: Trans, lp0: seq<Missing>)
    requires DistinctNames(handle.dbLocal) && DistinctNames(trans.remove) && SubsetOf(trans.remove, handle.dbLocal)
    requires lp0 != []
    requires forall m :: m in lp0 <==> Broken(handle.dbLocal, trans.remove, trans.flags.nodepversion, handle.assumeinstalled, m)
    modifies trans`remove
    ensures LeastClosed(handle.dbLocal, old(trans.remove), trans.flags.nodepversion, handle.assumeinstalled, trans.remove)
    ensures |trans.remove| > old(|trans.remove|) && trans.remove[..old(|trans.remove|)] == old(trans.remove)
  {
    hide Clean, Broken, ClosedRemoval;
    var lp := lp0;
    ghost var rem0, nodepversion, assumed := trans.remove, trans.flags.nodepversion, handle.assumeinstalled;
    ForcedStart(handle.dbLocal, rem0, nodepversion, assumed);
    while lp != []
      invariant Forced(handle.dbLocal, rem0, nodepversion, assumed, trans.remove)
      invariant forall m :: m in lp ==> Broken(handle.dbLocal, trans.remove, nodepversion, assumed, m)
      invariant lp == [] ==> Clean(RemovalQuery(handle.dbLocal, trans.remove, nodepversion, assumed))
      invariant lp == [] ==> |trans.remove| > |rem0|
      decreases lp != [], |handle.dbLocal| - |trans.remove|
    {
      RemovalFits(handle.dbLocal, trans.remove);
      PullReported(handle, trans, lp, rem0);
      RemovalFits(handle.dbLocal, trans.remove);
      var q := RemovalQuery(handle.dbLocal, trans.remove, trans.flags.nodepversion, handle.assumeinstalled);
      lp := CheckDeps(q);
      BrokenIsReported(handle.dbLocal, trans.remove, nodepversion, assumed);
    }
    ForcedAndClean(handle.dbLocal, rem0, nodepversion, assumed, trans.remove);
  }

  lemma BrokenIsReported(local: seq<Pkg>, rem: seq<Pkg>, nodepversion: bool, assumed: seq<Depend>)
    ensures forall m :: Reported(RemovalQuery(local, rem, nodepversion, assumed), m) <==> Broken(local, rem, nodepversion, assumed, m)
  {
  }

  // ---- remove_prepare_keep_needed ----

  lemma RemoveByNameShrinks(s: seq<Pkg>, name: string)
    requires DistinctNames(s)
    ensures DistinctNames(RemoveByName(s, name)) && SubsetOf(RemoveByName(s, name), s)
    ensures |RemoveByName(s, name)| <= |s| && (HasName(s, name) ==> |RemoveByName(s, name)| < |s|)
  {
    RemoveByNameMembers(s, name);
    RemoveByNameSize(s, name);
  }

  lemma {:induction false} RemoveByNameSize(s: seq<Pkg>, name: string)
    ensures |RemoveByName(s, name)| <= |s| && (HasName(s, name) ==> |RemoveByName(s, name)| < |s|)
  {
    if s != [] && s[0].name != name {
      RemoveByNameSize(s[1..], name);
      if HasName(s, name) {
        var i :| 0 <= i < |s| && s[i].name == name;
        assert s[1..][i-1].name == name;
      }
    }
  }

  /** An installed package outside the removal has a dependency that `c` satisfies and that nothing else meets. */
  ghost predicate NeededOutside(local: seq<Pkg>, rem: seq<Pkg>, nodepversion: bool, assumed: seq<Depend>, c: Pkg) {
    var q := RemovalQuery(local, rem, nodepversion, assumed);
    c in rem && exists lp, d :: lp in Untouched(q) && d in lp.depends && DepCmp(c, Effective(q, d)) && !Met(q, Effective(q, d))
  }

  /** The package that a report calls the cause is needed. */
  lemma CauseIsNeeded(local: seq<Pkg>, rem: seq<Pkg>, nodepversion: bool, assumed: seq<Depend>, m: Missing, pkg: Pkg)
    requires DistinctNames(local) && SubsetOf(rem, local) && Broken(local, rem, nodepversion, assumed, m)
    requires pkg in rem && m.causing == Some(pkg.name)
    ensures NeededOutside(local, rem, nodepversion, assumed, pkg)
  {
    hide Keep, DepCmp, HasName, Satisfied, Met, DistinctNames;
    var q := RemovalQuery(local, rem, nodepversion, assumed);
    UntouchedIs(local, rem, nodepversion, assumed);
    var lp, d :| lp in Untouched(q) && d in lp.depends && BrokenForKept(q, lp, d, m);
    var c := FindSatisfier(Modified(q), Effective(q, d)).value;
    if c != pkg { DifferentNames(local, c, pkg); }
  }

  /** Each target that is no longer one was needed outside. */
  ghost predicate DroppedAsNeeded(local: seq<Pkg>, rem0: seq<Pkg>, nodepversion: bool, assumed: seq<Depend>, rem: seq<Pkg>) {
    forall c :: c in rem0 ==> c in rem || exists targs :: SubsetOf(targs, rem0) && NeededOutside(local, targs, nodepversion, assumed, c)
  }

  lemma DropsOneMore(local: seq<Pkg>, rem0: seq<Pkg>, nodepversion: bool, assumed: seq<Depend>, start: seq<Pkg>, rem: seq<Pkg>, m: Missing, pkg: Pkg)
    requires DistinctNames(local) && SubsetOf(rem0, local) && DistinctNames(rem) && SubsetOf(rem, start) && SubsetOf(start, rem0)
    requires Broken(local, start, nodepversion, assumed, m) && pkg in rem && m.causing == Some(pkg.name)
    requires DroppedAsNeeded(local, rem0, nodepversion, assumed, rem)
    ensures DroppedAsNeeded(local, rem0, nodepversion, assumed, RemoveByName(rem, pkg.name))
  {
    hide NeededOutside, DistinctNames, Broken, RemoveByName;
    CauseIsNeeded(local, start, nodepversion, assumed, m, pkg);
    RemoveByNameMembers(rem, pkg.name);
    forall c | c in rem && c != pkg ensures c in RemoveByName(rem, pkg.name) { DifferentNames(rem, c, pkg); }
  }

  /** The targets without the packages that the reports call the cause. */
  function WithoutCauses(rem: seq<Pkg>, lp: seq<Missing>): seq<Pkg> {
    if lp == [] then rem
    else
      var less, causing := WithoutCauses(rem, lp[..|lp|-1]), lp[|lp|-1].causing;
      if causing.Some? then RemoveByName(less, causing.value) else less
  }

  /** What is left when round after round takes off the causes, until nothing is reported. */
  function KeptRounds(local: seq<Pkg>, rem: seq<Pkg>, nodepversion: bool, assumed: seq<Depend>): seq<Pkg>
    decreases |rem|
  {
    var lp := Report(RemovalQuery(local, rem, nodepversion, assumed));
    if lp == [] then rem
    else
      var less := WithoutCauses(rem, lp);
      if |less| < |rem| then KeptRounds(local, less, nodepversion, assumed) else less
  }

  lemma KeptRoundsStep(local: seq<Pkg>, rem: seq<Pkg>, nodepversion: bool, assumed: seq<Depend>)
    ensures var lp := Report(RemovalQuery(local, rem, nodepversion, assumed));
            var less := WithoutCauses(rem, lp);
            && (lp == [] ==> KeptRounds(local, rem, nodepversion, assumed) == rem)
            && (lp != [] && |less| < |rem| ==> KeptRounds(local, rem, nodepversion, assumed) == KeptRounds(local, less, nodepversion, assumed))
  {
    hide Report, WithoutCauses;
  }

  lemma {:induction false} RemoveAbsent(s: seq<Pkg>, name: string)
    requires !HasName(s, name)
    ensures RemoveByName(s, name) == s
  {
    if s != [] {
      assert s[0].name != name;
      forall i | 0 <= i < |s[1..]| ensures s[1..][i].name != name { assert s[i+1].name != name; }
      RemoveAbsent(s[1..], name);
    }
  }

  /** One round: takes the packages that the reports call the cause off the targets. */
  method DropCauses(handle: AlpmHandle, trans: Trans, lp: seq<Missing>, ghost rem0: seq<Pkg>)
    requires DistinctNames(handle.dbLocal) && SubsetOf(rem0, handle.dbLocal) && DistinctNames(trans.remove) && SubsetOf(trans.remove, rem0)
    requires forall m :: m in lp ==> Broken(handle.dbLocal, trans.remove, trans.flags.nodepversion, handle.assumeinstalled, m)
    requires DroppedAsNeeded(handle.dbLocal, rem0, trans.flags.nodepversion, handle.assumeinstalled, trans.remove)
    modifies trans`remove
    ensures trans.remove == WithoutCauses(old(trans.remove), lp)
    ensures DistinctNames(trans.remove) && SubsetOf(trans.remove, old(trans.remove))
    ensures |trans.remove| <= old(|trans.remove|) && (lp != [] ==> |trans.remove| < old(|trans.remove|))
    ensures DroppedAsNeeded(handle.dbLocal, rem0, trans.flags.nodepversion, handle.assumeinstalled, trans.remove)
  {
    hide DistinctNames, HasName, Broken, DroppedAsNeeded, RemoveByName;
    var i := 0;
    while i < |lp|
      invariant i <= |lp| && trans.remove == WithoutCauses(old(trans.remove), lp[..i])
      invariant DistinctNames(trans.remove) && SubsetOf(trans.remove, old(trans.remove))
      invariant |trans.remove| <= old(|trans.remove|) && (i > 0 ==> |trans.remove| < old(|trans.remove|))
      invariant i == 0 ==> trans.remove == old(trans.remove)
      invariant DroppedAsNeeded(handle.dbLocal, rem0, trans.flags.nodepversion, handle.assumeinstalled, trans.remove)
    {
      var miss := lp[i];
      assert lp[..i+1][..i] == lp[..i];
      ghost var p, d := BrokenNames(handle.dbLocal, old(trans.remove), trans.flags.nodepversion, handle.assumeinstalled, miss);
      if miss.causing.Some? {
        var pkg := FindPkg(trans.remove, miss.causing.value);
        if pkg.Some? {
          RemoveByNameShrinks(trans.remove, pkg.value.name);
          DropsOneMore(handle.dbLocal, rem0, trans.flags.nodepversion, handle.assumeinstalled, old(trans.remove), trans.remove, miss, pkg.value);
          trans.remove := RemoveByName(trans.remove, pkg.value.name);
        } else {
          RemoveAbsent(trans.remove, miss.causing.value);
        }
      }
      i := i + 1;
    }
    assert lp[..|lp|] == lp;
  }

  /** `remove_prepare_keep_needed` */
  method KeepWhatIsNeeded(handle: AlpmHandle, trans: Trans, lp0: seq<Missing>)
    requires DistinctNames(handle.dbLocal) && DistinctNames(trans.remove) && SubsetOf(trans.remove, handle.dbLocal)
    requires lp0 != [] && lp0 == Report(RemovalQuery(handle.dbLocal, trans.remove, trans.flags.nodepversion, handle.assumeinstalled))
    modifies trans`remove
    ensures DistinctNames(trans.remove) && SubsetOf(trans.remove, old(trans.remove)) && |trans.remove| < old(|trans.remove|)
    ensures trans.remove == KeptRounds(handle.dbLocal, old(trans.remove), trans.flags.nodepversion, handle.assumeinstalled)
    ensures Clean(RemovalQuery(handle.dbLocal, trans.remove, trans.flags.nodepversion, handle.assumeinstalled))
    ensures DroppedAsNeeded(handle.dbLocal, old(trans.remove), trans.flags.nodepversion, handle.assumeinstalled, trans.remove)
  {
    hide Clean, DistinctNames, HasName, NeededOutside, Reported, Report, WithoutCauses, KeptRounds;
    var lp := lp0;
    ghost var rem0, nodepversion, assumed := trans.remove, trans.flags.nodepversion, handle.assumeinstalled;
    while lp != []
      invariant DistinctNames(trans.remove) && SubsetOf(trans.remove, rem0)
      invariant lp == Report(RemovalQuery(handle.dbLocal, trans.remove, nodepversion, assumed))
      invariant KeptRounds(handle.dbLocal, trans.remove, nodepversion, assumed) == KeptRounds(handle.dbLocal, rem0, nodepversion, assumed)
      invariant |trans.remove| <= |rem0| && (lp == [] ==> |trans.remove| < |rem0|)
      invariant lp == [] ==> Clean(RemovalQuery(handle.dbLocal, trans.remove, nodepversion, assumed))
      invariant DroppedAsNeeded(handle.dbLocal, rem0, nodepversion, assumed, trans.remove)
      decreases lp != [], |trans.remove|
    {
      KeptRoundsStep(handle.dbLocal, trans.remove, nodepversion, assumed);
      ReportIsBroken(handle.dbLocal, trans.remove, nodepversion, assumed);
      DropCauses(handle, trans, lp, rem0);
      var q := RemovalQuery(handle.dbLocal, trans.remove, trans.flags.nodepversion, handle.assumeinstalled);
      lp := CheckDeps(q);
    }
    KeptRoundsStep(handle.dbLocal, trans.remove, nodepversion, assumed);
  }

  lemma ReportIsBroken(local: seq<Pkg>, rem: seq<Pkg>, nodepversion: bool, assumed: seq<Depend>)
    ensures forall m :: m in Report(RemovalQuery(local, rem, nodepversion, assumed)) ==> Broken(local, rem, nodepversion, assumed, m)
  {
    hide Report, Reported;
    forall m ensures m in Report(RemovalQuery(local, rem, nodepversion, assumed)) <==> Broken(local, rem, nodepversion, assumed, m) {
      ReportMembers(RemovalQuery(local, rem, nodepversion, assumed), m);
    }
  }

  lemma {:induction false} WithoutCausesMembers(rem: seq<Pkg>, lp: seq<Missing>, x: Pkg)
    requires DistinctNames(rem)
    ensures DistinctNames(WithoutCauses(rem, lp))
    ensures x in WithoutCauses(rem, lp) <==> x in rem && forall m :: m in lp ==> m.causing != Some(x.name)
  {
    hide DistinctNames, RemoveByName;
    if lp != [] {
      var n := |lp| - 1;
      assert lp == lp[..n] + [lp[n]];
      WithoutCausesMembers(rem, lp[..n], x);
      if lp[n].causing.Some? { RemoveByNameMembers(WithoutCauses(rem, lp[..n]), lp[n].causing.value); }
    }
  }

  /** It need not be the largest part of the targets that breaks nothing: both targets are dropped in the first round, and
      dropping the second one alone would do. */
  lemma KeptIsNotLargest(nodepversion: bool) returns (local: seq<Pkg>, targs: seq<Pkg>, larger: seq<Pkg>)
    ensures DistinctNames(local) && SubsetOf(targs, local) && SubsetOf(larger, targs) && larger != []
    ensures Clean(RemovalQuery(local, larger, nodepversion, [])) && KeptRounds(local, targs, nodepversion, []) == []
  {
    hide Clean, KeptRounds;
    var x, y := Depend("x", Any, None, None), Depend("y", Any, None, None);
    var a := Pkg("a", "1", [], [x], [], Explicit, "a", false);
    var b := Pkg("b", "1", [], [x, y], [], Explicit, "b", false);
    var u := Pkg("u", "1", [x], [], [], Explicit, "u", false);
    var v := Pkg("v", "1", [y], [], [], Explicit, "v", false);
    local, targs, larger := [a, b, u, v], [a, b], [a];
    assert "a"[0] == 'a' && "b"[0] == 'b' && "u"[0] == 'u' && "v"[0] == 'v' && "x"[0] == 'x' && "y"[0] == 'y';
    assert [x][0] == x && [x, y][0] == x && [x, y][1] == y;
    assert ProvisionMatches(a.provisions[0], x) && ProvisionMatches(b.provisions[0], x) && ProvisionMatches(b.provisions[1], y);
    FirstRoundDropsBoth(a, b, u, v, x, y, nodepversion);
    SecondAlone(a, b, u, v, x, y, nodepversion);
  }

  lemma EmptyOrNot<T>(s: seq<T>)
    ensures s == [] || exists x :: x in s
  {
    if s != [] { assert s[0] in s; }
  }

  lemma FourNames(a: Pkg, b: Pkg, u: Pkg, v: Pkg)
    requires a.name != b.name && a.name != u.name && a.name != v.name && b.name != u.name && b.name != v.name && u.name != v.name
    ensures DistinctNames([a, b, u, v]) && DistinctNames([a, b])
    ensures forall name :: (HasName([a, b], name) <==> name == a.name || name == b.name) && (HasName([a], name) <==> name == a.name)
  {
    forall name ensures (HasName([a, b], name) <==> name == a.name || name == b.name) && (HasName([a], name) <==> name == a.name) {
      assert [a, b][0] == a && [a, b][1] == b && [a][0] == a;
    }
  }

  lemma FirstRoundDropsBoth(a: Pkg, b: Pkg, u: Pkg, v: Pkg, x: Depend, y: Depend, nodepversion: bool)
    requires a.name != b.name && a.name != u.name && a.name != v.name && b.name != u.name && b.name != v.name && u.name != v.name
    requires x.mod == y.mod == Any && u.depends == [x] && v.depends == [y]
    requires DepCmp(a, x) && DepCmp(b, y) && !DepCmp(a, y)
    requires !DepCmp(u, x) && !DepCmp(v, x) && !DepCmp(u, y) && !DepCmp(v, y)
    ensures KeptRounds([a, b, u, v], [a, b], nodepversion, []) == []
  {
    hide DepCmp, HasName, DistinctNames, Report, Reported, WithoutCauses, Keep, KeptRounds;
    var local, rem := [a, b, u, v], [a, b];
    var q := RemovalQuery(local, rem, nodepversion, []);
    var lp := Report(q);
    FourNames(a, b, u, v);
    UntouchedIs(local, rem, nodepversion, []);
    assert a in local && b in local && u in local && v in local;
    KeepsFirstTwo(a, b, u, v, p => Touched(q, p));
    assert Modified(q) == [a, b] by { NoName(a.name); NoName(b.name); NoName(u.name); NoName(v.name); }
    FirstOfTwo(a, b, x, y);
    var m, n := Missing(u.name, x, Some(a.name)), Missing(v.name, y, Some(b.name));
    NoneSatisfies(q, x);
    NoneSatisfies(q, y);
    assert u.depends[0] == x && v.depends[0] == y;
    assert BrokenForKept(q, u, x, m) && BrokenForKept(q, v, y, n);
    assert Reported(q, m) by { ReportedKept(q, u, x, m); }
    assert Reported(q, n) by { ReportedKept(q, v, y, n); }
    ReportMembers(q, m);
    ReportMembers(q, n);
    forall p ensures p !in WithoutCauses(rem, lp) { WithoutCausesMembers(rem, lp, p); }
    EmptyOrNot(WithoutCauses(rem, lp));
    KeptRoundsStep(local, rem, nodepversion, []);
    NothingRemoved(local, nodepversion);
    KeptRoundsStep(local, [], nodepversion, []);
  }

  lemma ReportedKept(q: Query, lp: Pkg, d: Depend, m: Missing)
    requires q.reversedeps && lp in Untouched(q) && d in lp.depends && BrokenForKept(q, lp, d, m)
    ensures Reported(q, m)
  {
    hide BrokenForKept, Untouched;
  }

  lemma KeepsFirstTwo(a: Pkg, b: Pkg, u: Pkg, v: Pkg, p: Pkg -> bool)
    requires p(a) && p(b) && !p(u) && !p(v)
    ensures Keep([a, b, u, v], p) == [a, b]
  {
    hide Keep;
    KeepsTwo(a, b, p);
    KeepNext([a, b], u, p);
    KeepNext([a, b] + [u], v, p);
    assert [a, b, u, v] == ([a, b] + [u]) + [v];
  }

  lemma KeepsTwo(a: Pkg, b: Pkg, p: Pkg -> bool)
    requires p(a) && p(b)
    ensures Keep([a, b], p) == [a, b]
  {
    hide Keep;
    KeepNone(p);
    KeepNext([], a, p);
    KeepNext([] + [a], b, p);
    assert [a, b] == ([] + [a]) + [b];
  }

  lemma FirstOfTwo(a: Pkg, b: Pkg, x: Depend, y: Depend)
    requires DepCmp(a, x) && !DepCmp(a, y) && DepCmp(b, y)
    ensures FindSatisfier([a, b], x) == Some(a) && FindSatisfier([a, b], y) == Some(b)
  {
    hide DepCmp, Satisfied;
    assert [a, b][1..] == [b];
  }

  /** A dependency that no package that stays satisfies is not met by a removal without assumptions. */
  lemma NoneSatisfies(q: Query, d: Depend)
    requires q.upgrade == [] && q.assumed == [] && forall p :: p in Untouched(q) ==> !DepCmp(p, d)
    ensures !Met(q, d)
  {
    hide DepCmp, Untouched;
  }

  lemma NothingRemoved(local: seq<Pkg>, nodepversion: bool)
    ensures Report(RemovalQuery(local, [], nodepversion, [])) == []
  {
    hide Report, Reported, Keep;
    var q := RemovalQuery(local, [], nodepversion, []);
    UntouchedIs(local, [], nodepversion, []);
    forall p ensures p !in Modified(q) { NoName(p.name); }
    var lp := Report(q);
    forall m ensures m !in lp {
      NothingModified(q, m);
      ReportMembers(q, m);
    }
    EmptyOrNot(lp);
  }

  lemma NothingModified(q: Query, m: Missing)
    requires q.upgrade == [] && forall p :: p !in Modified(q)
    ensures !Reported(q, m)
  {
    hide Modified, Untouched, Met, DepCmp;
  }

  lemma SecondAlone(a: Pkg, b: Pkg, u: Pkg, v: Pkg, x: Depend, y: Depend, nodepversion: bool)
    requires a.name != b.name && a.name != u.name && a.name != v.name && b.name != u.name && b.name != v.name && u.name != v.name
    requires x.mod == y.mod == Any && u.depends == [x] && v.depends == [y] && b.depends == []
    requires DepCmp(b, x) && DepCmp(b, y)
    ensures DistinctNames([a, b, u, v]) && Clean(RemovalQuery([a, b, u, v], [a], nodepversion, []))
  {
    hide DepCmp, HasName, DistinctNames, Keep;
    var local := [a, b, u, v];
    var q := RemovalQuery(local, [a], nodepversion, []);
    FourNames(a, b, u, v);
    UntouchedIs(local, [a], nodepversion, []);
    assert b in Untouched(q) by { assert b == local[1]; }
    SatisfiedBy(Untouched(q), b, x);
    SatisfiedBy(Untouched(q), b, y);
    forall lp, d | lp in Untouched(q) && d in lp.depends ensures Met(q, Effective(q, d)) {
      assert d == x || d == y;
    }
  }


  // ---- what recursing does to the check ----

  lemma FindSatisfierSnoc(s: seq<Pkg>, x: Pkg, d: Depend)
    ensures FindSatisfier(s + [x], d) ==
            if FindSatisfier(s, d).Some? then FindSatisfier(s, d) else if DepCmp(x, d) then Some(x) else None
    decreases |s|
  {
    hide DepCmp, Satisfied;
    if s == [] {
      assert [] + [x] == [x] && [x][1..] == [];
      NothingSatisfies(d);
    } else {
      assert (s + [x])[1..] == s[1..] + [x];
      FindSatisfierSnoc(s[1..], x, d);
    }
  }

  /** Filters that agree on the satisfiers of a dependency find the same first one. */
  lemma {:induction false} SameFirstSatisfier(s: seq<Pkg>, p: Pkg -> bool, q: Pkg -> bool, d: Depend)
    requires forall x :: x in s && DepCmp(x, d) ==> (p(x) <==> q(x))
    ensures FindSatisfier(Keep(s, p), d) == FindSatisfier(Keep(s, q), d)
  {
    hide DepCmp, Satisfied, FindSatisfier;
    if s != [] {
      var rest, x := s[..|s|-1], s[|s|-1];
      SameFirstSatisfier(rest, p, q, d);
      FindSatisfierSnoc(Keep(rest, p), x, d);
      FindSatisfierSnoc(Keep(rest, q), x, d);
    }
  }

  lemma HasNameEither(s: seq<Pkg>, t: seq<Pkg>, name: string)
    ensures HasName(s + t, name) <==> HasName(s, name) || HasName(t, name)
  {
    if i :| 0 <= i < |s| && s[i].name == name { assert (s + t)[i].name == name; }
    if i :| 0 <= i < |t| && t[i].name == name { assert (s + t)[|s|+i].name == name; }
  }

  /** What satisfies a staying package's dependency was not added by recursing. */
  lemma RecursedNotNeeded(local: seq<Pkg>, targs: seq<Pkg>, includeExplicit: bool, rem: seq<Pkg>, lp: Pkg, d: Depend, x: Pkg)
    requires DistinctNames(local) && GreatestRemovable(local, targs, includeExplicit, rem) && SubsetOf(rem, local)
    requires InPool(local, targs, lp) && !HasName(rem, lp.name) && d in lp.depends && x in local && DepCmp(x, d)
    ensures HasName(targs + rem, x.name) <==> HasName(targs, x.name)
  {
    hide DepCmp, Candidate;
    HasNameEither(targs, rem, x.name);
    NameIsMember(local, rem, x);
    NameIsMember(local, rem, lp);
    var j :| 0 <= j < |lp.depends| && lp.depends[j] == d;
    assert DependsOn(lp, x);
    var s := iset q | q in rem;
    assert lp !in s && (x in s ==> !DependsOn(lp, x));
  }

  /** Versions do not matter: a package that recursing may add satisfies a dependency of a package that is not a target
      if it does by name. */
  ghost predicate VersionsAgree(local: seq<Pkg>, targs: seq<Pkg>, includeExplicit: bool) {
    forall x, u, d :: Candidate(local, targs, includeExplicit, x) && InPool(local, targs, u) && d in u.depends && DepCmp(x, d.(mod := Any)) ==>
      DepCmp(x, d)
  }

  /** Recursing leaves nothing missing that the targets alone did not, with NODEPVERSION if versions do not matter. */
  lemma RecurseAddsNoMissing(local: seq<Pkg>, targs: seq<Pkg>, includeExplicit: bool, rem: seq<Pkg>, nodepversion: bool,
                             assumed: seq<Depend>, m: Missing)
    requires DistinctNames(local) && GreatestRemovable(local, targs, includeExplicit, rem) && SubsetOf(rem, local)
    requires nodepversion ==> VersionsAgree(local, targs, includeExplicit)
    requires Reported(RemovalQuery(local, targs + rem, nodepversion, assumed), m)
    ensures Reported(RemovalQuery(local, targs, nodepversion, assumed), m)
  {
    hide DepCmp, Keep, HasName, Satisfied, GreatestRemovable, FindSatisfier, DepCmpProvides, Met, VersionsAgree;
    var q, qr := RemovalQuery(local, targs, nodepversion, assumed), RemovalQuery(local, targs + rem, nodepversion, assumed);
    UntouchedIs(local, targs, nodepversion, assumed);
    UntouchedIs(local, targs + rem, nodepversion, assumed);
    var lp, d :| lp in Untouched(qr) && d in lp.depends && BrokenForKept(qr, lp, d, m);
    var e := Effective(q, d);
    HasNameEither(targs, rem, lp.name);
    forall x | x in local && DepCmp(x, e) ensures Touched(q, x) <==> Touched(qr, x) {
      EffectivelyNotNeeded(local, targs, includeExplicit, rem, q, lp, d, x);
      NoName(x.name);
    }
    SameFirstSatisfier(local, x => Touched(q, x), x => Touched(qr, x), e);
    if Satisfied(Untouched(q), e) {
      var w := SatisfierOf(Untouched(q), e);
      EffectivelyNotNeeded(local, targs, includeExplicit, rem, q, lp, d, w);
      SatisfiedBy(Untouched(qr), w, e);
    }
    assert Met(q, e) ==> Met(qr, e) by { MetOtherwise(q, qr, e); }
    assert BrokenForKept(q, lp, d, m);
    assert lp in Untouched(q);
  }

  /** Nor was what the check takes for a satisfier. */
  lemma EffectivelyNotNeeded(local: seq<Pkg>, targs: seq<Pkg>, includeExplicit: bool, rem: seq<Pkg>, q: Query, lp: Pkg, d: Depend, x: Pkg)
    requires DistinctNames(local) && GreatestRemovable(local, targs, includeExplicit, rem) && SubsetOf(rem, local)
    requires q.nodepversion ==> VersionsAgree(local, targs, includeExplicit)
    requires InPool(local, targs, lp) && !HasName(rem, lp.name) && d in lp.depends && x in local && DepCmp(x, Effective(q, d))
    ensures HasName(targs + rem, x.name) <==> HasName(targs, x.name)
  {
    hide DepCmp, Candidate, InPool, HasName, DistinctNames;
    if x in rem {
      var s := iset p | p in rem;
      assert x in s && Candidate(local, targs, includeExplicit, x);
      RecursedNotNeeded(local, targs, includeExplicit, rem, lp, d, x);
    } else {
      HasNameEither(targs, rem, x.name);
      NameIsMember(local, rem, x);
    }
  }

  lemma MetOtherwise(q: Query, qr: Query, e: Depend)
    requires q.upgrade == qr.upgrade && q.assumed == qr.assumed && (Satisfied(Untouched(q), e) ==> Satisfied(Untouched(qr), e))
    ensures Met(q, e) ==> Met(qr, e)
  {
    hide Satisfied, DepCmpProvides;
  }

  lemma RecurseKeepsClean(local: seq<Pkg>, targs: seq<Pkg>, includeExplicit: bool, rem: seq<Pkg>, nodepversion: bool, assumed: seq<Depend>)
    requires DistinctNames(local) && GreatestRemovable(local, targs, includeExplicit, rem) && SubsetOf(rem, local)
    requires (nodepversion ==> VersionsAgree(local, targs, includeExplicit)) && Clean(RemovalQuery(local, targs, nodepversion, assumed))
    ensures Clean(RemovalQuery(local, targs + rem, nodepversion, assumed))
  {
    hide Clean, Reported, GreatestRemovable, VersionsAgree;
    CleanIff(RemovalQuery(local, targs, nodepversion, assumed));
    CleanIff(RemovalQuery(local, targs + rem, nodepversion, assumed));
    forall m ensures !Reported(RemovalQuery(local, targs + rem, nodepversion, assumed), m) {
      if Reported(RemovalQuery(local, targs + rem, nodepversion, assumed), m) {
        RecurseAddsNoMissing(local, targs, includeExplicit, rem, nodepversion, assumed, m);
      }
    }
  }

  /** Where versions matter, with NODEPVERSION it can: a package whose versioned dependency is not satisfied does not hold back what it
      names, but the check that ignores versions then misses it. */
  lemma RecursingBreaksWithoutVersions() returns (local: seq<Pkg>, targs: seq<Pkg>, rem: seq<Pkg>)
    ensures DistinctNames(local) && SubsetOf(targs + rem, local) && GreatestRemovable(local, targs, false, rem)
    ensures Clean(RemovalQuery(local, targs, true, [])) && !Clean(RemovalQuery(local, targs + rem, true, []))
  {
    hide Clean, GreatestRemovable, DepCmpLiteral;
    var unversioned, versioned := Depend("b", Any, None, None), Depend("b", Lt, Some("1"), None);
    var t := Pkg("t", "1", [unversioned], [], [], Explicit, "t", false);
    var b := Pkg("b", "1", [], [], [], AsDependency, "b", false);
    var s := Pkg("s", "1", [versioned], [], [], Explicit, "s", false);
    local, targs, rem := [t, b, s], [t], [b];
    assert t.name == "t" && b.name == "b" && s.name == "s" && "t"[0] == 't' && "b"[0] == 'b' && "s"[0] == 's';
    NotBelowItself(b, versioned);
    ThreeNames(t, b, s);
    ExampleGreatest(t, b, s, unversioned, versioned);
    ExampleChecks(t, b, s, versioned);
  }

  lemma NotBelowItself(p: Pkg, d: Depend)
    requires d.mod == Lt && d.version == Some(p.version)
    ensures !DepCmpLiteral(p, d)
  {
    VersionOrder.VerCmpAntisymmetric(Some(p.version), Some(p.version));
  }

  lemma ThreeNames(t: Pkg, b: Pkg, s: Pkg)
    requires t.name != b.name && t.name != s.name && b.name != s.name
    ensures DistinctNames([t, b, s]) && SubsetOf([t] + [b], [t, b, s])
    ensures forall name :: (HasName([t], name) <==> name == t.name) && (HasName([t] + [b], name) <==> name == t.name || name == b.name)
  {
    forall name ensures (HasName([t], name) <==> name == t.name) && (HasName([t] + [b], name) <==> name == t.name || name == b.name) {
      assert [t][0].name == t.name && ([t] + [b])[0].name == t.name && ([t] + [b])[1].name == b.name;
    }
  }

  lemma ExampleGreatest(t: Pkg, b: Pkg, s: Pkg, unversioned: Depend, versioned: Depend)
    requires t.name != b.name && t.name != s.name && b.name != s.name && b.reason == AsDependency
    requires t.depends == [unversioned] && b.depends == [] && s.depends == [versioned]
    requires t.provisions == b.provisions == s.provisions == []
    requires unversioned.name == b.name && unversioned.mod == Any && versioned.name == b.name && !DepCmpLiteral(b, versioned)
    ensures GreatestRemovable([t, b, s], [t], false, [b])
  {
    hide DepVercmp, HasName;
    var local := [t, b, s];
    ThreeNames(t, b, s);
    assert DepCmpLiteral(b, unversioned) by { assert DepVercmp(Some(b.version), Any, unversioned.version) by { AnyVersion(b, unversioned); } }
    assert DependsOn(t, b) by { assert DepCmp(b, t.depends[0]); }
    assert forall x :: x in local ==> !DependsOn(x, s) && !DependsOn(s, x);
    var path := [t, b];
    assert Chain(local, [t], false, path) && Candidate(local, [t], false, b);
    forall set': iset<Pkg>, q | Removable(local, [t], false, set') && q in set' ensures q in [b] {
      assert Candidate(local, [t], false, q);
      var p :| Chain(local, [t], false, p) && p[|p|-1] == q;
      assert DependsOn(p[|p|-2], p[|p|-2+1]) && p[|p|-2] in local && q in local;
    }
  }

  lemma AnyVersion(p: Pkg, d: Depend)
    requires d.mod == Any
    ensures DepVercmp(Some(p.version), d.mod, d.version)
  {
  }

  lemma ExampleChecks(t: Pkg, b: Pkg, s: Pkg, versioned: Depend)
    requires t.name != b.name && t.name != s.name && b.name != s.name
    requires b.depends == [] && s.depends == [versioned] && t.provisions == b.provisions == s.provisions == []
    requires versioned.name == b.name
    ensures Clean(RemovalQuery([t, b, s], [t], true, [])) && !Clean(RemovalQuery([t, b, s], [t] + [b], true, []))
  {
    hide DepVercmp, HasName, Keep;
    var local, e := [t, b, s], versioned.(mod := Any);
    var q, qr := RemovalQuery(local, [t], true, []), RemovalQuery(local, [t] + [b], true, []);
    ThreeNames(t, b, s);
    UntouchedIs(local, [t], true, []);
    UntouchedIs(local, [t] + [b], true, []);
    AnyVersion(b, e);
    assert b in local && s in local && t in local && DepCmp(b, e) && !DepCmp(t, e) && !DepCmp(s, e);
    forall x | x in Modified(q) ensures x == t {}
    assert !Satisfied(Modified(q), e);
    forall x | x in Untouched(qr) ensures x == s {}
    assert !Satisfied(Untouched(qr), e) && !Satisfied([], e);
    SatisfiedBy(Modified(qr), b, e);
    assert s in Untouched(qr) && versioned in s.depends && Effective(qr, versioned) == e && !Met(qr, e);
  }

  // ---- _alpm_remove_prepare ----

  lemma ExtendedTargets(local: seq<Pkg>, targs: seq<Pkg>, rem: seq<Pkg>)
    requires DistinctNames(local) && DistinctNames(targs) && SubsetOf(targs, local)
    requires Distinct(rem) && forall q :: q in rem ==> InPool(local, targs, q)
    ensures DistinctNames(targs + rem) && SubsetOf(targs + rem, local) && SubsetOf(rem, local)
  {
    hide HasName;
    forall q | q in rem ensures q in local {}
    var all := targs + rem;
    forall i, j | 0 <= i < j < |all| ensures all[i].name != all[j].name {
      if i < |targs| <= j {
        assert all[j] in rem;
        NotNamed(targs, i, all[j].name);
      } else if |targs| <= i {
        assert all[i] == rem[i-|targs|] && all[j] == rem[j-|targs|];
        DifferentNames(local, all[i], all[j]);
      }
    }
  }

  lemma NotNamed(s: seq<Pkg>, i: nat, name: string)
    requires i < |s| && !HasName(s, name)
    ensures s[i].name != name
  {
  }

  lemma DifferentNames(local: seq<Pkg>, x: Pkg, y: Pkg)
    requires DistinctNames(local) && x in local && y in local && x != y
    ensures x.name != y.name
  {
    var a :| 0 <= a < |local| && local[a] == x;
    var b :| 0 <= b < |local| && local[b] == y;
  }

  /** What the dependency check leaves of the targets `base`: themselves if nothing breaks, else the
      least closed removal, or a part that breaks nothing, or a refusal. */
  ghost predicate Checked(local: seq<Pkg>, flags: Flags, assumed: seq<Depend>, base: seq<Pkg>, mid: seq<Pkg>, refused: bool) {
    var clean := Clean(RemovalQuery(local, base, flags.nodepversion, assumed));
    if flags.nodeps || clean then mid == base && !refused
    else if flags.cascade then !refused && LeastClosed(local, base, flags.nodepversion, assumed, mid)
    else if flags.unneeded then
      !refused && SubsetOf(mid, base) && Clean(RemovalQuery(local, mid, flags.nodepversion, assumed)) &&
      DroppedAsNeeded(local, base, flags.nodepversion, assumed, mid) && mid == KeptRounds(local, base, flags.nodepversion, assumed)
    else refused && mid == base
  }

  /** `targs`, extended by the greatest removable set when `recurse` is set. */
  ghost predicate Recursed(local: seq<Pkg>, flags: Flags, recurse: bool, targs: seq<Pkg>, result: seq<Pkg>) {
    if recurse then exists rem :: result == targs + rem && SubsetOf(rem, local) && GreatestRemovable(local, targs, flags.recurseall, rem)
    else result == targs
  }

  lemma RecursedGrows(local: seq<Pkg>, flags: Flags, recurse: bool, targs: seq<Pkg>, result: seq<Pkg>)
    requires Recursed(local, flags, recurse, targs, result)
    ensures targs <= result && (!recurse ==> result == targs) && (SubsetOf(targs, local) ==> SubsetOf(result, local))
  {
    hide GreatestRemovable;
  }

  /** Only `recurseall` lets recursing add a package that was installed explicitly. */
  lemma AddsNoExplicit(local: seq<Pkg>, flags: Flags, recurse: bool, targs: seq<Pkg>, result: seq<Pkg>)
    requires Recursed(local, flags, recurse, targs, result) && !flags.recurseall
    ensures forall q :: q in result ==> q in targs || q.reason == AsDependency
  {
    hide GreatestRemovable;
    if recurse {
      var rem :| result == targs + rem && GreatestRemovable(local, targs, flags.recurseall, rem);
      forall q | q in rem ensures q.reason == AsDependency { AddedReason(local, targs, flags.recurseall, rem, q); }
    }
  }

  lemma AddedReason(local: seq<Pkg>, targs: seq<Pkg>, includeExplicit: bool, rem: seq<Pkg>, q: Pkg)
    requires GreatestRemovable(local, targs, includeExplicit, rem) && !includeExplicit && q in rem
    ensures q.reason == AsDependency
  {
    hide DependsOn, HasName;
    var s := iset x | x in rem;
    assert Removable(local, targs, includeExplicit, s) && q in s;
    var path :| Chain(local, targs, includeExplicit, path) && path[|path|-1] == q;
    assert Selectable(path[|path|-1], includeExplicit);
  }

  /** No package that a removed one depends on is left without another that depends on it, unless it was installed
      explicitly and such packages are to stay. */
  ghost predicate NoOrphans(local: seq<Pkg>, removed: seq<Pkg>, includeExplicit: bool) {
    forall p, q :: p in removed && q in local && q !in removed && DependsOn(p, q) && (includeExplicit || q.reason == AsDependency) ==>
      exists u :: u in local && u !in removed && u != q && DependsOn(u, q)
  }

  lemma {:induction false} RecursingLeavesNoOrphans(local: seq<Pkg>, flags: Flags, targs: seq<Pkg>, result: seq<Pkg>)
    requires Recursed(local, flags, true, targs, result) && DistinctNames(local) && SubsetOf(targs, local)
    ensures NoOrphans(local, result, flags.recurseall)
  {
    hide DependsOn, HasName, DistinctNames, GreatestRemovable;
    var rem :| result == targs + rem && SubsetOf(rem, local) && GreatestRemovable(local, targs, flags.recurseall, rem);
    forall p, q | p in result && q in local && q !in result && DependsOn(p, q) && (flags.recurseall || q.reason == AsDependency)
      ensures exists u :: u in local && u !in result && u != q && DependsOn(u, q)
    {
      if forall u :: u in local && u !in result && u != q ==> !DependsOn(u, q) {
        OrphanIsRemovable(local, targs, flags.recurseall, rem, p, q);
      }
    }
  }

  /** A package that only removed ones depend on would have been added. */
  lemma OrphanIsRemovable(local: seq<Pkg>, targs: seq<Pkg>, includeExplicit: bool, rem: seq<Pkg>, p: Pkg, q: Pkg)
    requires DistinctNames(local) && SubsetOf(targs, local) && GreatestRemovable(local, targs, includeExplicit, rem)
    requires p in targs + rem && q in local && q !in targs && DependsOn(p, q) && (includeExplicit || q.reason == AsDependency)
    requires forall u :: u in local && u !in targs + rem && u != q ==> !DependsOn(u, q)
    ensures q in rem
  {
    hide DependsOn, HasName, DistinctNames, Candidate;
    var s := iset x | x in rem || x == q;
    OutsideTargets(local, targs, q);
    NextCandidate(local, targs, includeExplicit, rem, p, q);
    forall u, x | InPool(local, targs, u) && u !in s && x in s ensures !DependsOn(u, x) {
      TargetIsNamed(targs, u);
    }
    assert Removable(local, targs, includeExplicit, s) && q in s;
  }

  lemma OutsideTargets(local: seq<Pkg>, targs: seq<Pkg>, q: Pkg)
    requires DistinctNames(local) && SubsetOf(targs, local) && q in local && q !in targs
    ensures InPool(local, targs, q)
  {
    hide DistinctNames;
    if HasName(targs, q.name) {
      var i :| 0 <= i < |targs| && targs[i].name == q.name;
      assert targs[i] in targs;
      DifferentNames(local, targs[i], q);
    }
  }

  lemma TargetIsNamed(targs: seq<Pkg>, u: Pkg)
    requires !HasName(targs, u.name)
    ensures u !in targs
  {
  }

  lemma NextCandidate(local: seq<Pkg>, targs: seq<Pkg>, includeExplicit: bool, rem: seq<Pkg>, p: Pkg, q: Pkg)
    requires p in targs + rem && DependsOn(p, q) && InPool(local, targs, q) && (includeExplicit || q.reason == AsDependency)
    requires Removable(local, targs, includeExplicit, iset x | x in rem)
    ensures Candidate(local, targs, includeExplicit, q)
  {
    hide DependsOn, HasName, InPool;
    if p in targs {
      var path := [p, q];
      assert Chain(local, targs, includeExplicit, path);
    } else {
      assert Candidate(local, targs, includeExplicit, p);
      var path :| Chain(local, targs, includeExplicit, path) && path[|path|-1] == p;
      assert Chain(local, targs, includeExplicit, path + [q]);
    }
  }

  method RecurseTargets(handle: AlpmHandle, trans: Trans)
    requires DistinctNames(handle.dbLocal) && DistinctNames(trans.remove) && SubsetOf(trans.remove, handle.dbLocal)
    modifies trans`remove
    ensures DistinctNames(trans.remove) && SubsetOf(trans.remove, handle.dbLocal)
    ensures Recursed(handle.dbLocal, trans.flags, true, old(trans.remove), trans.remove)
  {
    hide GreatestRemovable, HasName;
    var targs := RecurseDeps.RecurseDeps(handle.dbLocal, trans.remove, trans.flags.recurseall);
    ghost var rem := targs[|trans.remove|..];
    assert targs == trans.remove + rem;
    ExtendedTargets(handle.dbLocal, trans.remove, rem);
    trans.remove := targs;
  }

  method CheckRemoval(handle: AlpmHandle, trans: Trans) returns (ret: int, data: seq<Missing>)
    requires DistinctNames(handle.dbLocal) && DistinctNames(trans.remove) && SubsetOf(trans.remove, handle.dbLocal)
    requires !trans.flags.nodeps
    modifies trans`remove
    ensures DistinctNames(trans.remove) && SubsetOf(trans.remove, handle.dbLocal) && (ret == 0 || ret == -1)
    ensures Checked(handle.dbLocal, trans.flags, handle.assumeinstalled, old(trans.remove), trans.remove, ret == -1)
    ensures data == if ret == -1 then Report(RemovalQuery(handle.dbLocal, trans.remove, trans.flags.nodepversion, handle.assumeinstalled)) else []
  {
    hide Clean, Reported, Report, DroppedAsNeeded, KeptRounds;
    data := [];
    var lp := CheckDeps(RemovalQuery(handle.dbLocal, trans.remove, trans.flags.nodepversion, handle.assumeinstalled));
    if lp != [] {
      if trans.flags.cascade {
        Cascade(handle, trans, lp);
      } else if trans.flags.unneeded {
        KeepWhatIsNeeded(handle, trans, lp);
      } else {
        return -1, lp;
      }
    }
    ret := 0;
  }

  /** `_alpm_remove_prepare`; `base` and `mid` are the targets before and after the dependency check. */
  method RemovePrepare(handle: AlpmHandle, trans: Trans) returns (ret: int, data: seq<Missing>, ghost base: seq<Pkg>, ghost mid: seq<Pkg>)
    requires DistinctNames(handle.dbLocal) && DistinctNames(trans.remove) && SubsetOf(trans.remove, handle.dbLocal)
    modifies trans`remove
    ensures DistinctNames(trans.remove) && SubsetOf(trans.remove, handle.dbLocal) && (ret == 0 || ret == -1)
    ensures Recursed(handle.dbLocal, trans.flags, trans.flags.recurse && !trans.flags.cascade, old(trans.remove), base)
    ensures Checked(handle.dbLocal, trans.flags, handle.assumeinstalled, base, mid, ret == -1)
    ensures if ret == -1 then trans.remove == mid
            else Recursed(handle.dbLocal, trans.flags, trans.flags.recurse && trans.flags.cascade, mid, trans.remove)
    ensures data == if ret == -1 then Report(RemovalQuery(handle.dbLocal, mid, trans.flags.nodepversion, handle.assumeinstalled)) else []
  {
    hide Checked, GreatestRemovable, HasName, DistinctNames, Report;
    ret, data := 0, [];
    if trans.flags.recurse && !trans.flags.cascade {
      RecurseTargets(handle, trans);
    }
    base := trans.remove;
    UncheckedWithNodeps(handle.dbLocal, trans.flags, handle.assumeinstalled, base);
    if !trans.flags.nodeps {
      ret, data := CheckRemoval(handle, trans);
    }
    mid := trans.remove;
    if ret == -1 { return; }
    if trans.flags.cascade && trans.flags.recurse {
      RecurseTargets(handle, trans);
    }
  }

  lemma UncheckedWithNodeps(local: seq<Pkg>, flags: Flags, assumed: seq<Depend>, base: seq<Pkg>)
    ensures flags.nodeps ==> Checked(local, flags, assumed, base, base, false)
  {
    hide Clean;
  }

  /** A removal prepared with dependency checks breaks nothing, whatever the other flags, unless versions are
      ignored and matter. */
  lemma PreparedIsClean(local: seq<Pkg>, flags: Flags, assumed: seq<Depend>, base: seq<Pkg>, mid: seq<Pkg>, rem: seq<Pkg>)
    requires DistinctNames(local) && !flags.nodeps
    requires flags.nodepversion && flags.recurse && flags.cascade ==> VersionsAgree(local, mid, flags.recurseall)
    requires Checked(local, flags, assumed, base, mid, false)
    requires Recursed(local, flags, flags.recurse && flags.cascade, mid, rem)
    ensures Clean(RemovalQuery(local, rem, flags.nodepversion, assumed))
  {
    hide Clean, GreatestRemovable, VersionsAgree;
    if flags.recurse && flags.cascade {
      var added :| rem == mid + added && SubsetOf(added, local) && GreatestRemovable(local, mid, flags.recurseall, added);
      RecurseKeepsClean(local, mid, flags.recurseall, added, flags.nodepversion, assumed);
    }
  }
}
