/** Preparing an installation: resolving targets, settling conflicts, and the check that ends it. */
module Sync {
  import opened Common
  import opened DepString
  import opened Package
  import opened PkgLists
  import opened Deps
  import opened ListSpec
  import opened RecurseDeps
  import opened Handle
  import opened Remove
  import opened RemoveCommit
  import opened ResolveDeps
  import opened Conflict

  datatype PrepareError = DbInvalid | DbNotFound | UnsatisfiedDeps | DupFilename | ConflictingDeps

  /** What the user answers: whether to go on without the targets that cannot be resolved, and whether to remove the
      installed package of a conflict. */
  datatype Answers = Answers(skip: bool, agree: Conflict -> bool)

  // ---- what a prepared plan promises ----

  /** The packages present once the plan is carried out: those that stay, and the targets. */
  function FinalSet(q: Query): seq<Pkg> { Untouched(q) + q.upgrade }

  lemma SatisfiedEither(s: seq<Pkg>, t: seq<Pkg>, d: Depend)
    ensures Satisfied(s + t, d) <==> Satisfied(s, d) || Satisfied(t, d)
  {
    hide DepCmp;
    if i :| 0 <= i < |s| && DepCmp(s[i], d) { assert DepCmp((s + t)[i], d); }
    if i :| 0 <= i < |t| && DepCmp(t[i], d) { assert DepCmp((s + t)[|s|+i], d); }
  }

  /** Every dependency of a target is met in the end. */
  ghost predicate TargetsMet(q: Query) {
    forall tp, d :: tp in q.upgrade && d in tp.depends ==> Supported(FinalSet(q), q.assumed, d)
  }

  /** No package that stays loses a dependency. */
  ghost predicate NothingBroken(q: Query) {
    forall lp, d :: lp in Untouched(q) && d in lp.depends && Supported(q.pkglist, q.assumed, d) ==>
      Supported(FinalSet(q), q.assumed, d)
  }

  /** No target conflicts with another package that is present in the end. */
  ghost predicate NoConflicts(q: Query) {
    forall p, r :: p in q.upgrade && r in FinalSet(q) ==> !EitherConflicts(p, r)
  }

  lemma SplitByTouch(q: Query, d: Depend)
    ensures Satisfied(q.pkglist, d) <==> Satisfied(Untouched(q), d) || Satisfied(Modified(q), d)
  {
    hide DepCmp, Satisfied, Keep;
    if Satisfied(q.pkglist, d) {
      var w := SatisfierOf(q.pkglist, d);
      if Touched(q, w) { SatisfiedBy(Modified(q), w, d); } else { SatisfiedBy(Untouched(q), w, d); }
    }
    if Satisfied(Untouched(q), d) {
      var w := SatisfierOf(Untouched(q), d);
      SatisfiedBy(q.pkglist, w, d);
    }
    if Satisfied(Modified(q), d) {
      var w := SatisfierOf(Modified(q), d);
      SatisfiedBy(q.pkglist, w, d);
    }
  }

  /** The last check passes exactly when the plan meets every target's dependencies and breaks none. */
  lemma CheckIsExact(q: Query)
    requires q.reversedeps && !q.nodepversion
    ensures Clean(q) <==> TargetsMet(q) && NothingBroken(q)
  {
    hide DepCmp, Satisfied, Keep, HasName, DepCmpProvides, Untouched, Modified;
    forall d: Depend ensures Effective(q, d) == d && (Met(q, d) <==> Supported(FinalSet(q), q.assumed, d)) {
      SatisfiedEither(Untouched(q), q.upgrade, d);
    }
    if Clean(q) {
      forall lp, d | lp in Untouched(q) && d in lp.depends && Supported(q.pkglist, q.assumed, d)
        ensures Supported(FinalSet(q), q.assumed, d)
      {
        SplitByTouch(q, d);
        assert Satisfied(Modified(q), d) ==> Met(q, d);
      }
    }
    if TargetsMet(q) && NothingBroken(q) {
      forall lp, d | lp in Untouched(q) && d in lp.depends && Satisfied(Modified(q), d) ensures Met(q, d) {
        SplitByTouch(q, d);
      }
    }
  }

  // ---- the databases ----

  predicate FromSync(add: seq<Pkg>) { exists i :: 0 <= i < |add| && add[i].fromSync }

  /** No database is invalid, and none is missing if a target comes from one. */
  ghost predicate DatabasesReady(sync: seq<Db>, add: seq<Pkg>) {
    forall db :: db in sync ==> !db.invalid && !(FromSync(add) && db.missing)
  }

  /** The first database that cannot be used. */
  ghost predicate FirstBad(sync: seq<Db>, add: seq<Pkg>, i: nat) {
    && i < |sync| && (sync[i].invalid || (FromSync(add) && sync[i].missing))
    && forall k :: 0 <= k < i ==> !sync[k].invalid && !(FromSync(add) && sync[k].missing)
  }

  method CheckDatabases(handle: AlpmHandle, trans: Trans) returns (err: Option<PrepareError>)
    ensures err.None? <==> DatabasesReady(handle.dbsSync, trans.add)
    ensures err.Some? ==> exists i: nat :: FirstBad(handle.dbsSync, trans.add, i) &&
                                      err.value == if handle.dbsSync[i].invalid then DbInvalid else DbNotFound
  {
    var fromSync, i := false, 0;
    while i < |trans.add|
      invariant i <= |trans.add| && !fromSync && forall k :: 0 <= k < i ==> !trans.add[k].fromSync
    {
      if trans.add[i].fromSync { fromSync := true; break; }
      i := i + 1;
    }
    assert fromSync == FromSync(trans.add);
    i := 0;
    while i < |handle.dbsSync|
      invariant i <= |handle.dbsSync|
      invariant forall k :: 0 <= k < i ==> !handle.dbsSync[k].invalid && !(fromSync && handle.dbsSync[k].missing)
    {
      var db := handle.dbsSync[i];
      assert db in handle.dbsSync;
      assert db.invalid || (fromSync && db.missing) ==> FirstBad(handle.dbsSync, trans.add, i);
      if db.invalid { return Some(DbInvalid); }
      if fromSync && db.missing { return Some(DbNotFound); }
      i := i + 1;
    }
    err := None;
  }

  /** An invalid database always counts, a missing one only when a target comes from a database. */
  lemma ReadyWhen(sync: seq<Db>, add: seq<Pkg>)
    ensures DatabasesReady(sync, add) <==>
              (forall db :: db in sync ==> !db.invalid) && ((forall p :: p in add ==> !p.fromSync) || forall db :: db in sync ==> !db.missing)
  {
    if p :| p in add && p.fromSync {
      var i :| 0 <= i < |add| && add[i] == p;
      assert FromSync(add);
    }
  }

  // ---- resolving the targets ----

  function RemovesOf(removes: map<Pkg, seq<Pkg>>, p: Pkg): seq<Pkg> { if p in removes then removes[p] else [] }

  /** Every original target is still a target, or set aside. */
  ghost predicate Accounted(targets: seq<Pkg>, add: seq<Pkg>, unresolvable: seq<Pkg>) {
    forall t :: t in targets ==> HasName(add, t.name) || HasName(unresolvable, t.name)
  }

  function Marked(targets: seq<Pkg>, p: Pkg): Pkg {
    if HasName(targets, p.name) then p else p.(reason := AsDependency)
  }

  /** The packages of a list, marked as dependencies unless named like a target. */
  ghost predicate AllMarked(targets: seq<Pkg>, list: seq<Pkg>, add: seq<Pkg>) {
    |add| == |list| && forall i :: 0 <= i < |add| ==> add[i] == Marked(targets, list[i])
  }

  ghost predicate DistinctFiles(add: seq<Pkg>) {
    forall i, j :: 0 <= i < j < |add| ==> add[i].filename != add[j].filename
  }

  /** The removal list, and what the first `n` targets take over. */
  function ListedRemoves(remove: seq<Pkg>, add: seq<Pkg>, removes: map<Pkg, seq<Pkg>>, n: nat): seq<Pkg>
    requires n <= |add|
  {
    if n == 0 then remove else ListedRemoves(remove, add, removes, n - 1) + RemovesOf(removes, add[n-1])
  }

  lemma {:induction false} ListedMembers(remove: seq<Pkg>, add: seq<Pkg>, removes: map<Pkg, seq<Pkg>>, n: nat, x: Pkg)
    requires n <= |add|
    ensures x in ListedRemoves(remove, add, removes, n) <==>
              x in remove || exists i :: 0 <= i < n && add[i] in removes && x in removes[add[i]]
  {
    if n > 0 { ListedMembers(remove, add, removes, n - 1, x); }
  }

  method ListRemoves(trans: Trans) returns (remove: seq<Pkg>)
    ensures remove == ListedRemoves(trans.remove, trans.add, trans.removes, |trans.add|)
  {
    remove := trans.remove;
    var i := 0;
    while i < |trans.add|
      invariant i <= |trans.add| && remove == ListedRemoves(trans.remove, trans.add, trans.removes, i)
    {
      remove := remove + RemovesOf(trans.removes, trans.add[i]);
      i := i + 1;
    }
  }

  /** A target, or needed by something that comes before it. */
  ghost predicate Called(s: Setting, list: seq<Pkg>, i: nat)
    requires i < |list|
  {
    list[i] in s.preferred || Pulled(s, list, 0, i)
  }

  /** The list while targets are resolved one by one. */
  ghost predicate Collected(s: Setting, resolved: seq<Pkg>) {
    && DistinctNames(resolved) && AllSettled(s, resolved, 0) && AllHandled(s, resolved, 0)
    && forall i :: 0 <= i < |resolved| ==> Offered(s, resolved[i]) && Called(s, resolved, i)
  }

  lemma CollectedGrows(s: Setting, before: seq<Pkg>, pkg: Pkg, after: seq<Pkg>)
    requires Collected(s, before) && pkg in s.preferred && Resolved(s, before, pkg, after)
    ensures Collected(s, after)
  {
    hide Settled, HasName, DistinctNames, Pulled, Offered, AllHandled;
    if HasName(before, pkg.name) { return; }
    PreferredIsOffered(s);
    OnList(before, pkg, after);
    AllHandledGrows(s, before, 0, after);
    forall i | 0 <= i < |after| ensures Offered(s, after[i]) && Called(s, after, i) {
      if i < |before| {
        assert after[i] == before[i] && Called(s, before, i);
        if Pulled(s, before, 0, i) { PulledStays(s, before, after, 0, i); }
      } else if i > |before| {
        PulledFrom(s, after, |before|, 0, i);
      }
    }
    forall i, d | 0 <= i < |after| && d in after[i].depends ensures Settled(s, after, Wanted(s, d)) {
      if i < |before| {
        assert after[i] == before[i];
        SettledGrows(s, before, after, Wanted(s, d));
      }
    }
  }

  /** Every dependency in the report was recorded while a target was resolved. */
  ghost predicate Unresolved(s: Setting, data: seq<Missing>) {
    forall m :: m in data ==> exists list, t :: Collected(s, list) && t in s.preferred && Recorded(s, list, t, m)
  }

  /** Every missing dependency of a target set aside was recorded or dealt with while the target was resolved. */
  ghost predicate AllRecorded(s: Setting, aside: seq<Pkg>, data: seq<Missing>) {
    forall p :: p in aside ==> exists list :: Collected(s, list) && DealtWith(s, list, p, data)
  }

  lemma OneMoreRecorded(s: Setting, aside: seq<Pkg>, data: seq<Missing>, more: seq<Missing>)
    requires AllRecorded(s, aside, data) && data <= more
    ensures AllRecorded(s, aside, more)
  {
    hide Collected, DealtWith;
    forall p | p in aside ensures exists list :: Collected(s, list) && DealtWith(s, list, p, more) {
      var list :| Collected(s, list) && DealtWith(s, list, p, data);
      DealtWithStays(s, list, p, data, more);
    }
  }

  /** The report is that of resolving every target in turn. */
  ghost predicate ReportsAll(s: Setting, data: seq<Missing>) {
    exists resolved, aside :: InTurn(s, |s.preferred|, resolved, aside) && aside != [] && AllRecorded(s, aside, data)
  }

  lemma RecordedUnresolved(s: Setting, list: seq<Pkg>, pkg: Pkg, before: seq<Missing>, after: seq<Missing>)
    requires Unresolved(s, before) && Collected(s, list) && pkg in s.preferred
    requires forall m :: m in after ==> m in before || Recorded(s, list, pkg, m)
    ensures Unresolved(s, after)
  {
    hide Collected, Recorded;
  }

  /** Resolving the target fails when the list of some targets and what they need has been collected. */
  ghost predicate Stuck(s: Setting, p: Pkg) { exists list :: Collected(s, list) && Fails(s, list, p) }

  /** The `n`th target's turn: it extends the list, or fails on it and is set aside. */
  ghost predicate NextTurn(s: Setting, n: nat, before: seq<Pkg>, less: seq<Pkg>, after: seq<Pkg>, aside: seq<Pkg>)
    requires 0 < n <= |s.preferred|
  {
    var p := s.preferred[n-1];
    (Resolved(s, before, p, after) && aside == less) || (Fails(s, before, p) && after == before && aside == less + [p])
  }

  /** What resolving the first `n` targets in turn leaves. */
  ghost predicate InTurn(s: Setting, n: nat, resolved: seq<Pkg>, aside: seq<Pkg>)
    requires n <= |s.preferred|
  {
    if n == 0 then resolved == [] && aside == []
    else exists before, less :: InTurn(s, n - 1, before, less) && NextTurn(s, n, before, less, resolved, aside)
  }

  lemma TurnTaken(s: Setting, n: nat, before: seq<Pkg>, less: seq<Pkg>, after: seq<Pkg>, aside: seq<Pkg>)
    requires n < |s.preferred| && InTurn(s, n, before, less) && NextTurn(s, n + 1, before, less, after, aside)
    ensures InTurn(s, n + 1, after, aside)
  {
    hide NextTurn;
  }

  /** Resolves every target in turn; what cannot be resolved is set aside. */
  method ResolveAll(handle: AlpmHandle, s: Setting) returns (resolved: seq<Pkg>, unresolvable: seq<Pkg>, data: seq<Missing>)
    requires SettingOf(handle, s)
    ensures Collected(s, resolved) && Unresolved(s, data) && InTurn(s, |s.preferred|, resolved, unresolvable)
    ensures forall i :: 0 <= i < |s.preferred| ==> HasName(resolved, s.preferred[i].name) || HasName(unresolvable, s.preferred[i].name)
    ensures forall p :: p in unresolvable ==> p in s.preferred && Stuck(s, p)
    ensures unresolvable != [] ==> data != []
    ensures AllRecorded(s, unresolvable, data)
  {
    hide Settled, DealtWith, HasName, DistinctNames, Resolved, AllSettled, Collected, Fails, Recorded, Unresolved, Offered, AllAtHand, InTurn;
    var resolver := new Resolver();
    unresolvable := [];
    ghost var candidates := NamesOf(s.preferred) + CandidateNames(s.sync);
    AllCandidates(s);
    NothingYet(s);
    var i := 0;
    while i < |s.preferred|
      invariant i <= |s.preferred| && Collected(s, resolver.packages) && Unresolved(s, resolver.data) && fresh(resolver)
      invariant InTurn(s, i, resolver.packages, unresolvable)
      invariant forall k :: 0 <= k < i ==> HasName(resolver.packages, s.preferred[k].name) || HasName(unresolvable, s.preferred[k].name)
      invariant forall p :: p in unresolvable ==> p in s.preferred && Stuck(s, p)
      invariant unresolvable != [] ==> resolver.data != []
      invariant AllRecorded(s, unresolvable, resolver.data)
    {
      var pkg := s.preferred[i];
      ghost var before, aside, recorded := resolver.packages, unresolvable, resolver.data;
      CollectedDistinct(s, before);
      PreferredIsOffered(s);
      var ret := resolver.ResolveDeps(handle, s, pkg, candidates);
      RecordedUnresolved(s, before, pkg, recorded, resolver.data);
      OneMoreRecorded(s, unresolvable, recorded, resolver.data);
      if ret == -1 {
        unresolvable := unresolvable + [pkg];
        LastNamed(aside, pkg);
      } else {
        CollectedGrows(s, before, pkg, resolver.packages);
        ResolvedHas(s, before, pkg, resolver.packages);
      }
      TurnTaken(s, i, before, aside, resolver.packages, unresolvable);
      forall k | 0 <= k < i ensures HasName(resolver.packages, s.preferred[k].name) || HasName(unresolvable, s.preferred[k].name) {
        StillNamed(before, resolver.packages, aside, unresolvable, s.preferred[k].name);
      }
      i := i + 1;
    }
    resolved, data := resolver.packages, resolver.data;
  }

  lemma NothingYet(s: Setting)
    ensures Collected(s, []) && Unresolved(s, []) && InTurn(s, 0, [], [])
  {
  }

  lemma CollectedDistinct(s: Setting, resolved: seq<Pkg>)
    requires Collected(s, resolved)
    ensures DistinctNames(resolved)
  {
  }

  lemma ResolvedHas(s: Setting, before: seq<Pkg>, pkg: Pkg, after: seq<Pkg>)
    requires Resolved(s, before, pkg, after)
    ensures before <= after && HasName(after, pkg.name)
  {
    hide HasName, Settled, Pulled, Offered, DistinctNames;
    if !HasName(before, pkg.name) { OnList(before, pkg, after); }
  }

  lemma LastNamed(s: seq<Pkg>, p: Pkg)
    ensures HasName(s + [p], p.name)
  {
    assert (s + [p])[|s|].name == p.name;
  }

  lemma StillNamed(a: seq<Pkg>, a': seq<Pkg>, b: seq<Pkg>, b': seq<Pkg>, name: string)
    requires a <= a' && b <= b' && (HasName(a, name) || HasName(b, name))
    ensures HasName(a', name) || HasName(b', name)
  {
    hide HasName;
    if HasName(a, name) { HasNameGrows(a, a', name); } else { HasNameGrows(b, b', name); }
  }

  /** Everything the collected packages need is met, where the name of the preferred package is enough. */
  lemma CollectedIsMet(s: Setting, resolved: seq<Pkg>, p: Pkg, d: Depend)
    requires Collected(s, resolved) && NameMeets(s, Wanted(s, d)) && p in resolved && d in p.depends
    ensures MetWith(s, resolved, Wanted(s, d))
  {
    hide Settled, MetWith, Offered, Called, NameMeets, DistinctNames;
    var i :| 0 <= i < |resolved| && resolved[i] == p;
    SettledIsMet(s, resolved, Wanted(s, d));
  }

  method SharesFilename(resolved: seq<Pkg>) returns (duplicate: bool)
    ensures duplicate <==> !DistinctFiles(resolved)
  {
    duplicate := false;
    var i := 0;
    while i < |resolved|
      invariant i <= |resolved|
      invariant duplicate <==> exists a, b :: 0 <= a < i && a < b < |resolved| && resolved[a].filename == resolved[b].filename
    {
      var j := i + 1;
      ghost var earlier := duplicate;
      while j < |resolved|
        invariant i < j <= |resolved|
        invariant duplicate <==> earlier || exists b :: i < b < j && resolved[i].filename == resolved[b].filename
      {
        if resolved[i].filename == resolved[j].filename { duplicate := true; }
        j := j + 1;
      }
      i := i + 1;
    }
  }

  /** Packages that were pulled in get the reason of a dependency. */
  method MarkPulled(targets: seq<Pkg>, resolved: seq<Pkg>) returns (add: seq<Pkg>)
    ensures AllMarked(targets, resolved, add)
  {
    hide HasName;
    add := [];
    var i := 0;
    while i < |resolved|
      invariant i <= |resolved| && |add| == i
      invariant forall k :: 0 <= k < i ==> add[k] == Marked(targets, resolved[k])
    {
      var pkg := resolved[i];
      if FindPkg(targets, pkg.name).None? { pkg := pkg.(reason := AsDependency); }
      add := add + [pkg];
      i := i + 1;
    }
  }

  lemma SameNamesAt(s: seq<Pkg>, t: seq<Pkg>, name: string)
    requires |s| == |t| && forall i :: 0 <= i < |s| ==> s[i].name == t[i].name
    ensures HasName(s, name) <==> HasName(t, name)
  {
    if i :| 0 <= i < |s| && s[i].name == name { assert t[i].name == name; }
    if i :| 0 <= i < |t| && t[i].name == name { assert s[i].name == name; }
  }

  /** What the targets are resolved with. */
  function TargetSetting(handle: AlpmHandle, trans: Trans): Setting
    reads handle, trans
  {
    Setting(handle.dbLocal, handle.dbsSync, Difference(handle.dbLocal, trans.add, PkgCmp), trans.add,
            ListedRemoves(trans.remove, trans.add, trans.removes, |trans.add|),
            trans.flags.nodepversion, handle.assumeinstalled, handle.ignored)
  }

  /** A package under a requested name is one on offer, as it is; any other is one on offer that has become a dependency. */
  ghost predicate ReasonsSet(s: Setting, add: seq<Pkg>) {
    forall p :: p in add ==>
      if HasName(s.preferred, p.name) then Offered(s, p)
      else p.reason == AsDependency && exists c :: Offered(s, c) && p == c.(reason := p.reason)
  }

  lemma MarkedReasons(s: Setting, resolved: seq<Pkg>, add: seq<Pkg>)
    requires Collected(s, resolved) && AllMarked(s.preferred, resolved, add)
    ensures ReasonsSet(s, add)
  {
    hide HasName, Offered, DistinctNames, AllSettled, Called;
    forall p | p in add
      ensures if HasName(s.preferred, p.name) then Offered(s, p)
              else p.reason == AsDependency && exists c :: Offered(s, c) && p == c.(reason := p.reason)
    {
      var i :| 0 <= i < |add| && add[i] == p;
      assert Offered(s, resolved[i]);
      assert resolved[i].(reason := AsDependency).name == resolved[i].name;
    }
  }

  /** The new targets: the resolved list, pulled packages marked; what was set aside could not be resolved. */
  ghost predicate Retargeted(s: Setting, add: seq<Pkg>, unresolvable: seq<Pkg>) {
    && DistinctNames(add) && DistinctFiles(add) && Accounted(s.preferred, add, unresolvable) && Chosen(s, add, unresolvable) && ReasonsSet(s, add)
    && forall p :: p in unresolvable ==> p in s.preferred && Stuck(s, p)
  }

  /** Targets and what they need, as they were collected in turn, with the packages that were pulled in marked. */
  ghost predicate Chosen(s: Setting, add: seq<Pkg>, aside: seq<Pkg>) {
    exists resolved :: Collected(s, resolved) && InTurn(s, |s.preferred|, resolved, aside) && AllMarked(s.preferred, resolved, add)
  }

  lemma MarkedRetargets(s: Setting, resolved: seq<Pkg>, unresolvable: seq<Pkg>, add: seq<Pkg>)
    requires Collected(s, resolved) && InTurn(s, |s.preferred|, resolved, unresolvable)
    requires DistinctFiles(resolved) && AllMarked(s.preferred, resolved, add)
    requires forall i :: 0 <= i < |s.preferred| ==> HasName(resolved, s.preferred[i].name) || HasName(unresolvable, s.preferred[i].name)
    requires forall p :: p in unresolvable ==> p in s.preferred && Stuck(s, p)
    ensures Retargeted(s, add, unresolvable)
  {
    hide HasName, Collected, Stuck, ReasonsSet, InTurn;
    CollectedDistinct(s, resolved);
    MarkedReasons(s, resolved, add);
    assert forall i :: 0 <= i < |add| ==> add[i].name == resolved[i].name && add[i].filename == resolved[i].filename;
    forall t | t in s.preferred ensures HasName(add, t.name) || HasName(unresolvable, t.name) {
      var i :| 0 <= i < |s.preferred| && s.preferred[i] == t;
      SameNamesAt(resolved, add, t.name);
    }
    assert Chosen(s, add, unresolvable);
  }

  lemma NamedMember(s: seq<Pkg>, p: Pkg)
    requires p in s
    ensures HasName(s, p.name)
  {
    var i :| 0 <= i < |s| && s[i] == p;
  }

  /** Two packages, targets or on offer in the databases, share a file name. */
  ghost predicate SharedFile(targets: seq<Pkg>, sync: seq<Db>) {
    exists p, q :: (p in targets || Found(sync, p)) && (q in targets || Found(sync, q)) && p.name != q.name && p.filename == q.filename
  }

  lemma FilesShared(s: Setting, resolved: seq<Pkg>)
    requires Collected(s, resolved) && !DistinctFiles(resolved)
    ensures SharedFile(s.preferred, s.sync)
  {
    hide Settled, Found, AllSettled, Called;
    var i, j :| 0 <= i < j < |resolved| && resolved[i].filename == resolved[j].filename;
    assert Offered(s, resolved[i]) && Offered(s, resolved[j]) && resolved[i].name != resolved[j].name;
  }

  /** The first part of `_alpm_sync_prepare`: the targets and what they need, or an error. */
  method ResolveTargets(handle: AlpmHandle, trans: Trans, skip: bool) returns (err: Option<PrepareError>, data: seq<Missing>)
    modifies trans`add, trans`unresolvable
    ensures err.None? ==> Retargeted(old(TargetSetting(handle, trans)), trans.add, trans.unresolvable)
    ensures err.None? ==> trans.unresolvable == [] || (skip && data == [])
    ensures Unresolved(old(TargetSetting(handle, trans)), data)
    ensures err.Some? ==> trans.add == old(trans.add) && trans.unresolvable == old(trans.unresolvable)
    ensures err.Some? ==> (err.value == DupFilename && SharedFile(old(trans.add), handle.dbsSync)) ||
                          (err.value == UnsatisfiedDeps && !skip && data != [] && ReportsAll(old(TargetSetting(handle, trans)), data))
  {
    hide Retargeted, Collected, InTurn, AllRecorded, HasName, Difference, Unresolved, Stuck, SharedFile, DistinctFiles, Marked, ListedRemoves;
    var remove := ListRemoves(trans);
    var s := Setting(handle.dbLocal, handle.dbsSync, Difference(handle.dbLocal, trans.add, PkgCmp), trans.add, remove,
                     trans.flags.nodepversion, handle.assumeinstalled, handle.ignored);
    assert s == TargetSetting(handle, trans);
    var resolved, unresolvable;
    resolved, unresolvable, data := ResolveAll(handle, s);
    if unresolvable != [] {
      if !skip {
        assert ReportsAll(s, data);
        return Some(UnsatisfiedDeps), data;
      }
      data := [];
      NothingYet(s);
    }
    var duplicate := SharesFilename(resolved);
    if duplicate {
      FilesShared(s, resolved);
      return Some(DupFilename), data;
    }
    var add := MarkPulled(trans.add, resolved);
    MarkedRetargets(s, resolved, unresolvable, add);
    trans.unresolvable := unresolvable;
    trans.add := add;
    err := None;
  }

  // ---- conflicts among the targets ----

  /** At most one package of a listed pair is still a target. */
  ghost predicate Parted(add: seq<Pkg>, x: Conflict) { !HasName(add, x.package1) || !HasName(add, x.package2) }

  lemma PartedStays(add: seq<Pkg>, fewer: seq<Pkg>, x: Conflict)
    requires Parted(add, x) && SubsetOf(fewer, add)
    ensures Parted(fewer, x)
  {
    hide HasName;
    if HasName(fewer, x.package1) { SameNames(fewer, add, x.package1); }
    if HasName(fewer, x.package2) { SameNames(fewer, add, x.package2); }
  }

  lemma DroppedParts(add: seq<Pkg>, name: string)
    requires DistinctNames(add)
    ensures !HasName(RemoveByName(add, name), name)
  {
    RemoveByNameMembers(add, name);
    var r := RemoveByName(add, name);
    forall i | 0 <= i < |r| ensures r[i].name != name { assert r[i] in r; }
  }

  /** Taking a target off the list and setting it aside loses none, and keeps what the others have. */
  lemma DroppingAccounts(targets: seq<Pkg>, add: seq<Pkg>, unresolvable: seq<Pkg>, rsync: Pkg)
    requires DistinctNames(add) && Accounted(targets, add, unresolvable)
    ensures Accounted(targets, RemoveByName(add, rsync.name), unresolvable + [rsync])
  {
    hide HasName, DistinctNames;
    var fewer, more := RemoveByName(add, rsync.name), unresolvable + [rsync];
    RemoveByNameMembers(add, rsync.name);
    LastNamed(unresolvable, rsync);
    forall t | t in targets ensures HasName(fewer, t.name) || HasName(more, t.name) {
      if HasName(unresolvable, t.name) {
        HasNameGrows(unresolvable, more, t.name);
      } else if t.name != rsync.name {
        var p := FindPkg(add, t.name).value;
        assert p in fewer;
        NamedMember(fewer, p);
      }
    }
  }

  lemma {:induction false} DroppingKeepsFiles(add: seq<Pkg>, name: string)
    requires DistinctFiles(add)
    ensures DistinctFiles(RemoveByName(add, name)) && SubsetOf(RemoveByName(add, name), add)
  {
    if add != [] {
      assert add == [add[0]] + add[1..];
      if add[0].name != name {
        DroppingKeepsFiles(add[1..], name);
        var r := RemoveByName(add[1..], name);
        forall i | 0 <= i < |r| ensures r[i].filename != add[0].filename {
          assert r[i] in r && r[i] in add[1..];
          var k :| 0 <= k < |add[1..]| && add[1..][k] == r[i];
          assert add[k+1] == r[i];
        }
      }
    }
  }

  /** `q` conflicts with `p` and satisfies a dependency on its name. If `p` does the same, the conflict is one that `q` names. */
  ghost predicate Outdoes(q: Pkg, p: Pkg) {
    EitherConflicts(p, q) && DepCmp(q, FromString(p.name)) && (DepCmp(p, FromString(q.name)) ==> ConflictsWith(q, p))
  }

  /** Another target outdoes `p`. */
  ghost predicate Beaten(add: seq<Pkg>, p: Pkg) { p in add && exists q :: q in add && Outdoes(q, p) }

  /** Another target outdoes `p`, and neither of them has been dropped yet. */
  ghost predicate Outdone(add0: seq<Pkg>, gone: seq<Pkg>, p: Pkg) {
    p in add0 && p !in gone && exists q :: q in add0 && q !in gone && Outdoes(q, p)
  }

  /** The targets left are those that were not dropped; each was outdone when it was dropped, and set aside. */
  ghost predicate Dropped(add0: seq<Pkg>, aside0: seq<Pkg>, add: seq<Pkg>, unresolvable: seq<Pkg>) {
    && aside0 <= unresolvable
    && (forall k :: |aside0| <= k < |unresolvable| ==> Outdone(add0, unresolvable[|aside0|..k], unresolvable[k]))
    && (forall p :: p in add <==> p in add0 && p !in unresolvable[|aside0|..])
  }

  /** What settling conflicts among the targets keeps. */
  ghost predicate Narrowed(targets: seq<Pkg>, add0: seq<Pkg>, aside0: seq<Pkg>, add: seq<Pkg>, unresolvable: seq<Pkg>) {
    && DistinctNames(add) && (DistinctFiles(add0) ==> DistinctFiles(add))
    && Accounted(targets, add, unresolvable) && Dropped(add0, aside0, add, unresolvable)
  }

  lemma DropsOneMore(add0: seq<Pkg>, aside0: seq<Pkg>, add: seq<Pkg>, unresolvable: seq<Pkg>, rsync: Pkg, fewer: seq<Pkg>)
    requires Dropped(add0, aside0, add, unresolvable) && Beaten(add, rsync)
    requires forall p :: p in fewer <==> p in add && p != rsync
    ensures Dropped(add0, aside0, fewer, unresolvable + [rsync])
  {
    hide Outdoes;
    var a, more := |aside0|, unresolvable + [rsync];
    assert more[a..] == unresolvable[a..] + [rsync];
    forall k | a <= k < |more| ensures Outdone(add0, more[a..k], more[k]) {
      assert more[a..k] == unresolvable[a..k];
      if k == |unresolvable| { assert unresolvable[a..k] == unresolvable[a..]; }
    }
  }

  lemma NarrowedDrops(targets: seq<Pkg>, add0: seq<Pkg>, aside0: seq<Pkg>, add: seq<Pkg>, unresolvable: seq<Pkg>, rsync: Pkg)
    requires Narrowed(targets, add0, aside0, add, unresolvable) && Beaten(add, rsync)
    ensures Narrowed(targets, add0, aside0, RemoveByName(add, rsync.name), unresolvable + [rsync])
  {
    hide HasName, DistinctNames, DistinctFiles, Accounted, RemoveByName, Beaten, Dropped;
    RemoveByNameMembers(add, rsync.name);
    DroppingAccounts(targets, add, unresolvable, rsync);
    if DistinctFiles(add) { DroppingKeepsFiles(add, rsync.name); }
    assert rsync in add by { BeatenMember(add, rsync); }
    forall p | p in add && p != rsync ensures p.name != rsync.name { DifferentNames(add, p, rsync); }
    DropsOneMore(add0, aside0, add, unresolvable, rsync, RemoveByName(add, rsync.name));
  }

  lemma BeatenMember(add: seq<Pkg>, p: Pkg)
    requires Beaten(add, p)
    ensures p in add
  {
  }

  /** Of two conflicting targets, one that satisfies the other's name outdoes it. */
  lemma OneBeaten(add: seq<Pkg>, winner: Pkg, loser: Pkg)
    requires winner in add && loser in add && (ConflictsWith(winner, loser) || ConflictsWith(loser, winner))
    requires DepCmp(winner, FromString(loser.name)) && (DepCmp(loser, FromString(winner.name)) ==> ConflictsWith(winner, loser))
    ensures Beaten(add, loser)
  {
    hide ConflictsWith, DepCmp, FromString;
    assert Outdoes(winner, loser);
  }

  /** Two targets in conflict neither of which satisfies a dependency on the other's name. */
  ghost predicate Irreconcilable(add: seq<Pkg>, p: Pkg, q: Pkg) {
    && p in add && q in add && ConflictsWith(p, q)
    && !DepCmp(p, FromString(q.name)) && !DepCmp(q, FromString(p.name))
  }

  lemma ClashConflicts(p: Pkg, c: Depend, q: Pkg)
    requires Clash(p, c, q)
    ensures ConflictsWith(p, q)
  {
    hide Clash;
  }

  lemma ReportedTargets(add0: seq<Pkg>, add: seq<Pkg>, deps: seq<Conflict>, i: nat, p: Pkg, q: Pkg)
    requires DistinctNames(add0) && SubsetOf(add, add0) && InnerReport(add0, deps) && i < |deps|
    requires p in add && q in add && p.name == deps[i].package1 && q.name == deps[i].package2
    ensures ConflictsWith(p, q)
  {
    hide ConflictsWith, PairsDistinct, Listed, DistinctNames;
    assert deps[i] in deps;
    var a, b :| a in add0 && b in add0 && Clash(a, deps[i].reason, b) && deps[i].package1 == a.name && deps[i].package2 == b.name;
    ClashConflicts(a, deps[i].reason, b);
    if a != p { DifferentNames(add0, a, p); }
    if b != q { DifferentNames(add0, b, q); }
  }

  /** Which of two conflicting targets is dropped: the one that the other provides, if any. */
  method Loser(sync1: Pkg, sync2: Pkg, conflict: Conflict, ghost add: seq<Pkg>) returns (rsync: Option<Pkg>)
    requires sync1 in add && sync2 in add && ConflictsWith(sync1, sync2)
    requires sync1.name == conflict.package1 && sync2.name == conflict.package2
    ensures rsync.Some? ==> (rsync.value == sync1 || rsync.value == sync2) && Beaten(add, rsync.value)
    ensures rsync.None? ==> Irreconcilable(add, sync1, sync2)
  {
    hide ConflictsWith, DepCmp, FromString, Beaten;
    var dep1 := AlpmDepFromString(conflict.package1);
    var dep2 := AlpmDepFromString(conflict.package2);
    if DepCmp(sync1, dep2) {
      OneBeaten(add, sync1, sync2);
      rsync := Some(sync2);
    } else if DepCmp(sync2, dep1) {
      OneBeaten(add, sync2, sync1);
      rsync := Some(sync1);
    } else {
      rsync := None;
    }
  }

  /** The loop over the conflicts among the targets: one of each pair is dropped if the other provides it. */
  method SettleInner(trans: Trans, ghost targets: seq<Pkg>) returns (err: Option<PrepareError>)
    requires DistinctNames(trans.add) && Accounted(targets, trans.add, trans.unresolvable)
    modifies trans`add, trans`unresolvable
    ensures Narrowed(targets, old(trans.add), old(trans.unresolvable), trans.add, trans.unresolvable)
    ensures err.None? ==> forall p, q :: p in trans.add && q in trans.add ==> !ConflictsWith(p, q)
    ensures err.Some? ==> err.value == ConflictingDeps && exists p, q :: Irreconcilable(trans.add, p, q)
  {
    hide HasName, DistinctNames, DistinctFiles, Accounted, DepCmp, RemoveByName, InnerReport, ConflictsWith, Narrowed, Parted, SubsetOf,
         FromString, Beaten, Irreconcilable;
    ghost var add0, aside0 := trans.add, trans.unresolvable;
    NarrowedStart(targets, add0, aside0);
    var deps := InnerConflicts(trans.add);
    var i := 0;
    while i < |deps|
      invariant i <= |deps| && Narrowed(targets, add0, aside0, trans.add, trans.unresolvable)
      invariant forall k :: 0 <= k < i ==> Parted(trans.add, deps[k])
    {
      var conflict := deps[i];
      ghost var before := trans.add;
      var sync1, sync2 := FindPkg(trans.add, conflict.package1), FindPkg(trans.add, conflict.package2);
      if sync1.Some? && sync2.Some? {
        NarrowedSubset(targets, add0, aside0, trans.add, trans.unresolvable);
        ReportedTargets(add0, trans.add, deps, i, sync1.value, sync2.value);
        var rsync := Loser(sync1.value, sync2.value, conflict, trans.add);
        if rsync.None? { return Some(ConflictingDeps); }
        NarrowedDrops(targets, add0, aside0, trans.add, trans.unresolvable, rsync.value);
        DroppedIsParted(targets, add0, aside0, trans.add, trans.unresolvable, rsync.value, conflict);
        trans.add := RemoveByName(trans.add, rsync.value.name);
        trans.unresolvable := trans.unresolvable + [rsync.value];
      } else {
        assert Parted(trans.add, conflict) by { AbsentIsParted(trans.add, conflict); }
        WholeSubset(trans.add);
      }
      forall k | 0 <= k < i ensures Parted(trans.add, deps[k]) { PartedStays(before, trans.add, deps[k]); }
      i := i + 1;
    }
    NarrowedSubset(targets, add0, aside0, trans.add, trans.unresolvable);
    forall p, q | p in trans.add && q in trans.add ensures !ConflictsWith(p, q) {
      AllParted(add0, trans.add, deps, p, q);
    }
    err := None;
  }

  lemma NarrowedStart(targets: seq<Pkg>, add: seq<Pkg>, unresolvable: seq<Pkg>)
    requires DistinctNames(add) && Accounted(targets, add, unresolvable)
    ensures Narrowed(targets, add, unresolvable, add, unresolvable)
  {
    hide HasName, DistinctNames, DistinctFiles, Accounted;
  }

  lemma AbsentIsParted(add: seq<Pkg>, x: Conflict)
    requires !HasName(add, x.package1) || !HasName(add, x.package2)
    ensures Parted(add, x)
  {
    hide HasName;
  }

  lemma WholeSubset(s: seq<Pkg>)
    ensures SubsetOf(s, s)
  {
  }

  lemma NarrowedSubset(targets: seq<Pkg>, add0: seq<Pkg>, aside0: seq<Pkg>, add: seq<Pkg>, unresolvable: seq<Pkg>)
    requires Narrowed(targets, add0, aside0, add, unresolvable)
    ensures SubsetOf(add, add0)
  {
    hide HasName, DistinctNames, DistinctFiles, Accounted;
  }

  lemma DroppedIsParted(targets: seq<Pkg>, add0: seq<Pkg>, aside0: seq<Pkg>, add: seq<Pkg>, unresolvable: seq<Pkg>, rsync: Pkg, x: Conflict)
    requires Narrowed(targets, add0, aside0, add, unresolvable) && (rsync.name == x.package1 || rsync.name == x.package2)
    ensures Parted(RemoveByName(add, rsync.name), x) && SubsetOf(RemoveByName(add, rsync.name), add)
  {
    hide HasName, DistinctNames, DistinctFiles, Accounted, RemoveByName;
    RemoveByNameMembers(add, rsync.name);
    DroppedParts(add, rsync.name);
  }

  lemma AllParted(add0: seq<Pkg>, add: seq<Pkg>, deps: seq<Conflict>, p: Pkg, q: Pkg)
    requires InnerReport(add0, deps) && SubsetOf(add, add0) && p in add && q in add
    requires forall k :: 0 <= k < |deps| ==> Parted(add, deps[k])
    ensures !ConflictsWith(p, q)
  {
    hide HasName, ConflictsWith, PairsDistinct;
    if ConflictsWith(p, q) {
      NamedMember(add, p);
      NamedMember(add, q);
      ListedParted(add, deps, p.name, q.name);
    }
  }

  lemma ListedParted(add: seq<Pkg>, deps: seq<Conflict>, a: string, b: string)
    requires Listed(deps, a, b) && forall k :: 0 <= k < |deps| ==> Parted(add, deps[k])
    ensures !HasName(add, a) || !HasName(add, b)
  {
    hide HasName;
    var i :| 0 <= i < |deps| && deps[i].package1 == a && deps[i].package2 == b;
    assert Parted(add, deps[i]);
  }

  lemma NotWithItself(p: Pkg)
    ensures !EitherConflicts(p, p)
  {
  }

  /** Of two conflicting targets only one of which provides the other, that one stays and the other is set aside. */
  lemma ProviderStays(targets: seq<Pkg>, aside0: seq<Pkg>, add: seq<Pkg>, unresolvable: seq<Pkg>, a: Pkg, b: Pkg)
    requires Narrowed(targets, [a, b], aside0, add, unresolvable) && EitherConflicts(a, b)
    requires DepCmp(a, FromString(b.name)) && !DepCmp(b, FromString(a.name))
    requires forall p, q :: p in add && q in add ==> !ConflictsWith(p, q)
    ensures forall p :: p in add <==> p == a
    ensures exists k :: |aside0| <= k < |unresolvable| && unresolvable[k] == b
  {
    hide DepCmp, FromString, Accounted, DistinctFiles, DistinctNames, ConflictsWith;
    var gone := unresolvable[|aside0|..];
    forall k | |aside0| <= k < |unresolvable| ensures unresolvable[k] == b {
      assert Outdone([a, b], unresolvable[|aside0|..k], unresolvable[k]);
      NotWithItself(a);
    }
    forall p | p in gone ensures p == b {
      var k :| 0 <= k < |gone| && gone[k] == p;
      assert unresolvable[|aside0|+k] == p;
    }
    assert a in [a, b] && b in [a, b];
    assert ConflictsWith(a, b) || ConflictsWith(b, a);
    assert a in add;
    assert b !in gone ==> b in add;
    var k :| 0 <= k < |gone| && gone[k] == b;
    assert unresolvable[|aside0|+k] == b;
  }

  // ---- conflicts with installed packages ----

  /** To be removed: on the removal list, or taken over by a target. */
  ghost predicate Elected(remove: seq<Pkg>, add: seq<Pkg>, removes: map<Pkg, seq<Pkg>>, name: string) {
    HasName(remove, name) || exists p :: p in add && HasName(RemovesOf(removes, p), name)
  }

  /** Every package taken over is installed. */
  ghost predicate RemovesInstalled(removes: map<Pkg, seq<Pkg>>, local: seq<Pkg>) {
    forall p :: p in removes ==> SubsetOf(removes[p], local)
  }

  method IsElected(trans: Trans, name: string) returns (found: bool)
    ensures found <==> Elected(trans.remove, trans.add, trans.removes, name)
  {
    hide HasName;
    found := FindPkg(trans.remove, name).Some?;
    var j := 0;
    while j < |trans.add| && !found
      invariant j <= |trans.add|
      invariant found ==> Elected(trans.remove, trans.add, trans.removes, name)
      invariant !found ==> !HasName(trans.remove, name) && forall k :: 0 <= k < j ==> !HasName(RemovesOf(trans.removes, trans.add[k]), name)
    {
      if FindPkg(RemovesOf(trans.removes, trans.add[j]), name).Some? {
        assert trans.add[j] in trans.add;
        found := true;
      }
      j := j + 1;
    }
  }

  lemma ElectedStays(remove: seq<Pkg>, add: seq<Pkg>, removes: map<Pkg, seq<Pkg>>, p: Pkg, more: seq<Pkg>, name: string)
    requires Elected(remove, add, removes, name) && RemovesOf(removes, p) <= more
    ensures Elected(remove, add, removes[p := more], name)
  {
    hide HasName;
    if !HasName(remove, name) {
      var t :| t in add && HasName(RemovesOf(removes, t), name);
      HasNameGrows(RemovesOf(removes, t), RemovesOf(removes[p := more], t), name);
    }
  }

  /** A target and an installed package that conflict, and that package is not to be removed. */
  ghost predicate Standing(local: seq<Pkg>, remove: seq<Pkg>, add: seq<Pkg>, removes: map<Pkg, seq<Pkg>>, p: Pkg, q: Pkg) {
    p in add && q in local && !HasName(add, q.name) && EitherConflicts(p, q) && !Elected(remove, add, removes, q.name)
  }

  /** Such a conflict whose removal the user refuses. */
  ghost predicate Denied(local: seq<Pkg>, remove: seq<Pkg>, add: seq<Pkg>, removes: map<Pkg, seq<Pkg>>, agree: Conflict -> bool, p: Pkg, q: Pkg) {
    Standing(local, remove, add, removes, p, q) && exists x: Conflict :: About(x, p, q) && !agree(x)
  }

  /** An installed package that is not replaced and conflicts with the target. */
  ghost predicate Opposes(local: seq<Pkg>, add: seq<Pkg>, p: Pkg, x: Pkg) {
    p in add && x in local && !HasName(add, x.name) && EitherConflicts(p, x)
  }

  /** Such a package whose removal the user agrees to. */
  ghost predicate Granted(local: seq<Pkg>, add: seq<Pkg>, agree: Conflict -> bool, p: Pkg, x: Pkg) {
    Opposes(local, add, p, x) && exists c: Conflict :: About(c, p, x) && agree(c)
  }

  /** What targets take over has grown only by packages that the user agrees to remove for them. */
  ghost predicate TakesGranted(local: seq<Pkg>, add: seq<Pkg>, agree: Conflict -> bool, removes0: map<Pkg, seq<Pkg>>,
                               removes: map<Pkg, seq<Pkg>>) {
    forall p, x :: x in RemovesOf(removes, p) ==> x in RemovesOf(removes0, p) || Granted(local, add, agree, p, x)
  }

  lemma TakesOneMore(local: seq<Pkg>, add: seq<Pkg>, agree: Conflict -> bool, removes0: map<Pkg, seq<Pkg>>, removes: map<Pkg, seq<Pkg>>,
                     p: Pkg, x: Pkg)
    requires TakesGranted(local, add, agree, removes0, removes) && Granted(local, add, agree, p, x)
    ensures TakesGranted(local, add, agree, removes0, removes[p := RemovesOf(removes, p) + [x]])
  {
    hide Granted;
  }

  /** The packages that a conflict names are the ones looked up by these names. */
  lemma SameLookup(pkgs: seq<Pkg>, p: Pkg, found: Pkg)
    requires DistinctNames(pkgs) && p in pkgs && found in pkgs && found.name == p.name
    ensures found == p
  {
    hide DistinctNames;
    if found != p { DifferentNames(pkgs, found, p); }
  }

  /** The loop over the conflicts with installed packages: the user agrees to remove each, or it ends. */
  method SettleOuter(handle: AlpmHandle, trans: Trans, agree: Conflict -> bool) returns (err: Option<PrepareError>)
    requires DistinctNames(handle.dbLocal) && DistinctNames(trans.add) && RemovesInstalled(trans.removes, handle.dbLocal)
    modifies trans`removes
    ensures TakesGranted(handle.dbLocal, trans.add, agree, old(trans.removes), trans.removes)
    ensures RemovesInstalled(trans.removes, handle.dbLocal)
    ensures forall p :: p in old(trans.removes) ==> p in trans.removes && old(trans.removes)[p] <= trans.removes[p]
    ensures err.None? ==> forall p, q :: !Standing(handle.dbLocal, trans.remove, trans.add, trans.removes, p, q)
    ensures err.Some? ==> err.value == ConflictingDeps &&
                          exists p, q :: Denied(handle.dbLocal, trans.remove, trans.add, trans.removes, agree, p, q)
  {
    hide HasName, DistinctNames, EitherConflicts, OuterReport, Elected, SubsetOf, TakesGranted, About;
    NothingTaken(handle.dbLocal, trans.add, agree, trans.removes);
    var deps := OuterConflicts(handle.dbLocal, trans.add);
    var i := 0;
    while i < |deps|
      invariant i <= |deps| && RemovesInstalled(trans.removes, handle.dbLocal)
      invariant forall p :: p in old(trans.removes) ==> p in trans.removes && old(trans.removes)[p] <= trans.removes[p]
      invariant forall k :: 0 <= k < i ==> Elected(trans.remove, trans.add, trans.removes, deps[k].package2)
      invariant TakesGranted(handle.dbLocal, trans.add, agree, old(trans.removes), trans.removes)
    {
      var conflict := deps[i];
      var found := IsElected(trans, conflict.package2);
      if !found {
        ghost var p, q := OuterNamed(handle.dbLocal, trans.add, deps, i);
        if !agree(conflict) {
          assert Denied(handle.dbLocal, trans.remove, trans.add, trans.removes, agree, p, q);
          return Some(ConflictingDeps);
        }
        var sync, local := FindPkg(trans.add, conflict.package1).value, FindPkg(handle.dbLocal, conflict.package2).value;
        ghost var before := trans.removes;
        var more := RemovesOf(trans.removes, sync) + [local];
        SameLookup(trans.add, p, sync);
        SameLookup(handle.dbLocal, q, local);
        assert Granted(handle.dbLocal, trans.add, agree, p, q);
        TakesOneMore(handle.dbLocal, trans.add, agree, old(trans.removes), trans.removes, sync, local);
        OneMoreInstalled(trans.removes, handle.dbLocal, sync, local);
        trans.removes := trans.removes[sync := more];
        forall k | 0 <= k < i ensures Elected(trans.remove, trans.add, trans.removes, deps[k].package2) {
          ElectedStays(trans.remove, trans.add, before, sync, more, deps[k].package2);
        }
        NowElected(trans.remove, trans.add, before, sync, local);
      }
      i := i + 1;
    }
    forall p, q ensures !Standing(handle.dbLocal, trans.remove, trans.add, trans.removes, p, q) {
      if p in trans.add && q in handle.dbLocal && !HasName(trans.add, q.name) && EitherConflicts(p, q) {
        OuterListed(handle.dbLocal, trans.add, deps, p, q);
      }
    }
    err := None;
  }

  lemma NothingTaken(local: seq<Pkg>, add: seq<Pkg>, agree: Conflict -> bool, removes: map<Pkg, seq<Pkg>>)
    ensures TakesGranted(local, add, agree, removes, removes)
  {
  }

  lemma OuterNamed(local: seq<Pkg>, add: seq<Pkg>, deps: seq<Conflict>, i: nat) returns (p: Pkg, q: Pkg)
    requires OuterReport(local, add, deps) && i < |deps|
    ensures HasName(add, deps[i].package1) && HasName(local, deps[i].package2)
    ensures p in add && q in local && !HasName(add, q.name) && EitherConflicts(p, q)
    ensures p.name == deps[i].package1 && q.name == deps[i].package2 && About(deps[i], p, q)
  {
    hide HasName, EitherConflicts, PairsDistinct, Listed, Clash;
    assert deps[i] in deps;
    p, q :| p in add && q in local && !HasName(add, q.name) && About(deps[i], p, q);
    AboutConflicts(deps[i], p, q);
    NamedMember(add, p);
    NamedMember(local, q);
  }

  lemma OneMoreInstalled(removes: map<Pkg, seq<Pkg>>, local: seq<Pkg>, p: Pkg, x: Pkg)
    requires RemovesInstalled(removes, local) && x in local
    ensures RemovesInstalled(removes[p := RemovesOf(removes, p) + [x]], local)
  {
  }

  lemma NowElected(remove: seq<Pkg>, add: seq<Pkg>, removes: map<Pkg, seq<Pkg>>, p: Pkg, x: Pkg)
    requires p in add
    ensures Elected(remove, add, removes[p := RemovesOf(removes, p) + [x]], x.name)
  {
    hide HasName;
    LastNamed(RemovesOf(removes, p), x);
  }

  lemma OuterListed(local: seq<Pkg>, add: seq<Pkg>, deps: seq<Conflict>, p: Pkg, q: Pkg)
    requires OuterReport(local, add, deps) && p in add && q in local && !HasName(add, q.name) && EitherConflicts(p, q)
    ensures exists k :: 0 <= k < |deps| && deps[k].package2 == q.name
  {
    hide HasName, EitherConflicts, PairsDistinct;
  }

  // ---- the removal list ----

  /** The removal list extended, name by name, by what the targets take over. */
  method BuildRemoveList(trans: Trans, ghost local: seq<Pkg>)
    requires DistinctNames(trans.remove) && SubsetOf(trans.remove, local) && RemovesInstalled(trans.removes, local)
    modifies trans`remove
    ensures DistinctNames(trans.remove) && SubsetOf(trans.remove, local) && old(trans.remove) <= trans.remove
    ensures forall name :: HasName(trans.remove, name) <==> Elected(old(trans.remove), trans.add, trans.removes, name)
    ensures forall x :: x in trans.remove ==> x in old(trans.remove) || exists p :: p in trans.add && x in RemovesOf(trans.removes, p)
  {
    hide HasName, DistinctNames, SubsetOf;
    ghost var remove0 := trans.remove;
    var i := 0;
    while i < |trans.add|
      invariant i <= |trans.add| && DistinctNames(trans.remove) && SubsetOf(trans.remove, local) && remove0 <= trans.remove
      invariant forall name :: HasName(trans.remove, name) <==>
                  HasName(remove0, name) || exists k :: 0 <= k < i && HasName(RemovesOf(trans.removes, trans.add[k]), name)
      invariant forall x :: x in trans.remove ==> x in remove0 || exists k :: 0 <= k < i && x in RemovesOf(trans.removes, trans.add[k])
    {
      ghost var before := trans.remove;
      RemovesSubset(trans.removes, local, trans.add[i]);
      AddRemoves(trans, RemovesOf(trans.removes, trans.add[i]), local);
      i := i + 1;
    }
  }

  lemma RemovesSubset(removes: map<Pkg, seq<Pkg>>, local: seq<Pkg>, p: Pkg)
    requires RemovesInstalled(removes, local)
    ensures SubsetOf(RemovesOf(removes, p), local)
  {
  }

  method AddRemoves(trans: Trans, rpkgs: seq<Pkg>, ghost local: seq<Pkg>)
    requires DistinctNames(trans.remove) && SubsetOf(trans.remove, local) && SubsetOf(rpkgs, local)
    modifies trans`remove
    ensures DistinctNames(trans.remove) && SubsetOf(trans.remove, local) && old(trans.remove) <= trans.remove
    ensures forall name :: HasName(trans.remove, name) <==> HasName(old(trans.remove), name) || HasName(rpkgs, name)
    ensures forall x :: x in trans.remove ==> x in old(trans.remove) || x in rpkgs
  {
    hide HasName, DistinctNames;
    forall name ensures !HasName(rpkgs[..0], name) { NoName(name); }
    var j := 0;
    while j < |rpkgs|
      invariant j <= |rpkgs| && DistinctNames(trans.remove) && SubsetOf(trans.remove, local) && old(trans.remove) <= trans.remove
      invariant forall name :: HasName(trans.remove, name) <==> HasName(old(trans.remove), name) || HasName(rpkgs[..j], name)
      invariant forall x :: x in trans.remove ==> x in old(trans.remove) || x in rpkgs
    {
      var rpkg := rpkgs[j];
      ghost var before := trans.remove;
      if FindPkg(trans.remove, rpkg.name).None? {
        FreshName(trans.remove, rpkg);
        trans.remove := trans.remove + [rpkg];
      }
      forall name ensures HasName(trans.remove, name) <==> HasName(old(trans.remove), name) || HasName(rpkgs[..j+1], name) {
        HasNameSnoc(rpkgs, j, name);
        if trans.remove != before { OneMoreName(before, rpkg, name); }
      }
      j := j + 1;
    }
    assert rpkgs[..|rpkgs|] == rpkgs;
  }

  lemma FreshName(s: seq<Pkg>, p: Pkg)
    requires DistinctNames(s) && !HasName(s, p.name)
    ensures DistinctNames(s + [p])
  {
  }

  lemma OneMoreName(s: seq<Pkg>, p: Pkg, name: string)
    ensures HasName(s + [p], name) <==> HasName(s, name) || p.name == name
  {
    assert (s + [p])[..|s|] == s && (s + [p])[..|s|+1] == s + [p];
    HasNameSnoc(s + [p], |s|, name);
  }

  // ---- _alpm_sync_prepare ----

  /** The query of the last check. */
  function PlanQuery(handle: AlpmHandle, trans: Trans): Query
    reads handle, trans
  {
    Query(handle.dbLocal, trans.remove, trans.add, true, trans.flags.nodepversion, handle.assumeinstalled)
  }

  /** The targets, once settled with each other and with what is installed, conflict with nothing that stays. */
  lemma ConflictsSettled(q: Query, remove0: seq<Pkg>, removes: map<Pkg, seq<Pkg>>)
    requires forall p, r :: p in q.upgrade && r in q.upgrade ==> !ConflictsWith(p, r)
    requires forall p, r :: !Standing(q.pkglist, remove0, q.upgrade, removes, p, r)
    requires forall name :: HasName(q.rem, name) <==> Elected(remove0, q.upgrade, removes, name)
    ensures NoConflicts(q)
  {
    hide HasName, ConflictsWith, Elected, Keep;
    forall p, r | p in q.upgrade && r in FinalSet(q) ensures !EitherConflicts(p, r) {
      if r !in q.upgrade { assert r in Untouched(q) && !Standing(q.pkglist, remove0, q.upgrade, removes, p, r); }
    }
  }

  method RecordOldpkgs(handle: AlpmHandle, trans: Trans)
    modifies trans`oldpkg
    ensures forall p :: p in trans.add ==> if p in trans.oldpkg then trans.oldpkg[p].name == p.name && trans.oldpkg[p] in handle.dbLocal
                                           else !HasName(handle.dbLocal, p.name)
  {
    hide HasName;
    var oldpkg: map<Pkg, Pkg> := map[];
    var i := 0;
    while i < |trans.add|
      invariant i <= |trans.add|
      invariant forall p :: p in oldpkg ==> oldpkg[p].name == p.name && oldpkg[p] in handle.dbLocal
      invariant forall k :: 0 <= k < i && trans.add[k] !in oldpkg ==> !HasName(handle.dbLocal, trans.add[k].name)
    {
      var lpkg := FindPkg(handle.dbLocal, trans.add[i].name);
      if lpkg.Some? { oldpkg := oldpkg[trans.add[i] := lpkg.value]; }
      i := i + 1;
    }
    trans.oldpkg := oldpkg;
  }

  /** Whether the part about dependencies applies, and likewise for conflicts. */
  ghost predicate Plan(q: Query, flags: Flags) {
    && (!flags.nodeps ==> Clean(q))
    && (!flags.noconflicts ==> NoConflicts(q))
  }

  /** A conflict that could not be settled. */
  ghost predicate InConflict(local: seq<Pkg>, remove: seq<Pkg>, add: seq<Pkg>, removes: map<Pkg, seq<Pkg>>, agree: Conflict -> bool) {
    (exists p, q :: Irreconcilable(add, p, q)) || (exists p, q :: Denied(local, remove, add, removes, agree, p, q))
  }

  /** The conflict part of `_alpm_sync_prepare`. */
  method SettleConflicts(handle: AlpmHandle, trans: Trans, agree: Conflict -> bool, ghost targets: seq<Pkg>) returns (err: Option<PrepareError>)
    requires DistinctNames(handle.dbLocal) && RemovesInstalled(trans.removes, handle.dbLocal)
    requires DistinctNames(trans.add) && Accounted(targets, trans.add, trans.unresolvable)
    modifies trans`add, trans`unresolvable, trans`removes
    ensures RemovesInstalled(trans.removes, handle.dbLocal)
    ensures Narrowed(targets, old(trans.add), old(trans.unresolvable), trans.add, trans.unresolvable)
    ensures TakesGranted(handle.dbLocal, trans.add, agree, old(trans.removes), trans.removes)
    ensures err.None? ==> (forall p, r :: p in trans.add && r in trans.add ==> !ConflictsWith(p, r))
    ensures err.None? ==> forall p, r :: !Standing(handle.dbLocal, trans.remove, trans.add, trans.removes, p, r)
    ensures err.Some? ==> err.value == ConflictingDeps && InConflict(handle.dbLocal, trans.remove, trans.add, trans.removes, agree)
  {
    hide HasName, DistinctNames, Accounted, ConflictsWith, Standing, Denied, Irreconcilable, RemovesInstalled, Narrowed, TakesGranted;
    NothingTaken(handle.dbLocal, trans.add, agree, trans.removes);
    err := SettleInner(trans, targets);
    NarrowedNames(targets, old(trans.add), old(trans.unresolvable), trans.add, trans.unresolvable);
    if err.None? {
      err := SettleOuter(handle, trans, agree);
    } else {
      NothingTaken(handle.dbLocal, trans.add, agree, trans.removes);
    }
  }

  lemma NarrowedNames(targets: seq<Pkg>, add0: seq<Pkg>, aside0: seq<Pkg>, add: seq<Pkg>, unresolvable: seq<Pkg>)
    requires Narrowed(targets, add0, aside0, add, unresolvable)
    ensures DistinctNames(add)
  {
    hide DistinctNames, DistinctFiles, Accounted, Outdone, Dropped;
  }

  // ---- what the plan has to do with what was asked ----

  /** What the caller asked for: the targets, the removals, and what the targets take over. */
  datatype Request = Request(targets: seq<Pkg>, remove: seq<Pkg>, removes: map<Pkg, seq<Pkg>>, aside: seq<Pkg>)

  function RequestOf(trans: Trans): Request
    reads trans
  {
    Request(trans.add, trans.remove, trans.removes, trans.unresolvable)
  }

  /** The first part leaves the requested targets, or the resolved ones and those that could not be resolved. */
  ghost predicate FirstPart(s: Setting, flags: Flags, answers: Answers, r: Request, add0: seq<Pkg>, aside0: seq<Pkg>) {
    if flags.nodeps then add0 == r.targets && aside0 == r.aside
    else Chosen(s, add0, aside0) && (aside0 != [] ==> answers.skip) && forall p :: p in aside0 ==> p in r.targets && Stuck(s, p)
  }

  /** The second part drops what is outdone. */
  ghost predicate SecondPart(flags: Flags, add0: seq<Pkg>, aside0: seq<Pkg>, add: seq<Pkg>, unresolvable: seq<Pkg>) {
    if flags.noconflicts then add == add0 && unresolvable == aside0 else Dropped(add0, aside0, add, unresolvable)
  }

  /** The targets of the plan are the requested ones and what they need, without those that another target outdid; none
      is lost, each one set aside could not be resolved or was outdone, and what nobody requested is a dependency. */
  ghost predicate TargetsTraced(s: Setting, flags: Flags, answers: Answers, r: Request, add: seq<Pkg>, unresolvable: seq<Pkg>) {
    && Accounted(r.targets, add, unresolvable) && (!flags.nodeps ==> ReasonsSet(s, add))
    && exists add0, aside0 :: FirstPart(s, flags, answers, r, add0, aside0) && SecondPart(flags, add0, aside0, add, unresolvable)
  }

  /** A removal of the plan was requested, or is taken over by a target, from the start or because it opposes it. */
  ghost predicate RemovalCaused(local: seq<Pkg>, flags: Flags, agree: Conflict -> bool, r: Request, add: seq<Pkg>, x: Pkg) {
    x in r.remove || exists p :: p in add && (x in RemovesOf(r.removes, p) || (!flags.noconflicts && Granted(local, add, agree, p, x)))
  }

  ghost predicate Traced(s: Setting, flags: Flags, answers: Answers, r: Request, add: seq<Pkg>, remove: seq<Pkg>, unresolvable: seq<Pkg>) {
    && TargetsTraced(s, flags, answers, r, add, unresolvable)
    && r.remove <= remove && forall x :: x in remove ==> RemovalCaused(s.local, flags, answers.agree, r, add, x)
  }

  /** The error is there for the reason it names. */
  ghost predicate Warranted(s: Setting, flags: Flags, answers: Answers, r: Request, e: PrepareError, data: seq<Missing>, q: Query,
                            unresolvable: seq<Pkg>, removes: map<Pkg, seq<Pkg>>) {
    match e
    case DbInvalid => exists i: nat :: FirstBad(s.sync, s.preferred, i) && s.sync[i].invalid
    case DbNotFound => exists i: nat :: FirstBad(s.sync, s.preferred, i) && !s.sync[i].invalid
    case DupFilename => !flags.nodeps && SharedFile(s.preferred, s.sync)
    case UnsatisfiedDeps =>
      !flags.nodeps && data != [] &&
      ((!answers.skip && Unresolved(s, data) && ReportsAll(s, data)) || (data == Report(q) && Traced(s, flags, answers, r, q.upgrade, q.rem, unresolvable)))
    case ConflictingDeps =>
      && !flags.noconflicts && InConflict(s.local, q.rem, q.upgrade, removes, answers.agree)
      && TargetsTraced(s, flags, answers, r, q.upgrade, unresolvable)
      && q.rem == r.remove && TakesGranted(s.local, q.upgrade, answers.agree, r.removes, removes)
  }

  lemma AllTargetsTraced(s: Setting, flags: Flags, answers: Answers, r: Request, add0: seq<Pkg>, aside0: seq<Pkg>, add: seq<Pkg>,
                         unresolvable: seq<Pkg>)
    requires if flags.nodeps then add0 == r.targets && aside0 == r.aside
             else s.preferred == r.targets && Retargeted(s, add0, aside0) && (aside0 != [] ==> answers.skip)
    requires if flags.noconflicts then add == add0 && unresolvable == aside0 && Accounted(r.targets, add, unresolvable)
             else Narrowed(r.targets, add0, aside0, add, unresolvable)
    ensures TargetsTraced(s, flags, answers, r, add, unresolvable)
  {
    hide DistinctNames, DistinctFiles, Accounted, Chosen, Stuck, Outdone, HasName, Offered;
    assert SubsetOf(add, add0);
    assert FirstPart(s, flags, answers, r, add0, aside0) && SecondPart(flags, add0, aside0, add, unresolvable);
  }

  lemma RemovalsCaused(local: seq<Pkg>, flags: Flags, agree: Conflict -> bool, r: Request, add: seq<Pkg>,
                       removes: map<Pkg, seq<Pkg>>, remove: seq<Pkg>)
    requires if flags.noconflicts then removes == r.removes else TakesGranted(local, add, agree, r.removes, removes)
    requires forall x :: x in remove ==> x in r.remove || exists p :: p in add && x in RemovesOf(removes, p)
    ensures forall x :: x in remove ==> RemovalCaused(local, flags, agree, r, add, x)
  {
    hide Granted;
  }

  /** `_alpm_sync_prepare` */
  method SyncPrepare(handle: AlpmHandle, trans: Trans, answers: Answers) returns (err: Option<PrepareError>, data: seq<Missing>)
    requires DistinctNames(handle.dbLocal) && DistinctNames(trans.add) && DistinctNames(trans.remove)
    requires SubsetOf(trans.remove, handle.dbLocal) && RemovesInstalled(trans.removes, handle.dbLocal)
    modifies trans`add, trans`unresolvable, trans`remove, trans`removes, trans`oldpkg
    ensures (err == Some(DbInvalid) || err == Some(DbNotFound)) <==> !DatabasesReady(handle.dbsSync, old(trans.add))
    ensures err.Some? ==>
              Warranted(old(TargetSetting(handle, trans)), trans.flags, answers, old(RequestOf(trans)), err.value, data,
                        PlanQuery(handle, trans), trans.unresolvable, trans.removes)
    ensures err != Some(UnsatisfiedDeps) ==> Unresolved(old(TargetSetting(handle, trans)), data)
    ensures err.None? ==> Plan(PlanQuery(handle, trans), trans.flags)
    ensures err.None? ==> DistinctNames(trans.add) && DistinctNames(trans.remove) && SubsetOf(trans.remove, handle.dbLocal)
    ensures err.None? ==>
              Traced(old(TargetSetting(handle, trans)), trans.flags, answers, old(RequestOf(trans)), trans.add, trans.remove, trans.unresolvable)
    ensures err.None? && !trans.flags.nodeps ==> DistinctFiles(trans.add)
    ensures err.None? ==> forall p :: p in trans.add ==>
              if p in trans.oldpkg then trans.oldpkg[p].name == p.name && trans.oldpkg[p] in handle.dbLocal
              else !HasName(handle.dbLocal, p.name)
  {
    hide HasName, DistinctNames, DistinctFiles, Accounted, ConflictsWith, EitherConflicts, Elected, RemovesInstalled, Narrowed, SubsetOf,
         Clean, NoConflicts, DatabasesReady, InConflict, Standing, SharedFile, Reported, Report, TakesGranted, Retargeted,
         TargetsTraced, RemovalCaused, Unresolved, ReportsAll, FirstBad, Difference, ListedRemoves;
    data := [];
    ghost var local, s, r := handle.dbLocal, TargetSetting(handle, trans), RequestOf(trans);
    NothingYet(s);
    err := CheckDatabases(handle, trans);
    if err.Some? { return; }
    TargetsAccounted(r.targets, trans.unresolvable);
    if !trans.flags.nodeps {
      err, data := ResolveTargets(handle, trans, answers.skip);
      if err.Some? { return; }
      RetargetedParts(s, trans.add, trans.unresolvable);
    }
    ghost var add0, aside0 := trans.add, trans.unresolvable;
    if !trans.flags.noconflicts {
      err := SettleConflicts(handle, trans, answers.agree, r.targets);
      NarrowedParts(r.targets, add0, aside0, trans.add, trans.unresolvable);
    }
    AllTargetsTraced(s, trans.flags, answers, r, add0, aside0, trans.add, trans.unresolvable);
    if err.Some? { return; }
    BuildRemoveList(trans, local);
    RemovalsCaused(local, trans.flags, answers.agree, r, trans.add, trans.removes, trans.remove);
    ghost var q := PlanQuery(handle, trans);
    if !trans.flags.noconflicts {
      ConflictsSettled(q, r.remove, trans.removes);
    }
    if !trans.flags.nodeps {
      var deps := CheckDeps(PlanQuery(handle, trans));
      if deps != [] { return Some(UnsatisfiedDeps), deps; }
    }
    RecordOldpkgs(handle, trans);
    err := None;
  }

  lemma TargetsAccounted(targets: seq<Pkg>, unresolvable: seq<Pkg>)
    ensures Accounted(targets, targets, unresolvable)
  {
    hide HasName;
    forall t | t in targets ensures HasName(targets, t.name) { NamedMember(targets, t); }
  }

  lemma RetargetedParts(s: Setting, add: seq<Pkg>, unresolvable: seq<Pkg>)
    requires Retargeted(s, add, unresolvable)
    ensures DistinctNames(add) && DistinctFiles(add) && Accounted(s.preferred, add, unresolvable)
  {
    hide DistinctNames, DistinctFiles, Accounted, Chosen, Stuck, ReasonsSet;
  }

  lemma NarrowedParts(targets: seq<Pkg>, add0: seq<Pkg>, aside0: seq<Pkg>, add: seq<Pkg>, unresolvable: seq<Pkg>)
    requires Narrowed(targets, add0, aside0, add, unresolvable)
    ensures DistinctNames(add) && (DistinctFiles(add0) ==> DistinctFiles(add)) && Accounted(targets, add, unresolvable)
  {
    hide DistinctNames, DistinctFiles, Accounted, Outdone, Dropped;
  }

  /** A plan prepared with dependency checks, versions and conflict checks leaves a consistent system,
      whatever the user answered. */
  lemma PreparedIsConsistent(q: Query, flags: Flags)
    requires Plan(q, flags) && q.reversedeps && q.nodepversion == flags.nodepversion
    requires !flags.nodeps && !flags.nodepversion && !flags.noconflicts
    ensures TargetsMet(q) && NothingBroken(q) && NoConflicts(q)
  {
    hide Clean, TargetsMet, NothingBroken, NoConflicts;
    CheckIsExact(q);
  }
}
