/** Transactions: the states they go through, and what a prepared plan leaves behind when it is carried out. */
module Trans {
  import opened Common
  import opened DepString
  import opened Package
  import opened PkgLists
  import opened Deps
  import opened DepGraph
  import opened DepOrder
  import SortByDeps
  import opened Handle
  import opened Remove
  import opened RemoveCommit
  import opened ResolveDeps
  import opened Conflict
  import opened Sync
  import opened Upgrade

  datatype TransError = TransNull | TransNotNull | HandleLock | NotInitialized | NotPrepared | NotLocked | WrongState
                      | InvalidArch | PrepareFailed(cause: PrepareError) | CommitFailed

  ghost function TransOf(handle: AlpmHandle): set<object>
    reads handle
  {
    if handle.trans == null then {} else {handle.trans}
  }

  // ---- the prepared plan ----

  /** What preparing leaves: `remove` and `add` are the checked lists `rem0` and `add0`, sorted unless
      dependencies are ignored. */
  ghost predicate PreparedPlan(q: Query, flags: Flags, remove: seq<Pkg>, add: seq<Pkg>, oldpkg: map<Pkg, Pkg>) {
    && DistinctNames(q.pkglist) && DistinctNames(q.rem) && SubsetOf(q.rem, q.pkglist) && DistinctNames(q.upgrade)
    && q.reversedeps && q.nodepversion == flags.nodepversion
    && OldRecorded(q, q.upgrade, oldpkg)
    && (!flags.nodeps && !flags.nodepversion ==> Clean(q))
    && (q.upgrade != [] && !flags.noconflicts ==> NoConflicts(q))
    && Arranged(q, flags, remove, add)
  }

  ghost predicate Arranged(q: Query, flags: Flags, remove: seq<Pkg>, add: seq<Pkg>) {
    if flags.nodeps then remove == q.rem && add == q.upgrade
    else
      && SortedByDeps(GraphNodes(q.pkglist, q.upgrade, q.rem), q.upgrade, false, add)
      && SortedByDeps(GraphNodes(q.pkglist, q.rem, []), q.rem, true, remove)
  }

  lemma ArrangedMembers(q: Query, flags: Flags, remove: seq<Pkg>, add: seq<Pkg>)
    requires Arranged(q, flags, remove, add) && DistinctNames(q.upgrade) && DistinctNames(q.rem)
    ensures multiset(add) == multiset(q.upgrade) && multiset(remove) == multiset(q.rem)
    ensures DistinctNames(add) && Distinct(add) && (forall x :: x in add <==> x in q.upgrade)
    ensures DistinctNames(remove) && (forall x :: x in remove <==> x in q.rem)
  {
    hide GraphNodes, DistinctNames, DependenciesLead;
    NamesPermute(q.upgrade, add);
    NamesPermute(q.rem, remove);
    NamesApartDistinct(q.upgrade);
    NamesApartDistinct(q.rem);
    PermutedDistinct(add, q.upgrade);
    PermutedDistinct(remove, q.rem);
  }

  /** The safety of every step of a removal: nothing that is still installed has lost a dependency. */
  lemma RemovalStepsAreSafe(q: Query, flags: Flags, remove: seq<Pkg>, oldpkg: map<Pkg, Pkg>, done: nat)
    requires PreparedPlan(q, flags, remove, [], oldpkg) && !flags.nodeps && !flags.nodepversion
    requires Acyclic(q.pkglist) && done <= |remove|
    ensures KeepsSupport(q.pkglist, Left(q.pkglist, remove[..done]), q.assumed)
  {
    hide GraphNodes, DistinctNames, DependenciesLead, Clean, NoConflicts, Acyclic, SortedByDeps, KeepsSupport, OldRecorded;
    ArrangedMembers(q, flags, remove, []);
    assert q.upgrade == [] by { assert |multiset(q.upgrade)| == 0; }
    EveryStepKeeps(q.pkglist, q.rem, remove, q.assumed, done);
  }

  /** The safety of every stage of an installation: the targets already put in have all they need. */
  lemma InstallStagesAreSafe(q: Query, flags: Flags, remove: seq<Pkg>, add: seq<Pkg>, oldpkg: map<Pkg, Pkg>,
                             gone: nat, put: nat, now: seq<Pkg>)
    requires PreparedPlan(q, flags, remove, add, oldpkg) && !flags.nodeps && !flags.nodepversion
    requires Acyclic(GraphNodes(q.pkglist, q.upgrade, q.rem)) && put <= gone <= |add| && Stage(q, add, gone, put, now)
    ensures PutAreMet(add, put, now, q.assumed)
  {
    hide DistinctNames, DependenciesLead, Clean, NoConflicts, Acyclic, SortedByDeps, PutAreMet, OldRecorded, Stage;
    ArrangedMembers(q, flags, remove, add);
    EveryStageMeets(q, add, GraphNodes(q.pkglist, q.upgrade, q.rem), gone, put, now);
  }

  /** The promise of a finished installation: what is installed is the plan's final set with the reasons due to the
      targets, these have all they need, no package that stays has lost a dependency, and no target conflicts with
      another installed package. */
  ghost predicate Consistent(q: Query, flags: Flags, now: seq<Pkg>) {
    && AtEnd(q, flags, now)
    && (!flags.nodeps && !flags.nodepversion ==>
          (forall p, d :: p in q.upgrade && d in p.depends ==> Supported(now, q.assumed, d)) &&
          (forall u, d :: u in Untouched(q) && d in u.depends && Supported(q.pkglist, q.assumed, d) ==> Supported(now, q.assumed, d)))
    && (!flags.noconflicts ==> forall p, x :: p in q.upgrade && x in now ==> !EitherConflicts(p, x))
  }

  lemma MetaConflicts(p: Pkg, r: Pkg, x: Pkg)
    requires SameMeta(r, x) && EitherConflicts(p, x)
    ensures EitherConflicts(p, r)
  {
    hide DepCmp;
    if c :| Clash(p, c, x) {
      MetaSatisfies(r, x, c);
      assert Clash(p, c, r);
    } else {
      var c :| Clash(x, c, p);
      assert Clash(r, c, p);
    }
  }

  lemma FinishedIsConsistent(q: Query, flags: Flags, remove: seq<Pkg>, add: seq<Pkg>, oldpkg: map<Pkg, Pkg>, now: seq<Pkg>)
    requires PreparedPlan(q, flags, remove, add, oldpkg) && add != [] && Stage(q, add, |add|, |add|, now)
    requires ReasonsDue(q, flags, add, |add|, now)
    ensures Consistent(q, flags, now)
  {
    hide DistinctNames, Clean, Stage, SortedByDeps, GraphNodes, EitherConflicts, Holds, SameMeta, FinalSet, Untouched, Supported, OldRecorded,
         AtEnd, ReasonsDue;
    ArrangedMembers(q, flags, remove, add);
    FinishedIsFinal(q, flags, add, now);
    AtEndHolds(q, flags, now);
    assert q.upgrade != [] by { assert add[0] in add && add[0] in q.upgrade; }
    if !flags.nodeps && !flags.nodepversion {
      CheckIsExact(q);
      forall d | Supported(FinalSet(q), q.assumed, d) ensures Supported(now, q.assumed, d) { FinalSupports(q, now, d); }
    }
    if !flags.noconflicts {
      forall p, x | p in q.upgrade && x in now ensures !EitherConflicts(p, x) {
        var r :| r in FinalSet(q) && SameMeta(r, x);
        if EitherConflicts(p, x) { MetaConflicts(p, r, x); }
      }
    }
  }

  // ---- alpm_trans_init, alpm_trans_prepare ----

  /** `alpm_trans_init`; `lockable` says whether the database lock can be taken. */
  method TransInit(handle: AlpmHandle, flags: Flags, lockable: bool) returns (err: Option<TransError>)
    modifies handle`trans
    ensures err == if old(handle.trans) != null then Some(TransNotNull)
                   else if !flags.nolock && !lockable then Some(HandleLock) else None
    ensures err.Some? ==> handle.trans == old(handle.trans)
    ensures err.None? ==> handle.trans != null && fresh(handle.trans) && handle.trans.flags == flags &&
                          handle.trans.state == Initialized && handle.trans.add == handle.trans.remove == []
  {
    if handle.trans != null { return Some(TransNotNull); }
    if !flags.nolock {
      if !lockable { return Some(HandleLock); }
    }
    var trans := new Handle.Trans(flags);
    handle.trans := trans;
    err := None;
  }

  /** `check_arch`, given which packages have an acceptable architecture. */
  method CheckArch(pkgs: seq<Pkg>, rightArch: Pkg -> bool) returns (invalid: seq<Pkg>)
    ensures invalid == Keep(pkgs, p => !rightArch(p))
  {
    invalid := [];
    var i := 0;
    while i < |pkgs|
      invariant i <= |pkgs| && invalid == Keep(pkgs[..i], p => !rightArch(p))
    {
      assert pkgs[..i+1][..i] == pkgs[..i];
      if !rightArch(pkgs[i]) { invalid := invalid + [pkgs[i]]; }
      i := i + 1;
    }
    assert pkgs[..|pkgs|] == pkgs;
  }

  /** The lists as they are put in order at the end of `alpm_trans_prepare`. */
  method SortLists(handle: AlpmHandle, trans: Handle.Trans, ghost q: Query)
    requires q.pkglist == handle.dbLocal && q.rem == trans.remove && q.upgrade == trans.add
    requires DistinctNames(q.pkglist) && DistinctNames(q.rem) && DistinctNames(q.upgrade)
    modifies trans`add, trans`remove
    ensures Arranged(q, trans.flags, trans.remove, trans.add)
  {
    hide DistinctNames, SortedByDeps, GraphNodes;
    if !trans.flags.nodeps {
      var add, remove := trans.add, trans.remove;
      NothingSorted(GraphNodes(q.pkglist, q.upgrade, q.rem), false);
      NothingSorted(GraphNodes(q.pkglist, q.rem, []), true);
      if trans.add != [] {
        add := SortByDeps.SortByDeps(handle.dbLocal, trans.add, trans.remove, false);
      }
      if trans.remove != [] {
        remove := SortByDeps.SortByDeps(handle.dbLocal, trans.remove, [], true);
      }
      trans.add, trans.remove := add, remove;
    }
  }

  lemma NothingSorted(nodes: seq<Pkg>, reverse: bool)
    ensures SortedByDeps(nodes, [], reverse, [])
  {
    EmptyLeads(nodes);
  }

  /** What the caller of `alpm_trans_prepare` has put into the transaction. */
  ghost predicate ValidTargets(handle: AlpmHandle, trans: Handle.Trans)
    reads handle, trans
  {
    && DistinctNames(handle.dbLocal) && DistinctNames(trans.add) && DistinctNames(trans.remove)
    && SubsetOf(trans.remove, handle.dbLocal) && RemovesInstalled(trans.removes, handle.dbLocal)
  }

  /** The removal breaks something, and no flag says what to do about it. */
  ghost predicate RefusedRemoval(handle: AlpmHandle, trans: Handle.Trans)
    reads handle, trans
  {
    && !trans.flags.nodeps && !trans.flags.cascade && !trans.flags.unneeded
    && !Clean(RemovalQuery(handle.dbLocal, trans.remove, trans.flags.nodepversion, handle.assumeinstalled))
  }

  /** What a removal has to do with its targets: recursing and the dependency check in the order that the flags say. */
  ghost predicate RemovalTraced(local: seq<Pkg>, flags: Flags, assumed: seq<Depend>, targs: seq<Pkg>, rem: seq<Pkg>, refused: bool) {
    exists base, mid ::
      && Recursed(local, flags, flags.recurse && !flags.cascade, targs, base)
      && Checked(local, flags, assumed, base, mid, refused)
      && if refused then rem == mid else Recursed(local, flags, flags.recurse && flags.cascade, mid, rem)
  }

  /** What the flags of a removal mean for the caller. Unless the needed targets are to be kept, every target goes; without
      recursing and cascading nothing else does; only a cascade or `recurseall` takes explicitly installed packages
      along; recursing leaves no orphans. */
  lemma RemovalMeans(local: seq<Pkg>, flags: Flags, assumed: seq<Depend>, targs: seq<Pkg>, rem: seq<Pkg>)
    requires RemovalTraced(local, flags, assumed, targs, rem, false) && DistinctNames(local) && SubsetOf(targs, local)
    ensures flags.nodeps || flags.cascade || !flags.unneeded ==> SubsetOf(targs, rem)
    ensures !flags.recurse && (flags.nodeps || !flags.cascade) ==> SubsetOf(rem, targs)
    ensures !flags.recurseall && (flags.nodeps || !flags.cascade) ==> forall q :: q in rem ==> q in targs || q.reason == AsDependency
    ensures flags.recurse && (flags.nodeps || flags.cascade || !flags.unneeded) ==> NoOrphans(local, rem, flags.recurseall)
  {
    hide DistinctNames, Clean, KeptRounds, DroppedAsNeeded, Recursed, NoOrphans;
    var base, mid :|
      Recursed(local, flags, flags.recurse && !flags.cascade, targs, base) && Checked(local, flags, assumed, base, mid, false) &&
      Recursed(local, flags, flags.recurse && flags.cascade, mid, rem);
    RecursedGrows(local, flags, flags.recurse && !flags.cascade, targs, base);
    RecursedGrows(local, flags, flags.recurse && flags.cascade, mid, rem);
    if !flags.recurseall {
      AddsNoExplicit(local, flags, flags.recurse && !flags.cascade, targs, base);
      AddsNoExplicit(local, flags, flags.recurse && flags.cascade, mid, rem);
    }
    if flags.recurse && !flags.cascade { RecursingLeavesNoOrphans(local, flags, targs, base); }
    if flags.recurse && flags.cascade { RecursingLeavesNoOrphans(local, flags, mid, rem); }
  }

  /** Preparing a removal, up to the sorting. */
  method PrepareRemoval(handle: AlpmHandle, trans: Handle.Trans) returns (ok: bool, data: seq<Missing>)
    requires ValidTargets(handle, trans) && trans.add == []
    modifies trans`remove
    ensures RemovalTraced(handle.dbLocal, trans.flags, handle.assumeinstalled, old(trans.remove), trans.remove, !ok)
    ensures ok ==> DistinctNames(trans.remove) && SubsetOf(trans.remove, handle.dbLocal)
    ensures ok && !trans.flags.nodeps && !trans.flags.nodepversion ==> Clean(PlanQuery(handle, trans))
    ensures if ok then data == [] else RefusedRemoval(handle, trans) && data == Report(PlanQuery(handle, trans))
  {
    hide DistinctNames, Clean, Checked, Recursed, SubsetOf, Report;
    var ret;
    ghost var base, mid;
    ret, data, base, mid := RemovePrepare(handle, trans);
    ok := ret != -1;
    if !ok { RefusalMeans(handle.dbLocal, trans.flags, handle.assumeinstalled, base, mid); }
    if ok && !trans.flags.nodeps && !trans.flags.nodepversion {
      PreparedIsClean(handle.dbLocal, trans.flags, handle.assumeinstalled, base, mid, trans.remove);
    }
  }

  lemma RefusalMeans(local: seq<Pkg>, flags: Flags, assumed: seq<Depend>, base: seq<Pkg>, mid: seq<Pkg>)
    requires Checked(local, flags, assumed, base, mid, true)
    ensures mid == base && !flags.nodeps && !flags.cascade && !flags.unneeded
    ensures !Clean(RemovalQuery(local, base, flags.nodepversion, assumed))
  {
    hide Clean;
  }

  /** The transaction can be prepared, and there is something to do. */
  ghost predicate Preparable(handle: AlpmHandle)
    reads handle, TransOf(handle)
  {
    handle.trans != null && handle.trans.state == Initialized && (handle.trans.add != [] || handle.trans.remove != [])
  }

  /** What preparing an installation leaves, or why it fails. */
  ghost predicate SyncPrepared(s: Setting, flags: Flags, answers: Answers, r: Request, err: Option<TransError>, data: seq<Missing>, q: Query,
                               unresolvable: seq<Pkg>, removes: map<Pkg, seq<Pkg>>) {
    if err.None? then Traced(s, flags, answers, r, q.upgrade, q.rem, unresolvable) && Unresolved(s, data)
    else err.value.PrepareFailed? && Warranted(s, flags, answers, r, err.value.cause, data, q, unresolvable, removes)
  }

  /** What preparing a removal leaves, or why it fails. */
  ghost predicate RemovalPrepared(flags: Flags, targs: seq<Pkg>, err: Option<TransError>, data: seq<Missing>, q: Query) {
    && RemovalTraced(q.pkglist, flags, q.assumed, targs, q.rem, err.Some?) && q.upgrade == []
    && if err.None? then data == [] else err.value == PrepareFailed(UnsatisfiedDeps) && data == Report(q) && data != []
  }

  /** `alpm_trans_prepare`; `rightArch` says which packages have an acceptable architecture. `q` holds the lists
      before they are sorted. */
  method TransPrepare(handle: AlpmHandle, rightArch: Pkg -> bool, answers: Answers)
    returns (err: Option<TransError>, data: seq<Missing>, ghost q: Query)
    requires handle.trans != null ==> ValidTargets(handle, handle.trans)
    modifies TransOf(handle)
    ensures err == Some(TransNull) <==> handle.trans == null
    ensures err == Some(NotInitialized) <==> handle.trans != null && old(handle.trans.state) != Initialized
    ensures err == Some(InvalidArch) <==> old(Preparable(handle)) && exists p :: p in old(handle.trans.add) && !rightArch(p)
    ensures handle.trans != null ==>
              handle.trans.state == if err.None? && old(Preparable(handle)) then Prepared else old(handle.trans.state)
    ensures handle.trans != null && old(handle.trans.state) == Initialized && !old(Preparable(handle)) ==>
              err.None? && handle.trans.add == handle.trans.remove == []
    ensures old(Preparable(handle)) && err != Some(InvalidArch) ==>
              q.pkglist == handle.dbLocal && q.assumed == handle.assumeinstalled && (err.Some? ==> q == PlanQuery(handle, handle.trans))
    ensures old(Preparable(handle)) && err != Some(InvalidArch) && old(handle.trans.add) == [] ==>
              RemovalPrepared(handle.trans.flags, old(handle.trans.remove), err, data, q)
    ensures old(Preparable(handle)) && err != Some(InvalidArch) && old(handle.trans.add) != [] ==>
              SyncPrepared(old(TargetSetting(handle, handle.trans)), handle.trans.flags, answers, old(RequestOf(handle.trans)), err, data, q,
                           handle.trans.unresolvable, handle.trans.removes)
    ensures old(Preparable(handle)) && err.None? ==>
              PreparedPlan(q, handle.trans.flags, handle.trans.remove, handle.trans.add, handle.trans.oldpkg)
  {
    hide DistinctNames, Clean, SubsetOf, Arranged, OldRecorded, NoConflicts, RemovesInstalled, Keep, RemovalTraced, Traced, Warranted,
         RefusedRemoval, Report, TargetSetting, DatabasesReady, DistinctFiles;
    data, q := [], Query(handle.dbLocal, [], [], true, false, handle.assumeinstalled);
    var trans := handle.trans;
    if trans == null { return Some(TransNull), data, q; }
    if trans.state != Initialized { return Some(NotInitialized), data, q; }
    if trans.add == [] && trans.remove == [] { return None, data, q; }
    var invalid := CheckArch(trans.add, rightArch);
    assert invalid != [] ==> invalid[0] in trans.add && !rightArch(invalid[0]);
    if invalid != [] { return Some(InvalidArch), data, q; }
    if trans.add == [] {
      var ok;
      ok, data := PrepareRemoval(handle, trans);
      q := PlanQuery(handle, trans);
      if !ok {
        RefusalReports(q, handle, trans);
        return Some(PrepareFailed(UnsatisfiedDeps)), data, q;
      }
      NothingRecorded(q, trans.oldpkg);
    } else {
      var failed;
      failed, data := SyncPrepare(handle, trans, answers);
      q := PlanQuery(handle, trans);
      if failed.Some? { return Some(PrepareFailed(failed.value)), data, q; }
      OldVersionsRecorded(q, trans.add, trans.oldpkg);
    }
    SortLists(handle, trans, q);
    trans.state := Prepared;
    err := None;
  }

  lemma RefusalReports(q: Query, handle: AlpmHandle, trans: Handle.Trans)
    requires q == PlanQuery(handle, trans) && trans.add == [] && RefusedRemoval(handle, trans)
    ensures Report(q) != []
  {
    hide Clean, Report, Reported;
    CleanIff(q);
    var m :| Reported(q, m);
    ReportMembers(q, m);
  }

  lemma NothingRecorded(q: Query, oldpkg: map<Pkg, Pkg>)
    ensures OldRecorded(q, [], oldpkg) && DistinctNames([])
  {
  }

  lemma OldVersionsRecorded(q: Query, add: seq<Pkg>, oldpkg: map<Pkg, Pkg>)
    requires forall p :: p in add ==> if p in oldpkg then oldpkg[p].name == p.name && oldpkg[p] in q.pkglist
                                      else !HasName(q.pkglist, p.name)
    ensures OldRecorded(q, add, oldpkg)
  {
    hide HasName;
  }

  // ---- alpm_trans_commit ----

  /** What happens while a plan is carried out: whether the files are downloaded and valid, what reading them gives,
      whether the check of files and space passes, whether the hooks do, before which steps an interrupt arrives,
      and how installing each target ends. */
  datatype Events = Events(downloaded: bool, files: Pkg -> Option<Pkg>, checked: bool, hooked: bool,
                           removal: nat -> bool, install: nat -> bool, outcome: nat -> Outcome)

  /** The file of a target from a database can be read, and has its name and version. */
  predicate Readable(files: Pkg -> Option<Pkg>, p: Pkg) {
    p.fromSync ==> files(p).Some? && files(p).value.name == p.name && files(p).value.version == p.version
  }

  /** A target from a database becomes the package read from its file, with the reason it was prepared with. */
  function LoadedAs(files: Pkg -> Option<Pkg>, p: Pkg): Pkg {
    if p.fromSync && Readable(files, p) then files(p).value.(reason := p.reason, fromSync := true) else p
  }

  ghost predicate Loaded(files: Pkg -> Option<Pkg>, prepared: seq<Pkg>, add: seq<Pkg>) {
    |add| == |prepared| && forall i :: 0 <= i < |add| ==> add[i] == LoadedAs(files, prepared[i])
  }

  /** Loading keeps name, version and reason, and whatever else the file holds replaces what the database said. */
  lemma LoadedKeeps(files: Pkg -> Option<Pkg>, p: Pkg)
    ensures LoadedAs(files, p).name == p.name && LoadedAs(files, p).version == p.version
    ensures LoadedAs(files, p).reason == p.reason && LoadedAs(files, p).fromSync == p.fromSync
    ensures p.fromSync && Readable(files, p) ==> SameMeta(files(p).value, LoadedAs(files, p))
  {
  }

  /** Every file holds what the database said about its package. */
  ghost predicate Faithful(files: Pkg -> Option<Pkg>, add: seq<Pkg>) {
    forall p :: p in add && p.fromSync ==> files(p).Some? && files(p).value.(reason := p.reason, fromSync := true) == p
  }

  lemma FaithfulLoads(files: Pkg -> Option<Pkg>, prepared: seq<Pkg>, add: seq<Pkg>)
    requires Faithful(files, prepared)
    ensures forall p :: p in prepared ==> Readable(files, p)
    ensures Loaded(files, prepared, add) ==> add == prepared
  {
    forall p | p in prepared ensures Readable(files, p) && LoadedAs(files, p) == p {
      if p.fromSync { assert files(p).value.(reason := p.reason, fromSync := true) == p; }
    }
    if Loaded(files, prepared, add) {
      forall i | 0 <= i < |add| ensures add[i] == prepared[i] { assert prepared[i] in prepared; }
    }
  }

  /** `load_packages`: each target from a database is replaced by the package read from its file. */
  method LoadPackages(trans: Handle.Trans, files: Pkg -> Option<Pkg>, ghost q: Query) returns (ok: bool)
    requires DistinctNames(trans.add) && OldRecorded(q, trans.add, trans.oldpkg)
    modifies trans`add, trans`oldpkg
    ensures ok <==> forall p :: p in old(trans.add) ==> Readable(files, p)
    ensures Loaded(files, old(trans.add), trans.add)
    ensures DistinctNames(trans.add) && OldRecorded(q, trans.add, trans.oldpkg)
  {
    hide HasName, OldRecorded;
    ok := true;
    ghost var prepared := trans.add;
    var i := 0;
    while i < |trans.add|
      invariant i <= |trans.add| == |prepared| && DistinctNames(trans.add) && OldRecorded(q, trans.add, trans.oldpkg)
      invariant forall k :: 0 <= k < i ==> trans.add[k] == LoadedAs(files, prepared[k])
      invariant trans.add[i..] == prepared[i..]
      invariant ok <==> forall k :: 0 <= k < i ==> Readable(files, prepared[k])
    {
      var spkg := trans.add[i];
      assert spkg == trans.add[i..][0] == prepared[i];
      if spkg.fromSync {
        var pkgfile := files(spkg);
        if pkgfile.None? || pkgfile.value.name != spkg.name || pkgfile.value.version != spkg.version {
          ok := false;
        } else {
          var loaded := pkgfile.value.(reason := spkg.reason, fromSync := true);
          var others := trans.oldpkg - {spkg, loaded};
          ReplacedRecorded(q, trans.add, trans.oldpkg, i, loaded);
          trans.oldpkg := if spkg in trans.oldpkg then others[loaded := trans.oldpkg[spkg]] else others;
          trans.add := trans.add[i := loaded];
        }
      }
      assert prepared[i..][1..] == prepared[i+1..];
      i := i + 1;
    }
  }

  lemma ReplacedRecorded(q: Query, add: seq<Pkg>, oldpkg: map<Pkg, Pkg>, i: nat, loaded: Pkg)
    requires i < |add| && DistinctNames(add) && loaded.name == add[i].name && OldRecorded(q, add, oldpkg)
    ensures var others := oldpkg - {add[i], loaded};
            OldRecorded(q, add[i := loaded], if add[i] in oldpkg then others[loaded := oldpkg[add[i]]] else others)
  {
    hide HasName;
    forall k | 0 <= k < |add| && k != i ensures add[k] != add[i] && add[k] != loaded {
      assert add[k].name != add[i].name;
    }
    assert add[i] in add;
    forall p | p in add[i := loaded] && p != loaded ensures p in add && p != add[i] {
      var k :| 0 <= k < |add| && add[i := loaded][k] == p;
    }
  }

  lemma NothingPut(q: Query, add: seq<Pkg>, now: seq<Pkg>)
    requires DistinctNames(q.pkglist) && DistinctNames(now) && forall x :: x in now <==> x in q.pkglist && !HasName(q.rem, x.name)
    ensures Stage(q, add, 0, 0, now)
  {
    hide HasName;
    assert add[..0] == [];
    forall x: Pkg ensures !HasName([], x.name) { NoName(x.name); }
  }

  /** What is installed once the removals have all been carried out is the first stage. */
  lemma AllRemoved(q: Query, flags: Flags, remove: seq<Pkg>, prepared: seq<Pkg>, add: seq<Pkg>)
    requires DistinctNames(q.pkglist) && DistinctNames(q.rem) && DistinctNames(q.upgrade) && Arranged(q, flags, remove, prepared)
    ensures Stage(q, add, 0, 0, Left(q.pkglist, remove[..|remove|]))
  {
    hide HasName, DistinctNames, Left, Arranged, Stage;
    assert remove[..|remove|] == remove;
    ArrangedMembers(q, flags, remove, prepared);
    LeftMembers(q.pkglist, remove);
    forall x: Pkg ensures HasName(remove, x.name) <==> HasName(q.rem, x.name) {
      if HasName(remove, x.name) { SameNames(remove, q.rem, x.name); }
      if HasName(q.rem, x.name) { SameNames(q.rem, remove, x.name); }
    }
    NothingPut(q, add, Left(q.pkglist, remove));
  }

  /** How far carrying out a plan has come: `done` removals, then `put` targets, `gone` of which have lost
      their old version. */
  ghost predicate Progress(q: Query, flags: Flags, remove: seq<Pkg>, add: seq<Pkg>, done: nat, gone: nat, put: nat, now: seq<Pkg>) {
    done <= |remove| && put <= gone <= |add| && gone <= put + 1 &&
    if done < |remove| then gone == 0 && now == Left(q.pkglist, remove[..done])
    else Stage(q, add, gone, put, now) && ReasonsDue(q, flags, add, put, now)
  }

  /** How far the events let it come. */
  ghost predicate ComesTo(events: Events, removals: nat, targets: nat, done: nat, gone: nat) {
    && StopsAt(events.removal, removals, done)
    && if done < removals then gone == 0 else HandledUpTo(events.install, events.outcome, targets, gone)
  }

  /** The plan was carried out as far as the events let it, and failed if the last target handled did. */
  ghost predicate CarriedOut(events: Events, q: Query, flags: Flags, remove: seq<Pkg>, add: seq<Pkg>, failed: bool, now: seq<Pkg>) {
    exists done: nat, gone: nat ::
      && ComesTo(events, |remove|, |add|, done, gone) && failed == LastFailed(events.outcome, gone)
      && Progress(q, flags, remove, add, done, gone, PutBy(events.outcome, gone), now)
      && (add == [] ==> now == Left(q.pkglist, remove[..done]))
  }

  /** `_alpm_sync_commit` */
  method SyncCommit(handle: AlpmHandle, trans: Handle.Trans, events: Events, ghost q: Query, ghost prepared: seq<Pkg>) returns (ret: int)
    requires trans.state == Committing && q.pkglist == handle.dbLocal && DistinctNames(trans.add) && trans.add != []
    requires DistinctNames(q.pkglist) && DistinctNames(q.rem) && DistinctNames(q.upgrade)
    requires Arranged(q, trans.flags, trans.remove, prepared) && OldRecorded(q, trans.add, trans.oldpkg)
    modifies handle`dbLocal, trans`state
    ensures ret == 0 || ret == -1
    ensures CarriedOut(events, q, trans.flags, trans.remove, trans.add, ret == -1, handle.dbLocal)
    ensures ret == -1 ==> trans.state == Interrupted
  {
    hide HasName, DistinctNames, Left, Arranged, Stage, OldRecorded, StopsAt, HandledUpTo;
    ghost var done, gone := 0, 0;
    AllRemoved(q, trans.flags, trans.remove, prepared, trans.add);
    NothingLeftOut(q.pkglist, trans.remove);
    NoSteps(events.removal);
    if trans.remove != [] {
      var r;
      r, done := RemovePackages(handle, trans, events.removal);
      StopsWithin(events.removal, |trans.remove|, done);
    }
    ghost var halfway := handle.dbLocal;
    ret, gone := UpgradePackages(handle, trans, events.install, events.outcome, q);
    if done < |trans.remove| { gone := 0; } else { HandledWithin(events.install, events.outcome, |trans.add|, gone); }
    assert ComesTo(events, |trans.remove|, |trans.add|, done, gone);
    assert Progress(q, trans.flags, trans.remove, trans.add, done, gone, PutBy(events.outcome, gone), handle.dbLocal);
  }

  lemma NoSteps(interrupt: nat -> bool)
    ensures StopsAt(interrupt, 0, 0)
  {
  }

  lemma StopsWithin(interrupt: nat -> bool, steps: nat, done: nat)
    requires StopsAt(interrupt, steps, done)
    ensures done <= steps
  {
  }

  lemma HandledWithin(interrupt: nat -> bool, outcome: nat -> Outcome, targets: nat, gone: nat)
    requires HandledUpTo(interrupt, outcome, targets, gone)
    ensures gone <= targets
  {
  }

  lemma NothingLeftOut(local: seq<Pkg>, remove: seq<Pkg>)
    ensures Left(local, remove[..0]) == local
  {
  }

  /** What holds of the database whenever carrying out a plan stops. */
  ghost predicate SafelyStopped(q: Query, flags: Flags, remove: seq<Pkg>, add: seq<Pkg>, now: seq<Pkg>) {
    exists done: nat, gone: nat, put: nat :: Progress(q, flags, remove, add, done, gone, put, now)
      && (add == [] && !flags.nodeps && !flags.nodepversion && Acyclic(q.pkglist) ==> KeepsSupport(q.pkglist, now, q.assumed))
      && (!flags.nodeps && !flags.nodepversion && Acyclic(GraphNodes(q.pkglist, q.upgrade, q.rem)) ==>
            PutAreMet(add, put, now, q.assumed))
  }

  lemma StopsSafely(q: Query, flags: Flags, remove: seq<Pkg>, add: seq<Pkg>, oldpkg: map<Pkg, Pkg>,
                    done: nat, gone: nat, put: nat, now: seq<Pkg>)
    requires PreparedPlan(q, flags, remove, add, oldpkg) && Progress(q, flags, remove, add, done, gone, put, now)
    requires add == [] ==> now == Left(q.pkglist, remove[..done])
    ensures SafelyStopped(q, flags, remove, add, now)
  {
    hide PreparedPlan, Acyclic, KeepsSupport, PutAreMet, Left, Stage, GraphNodes;
    if !flags.nodeps && !flags.nodepversion {
      if add == [] && Acyclic(q.pkglist) { RemovalStepsAreSafe(q, flags, remove, oldpkg, done); }
      if Acyclic(GraphNodes(q.pkglist, q.upgrade, q.rem)) {
        if done < |remove| {
          NothingPutMet(add, now, q.assumed);
        } else {
          InstallStagesAreSafe(q, flags, remove, add, oldpkg, gone, put, now);
        }
      }
    }
    assert Progress(q, flags, remove, add, done, gone, put, now);
  }

  lemma NothingPutMet(add: seq<Pkg>, now: seq<Pkg>, assumed: seq<Depend>)
    ensures PutAreMet(add, 0, now, assumed)
  {
  }

  /** Carrying out a prepared plan stops safely, whatever happens. */
  lemma CarriedOutIsSafe(events: Events, q: Query, flags: Flags, remove: seq<Pkg>, add: seq<Pkg>, oldpkg: map<Pkg, Pkg>,
                         failed: bool, now: seq<Pkg>)
    requires PreparedPlan(q, flags, remove, add, oldpkg) && CarriedOut(events, q, flags, remove, add, failed, now)
    ensures SafelyStopped(q, flags, remove, add, now)
  {
    hide PreparedPlan, SafelyStopped, HandledUpTo, Progress, Left;
    var done: nat, gone: nat :|
      ComesTo(events, |remove|, |add|, done, gone) && Progress(q, flags, remove, add, done, gone, PutBy(events.outcome, gone), now) &&
      (add == [] ==> now == Left(q.pkglist, remove[..done]));
    StopsSafely(q, flags, remove, add, oldpkg, done, gone, PutBy(events.outcome, gone), now);
  }

  /** No interrupt arrives, and every target is installed without errors. */
  ghost predicate Uneventful(events: Events, removals: nat, targets: nat) {
    && (forall i :: 0 <= i < removals ==> !events.removal(i))
    && (forall i :: 0 <= i < targets ==> !events.install(i) && events.outcome(i) == Added)
  }

  /** What a plan carried out to its end leaves. */
  ghost predicate Finished(q: Query, flags: Flags, remove: seq<Pkg>, add: seq<Pkg>, now: seq<Pkg>) {
    if add == [] then now == Left(q.pkglist, remove) else Consistent(q, flags, now)
  }

  /** Without interrupts and failures a prepared plan is carried out to its end. */
  lemma UneventfulFinishes(events: Events, q: Query, flags: Flags, remove: seq<Pkg>, add: seq<Pkg>, oldpkg: map<Pkg, Pkg>, failed: bool,
                           now: seq<Pkg>)
    requires PreparedPlan(q, flags, remove, add, oldpkg) && CarriedOut(events, q, flags, remove, add, failed, now)
    requires Uneventful(events, |remove|, |add|)
    ensures !failed && Finished(q, flags, remove, add, now)
  {
    hide PreparedPlan, Progress, Left, Consistent;
    var done: nat, gone: nat :|
      ComesTo(events, |remove|, |add|, done, gone) && failed == LastFailed(events.outcome, gone) &&
      Progress(q, flags, remove, add, done, gone, PutBy(events.outcome, gone), now) && (add == [] ==> now == Left(q.pkglist, remove[..done]));
    assert done == |remove| && gone == |add|;
    assert PutBy(events.outcome, gone) == |add| && !LastFailed(events.outcome, gone);
    assert remove[..|remove|] == remove;
    if add != [] { ProgressFinished(q, flags, remove, add, oldpkg, now); }
  }

  /** Removing packages as the whole of a transaction. */
  method CommitRemoval(handle: AlpmHandle, trans: Handle.Trans, events: Events, ghost q: Query)
    requires trans.state == Committing && q.pkglist == handle.dbLocal && trans.add == []
    requires PreparedPlan(q, trans.flags, trans.remove, trans.add, trans.oldpkg)
    modifies handle`dbLocal, trans`state
    ensures CarriedOut(events, q, trans.flags, trans.remove, trans.add, false, handle.dbLocal)
  {
    hide PreparedPlan, Left, Progress, StopsAt;
    PlanParts(q, trans.flags, trans.remove, trans.add, trans.oldpkg);
    ghost var done;
    var r;
    r, done := RemovePackages(handle, trans, events.removal);
    StopsWithin(events.removal, |trans.remove|, done);
    RemovalProgress(q, trans.flags, trans.remove, trans.oldpkg, done, handle.dbLocal);
    assert ComesTo(events, |trans.remove|, 0, done, 0);
  }

  lemma RemovalProgress(q: Query, flags: Flags, remove: seq<Pkg>, oldpkg: map<Pkg, Pkg>, done: nat, now: seq<Pkg>)
    requires PreparedPlan(q, flags, remove, [], oldpkg) && done <= |remove| && now == Left(q.pkglist, remove[..done])
    ensures Progress(q, flags, remove, [], done, 0, 0, now)
  {
    hide Left, Arranged, Stage, OldRecorded, Clean, NoConflicts;
    if done == |remove| {
      assert remove[..done] == remove;
      AllRemoved(q, flags, remove, [], []);
    }
  }

  /** The transaction can be committed, and there is something to do. */
  ghost predicate Committable(handle: AlpmHandle)
    reads handle, TransOf(handle)
  {
    && handle.trans != null && handle.trans.state == Prepared && !handle.trans.flags.nolock
    && (handle.trans.add != [] || handle.trans.remove != [])
  }

  /** The targets cannot be loaded. */
  ghost predicate LoadFails(flags: Flags, events: Events, add: seq<Pkg>) {
    add != [] && (!events.downloaded || (!flags.downloadonly && exists p :: p in add && !Readable(events.files, p)))
  }

  /** The transaction ends with the download. */
  ghost predicate OnlyDownloads(flags: Flags, add: seq<Pkg>) { add != [] && flags.downloadonly }

  /** The check of the files, or a hook, is against it. */
  ghost predicate Prevented(flags: Flags, events: Events, add: seq<Pkg>) {
    (add != [] && !flags.dbonly && !events.checked) || (!flags.nohooks && !events.hooked)
  }

  /** An installation goes on to the database exactly when its files are there and readable, more than a download is
      wanted, and the check and the hooks pass or are switched off; a removal depends on the hooks alone. */
  lemma ProceedsIff(flags: Flags, events: Events, add: seq<Pkg>)
    ensures !LoadFails(flags, events, add) && !OnlyDownloads(flags, add) && !Prevented(flags, events, add) <==>
              (add != [] ==> events.downloaded && (forall p :: p in add ==> Readable(events.files, p)) && !flags.downloadonly &&
                             (events.checked || flags.dbonly)) &&
              (events.hooked || flags.nohooks)
  {
    hide Readable;
  }

  /** `alpm_trans_commit`: it refuses, or ends before the database is touched, or carries the plan out as far as
      the events let it. Where the files hold what the databases said, it stops safely and ends consistently. */
  method TransCommit(handle: AlpmHandle, events: Events, ghost q: Query) returns (err: Option<TransError>)
    requires Committable(handle) ==>
               q.pkglist == handle.dbLocal && PreparedPlan(q, handle.trans.flags, handle.trans.remove, handle.trans.add, handle.trans.oldpkg)
    modifies handle`dbLocal, TransOf(handle)
    ensures err == Some(TransNull) <==> handle.trans == null
    ensures err == Some(NotPrepared) <==> handle.trans != null && old(handle.trans.state) != Prepared
    ensures err == Some(NotLocked) <==> handle.trans != null && old(handle.trans.state) == Prepared && handle.trans.flags.nolock
    ensures !old(Committable(handle)) ==> handle.dbLocal == old(handle.dbLocal) && err != Some(CommitFailed)
    ensures !old(Committable(handle)) && handle.trans != null ==> handle.trans.state == old(handle.trans.state)
    ensures old(Committable(handle)) ==>
              var flags, add, remove := handle.trans.flags, old(handle.trans.add), old(handle.trans.remove);
              if LoadFails(flags, events, add) then err == Some(CommitFailed) && handle.dbLocal == old(handle.dbLocal)
              else if OnlyDownloads(flags, add) then err.None? && handle.dbLocal == old(handle.dbLocal) && handle.trans.state == Downloading
              else if Prevented(flags, events, add) then err == Some(CommitFailed) && handle.dbLocal == old(handle.dbLocal)
              else
                && err == (if err.None? then None else Some(CommitFailed))
                && handle.trans.state == (if err.None? then Committed else Interrupted)
                && handle.trans.remove == remove && Loaded(events.files, add, handle.trans.add)
                && CarriedOut(events, q, flags, remove, handle.trans.add, err.Some?, handle.dbLocal)
                && (Faithful(events.files, add) ==> SafelyStopped(q, flags, remove, add, handle.dbLocal))
                && (Faithful(events.files, add) && Uneventful(events, |remove|, |add|) ==>
                      err.None? && Finished(q, flags, remove, add, handle.dbLocal))
  {
    hide PreparedPlan, SafelyStopped, Left, DistinctNames, OldRecorded, Finished, CarriedOut, Uneventful, Faithful, Loaded, Readable;
    var trans := handle.trans;
    if trans == null { return Some(TransNull); }
    if trans.state != Prepared { return Some(NotPrepared); }
    if trans.flags.nolock { return Some(NotLocked); }
    if trans.add == [] && trans.remove == [] { return None; }
    ghost var prepared, oldpkg := trans.add, trans.oldpkg;
    PlanParts(q, trans.flags, trans.remove, trans.add, trans.oldpkg);
    NothingLoaded(events.files);
    if trans.add != [] {
      trans.state := Downloading;
      if !events.downloaded { return Some(CommitFailed); }
      if trans.flags.downloadonly { return None; }
      var loaded := LoadPackages(trans, events.files, q);
      LoadedEmpty(events.files, prepared, trans.add);
      if !loaded { return Some(CommitFailed); }
      if !trans.flags.dbonly && !events.checked { return Some(CommitFailed); }
    }
    if !trans.flags.nohooks && !events.hooked { return Some(CommitFailed); }
    trans.state := Committing;
    var ret := 0;
    if trans.add == [] {
      CommitRemoval(handle, trans, events, q);
    } else {
      ret := SyncCommit(handle, trans, events, q, prepared);
    }
    EndsWell(events, q, trans.flags, trans.remove, prepared, trans.add, oldpkg, ret == -1, handle.dbLocal);
    if ret == -1 { return Some(CommitFailed); }
    trans.state := Committed;
    err := None;
  }

  lemma NothingLoaded(files: Pkg -> Option<Pkg>)
    ensures Loaded(files, [], [])
  {
  }

  lemma EndsWell(events: Events, q: Query, flags: Flags, remove: seq<Pkg>, prepared: seq<Pkg>, add: seq<Pkg>, oldpkg: map<Pkg, Pkg>,
                 failed: bool, now: seq<Pkg>)
    requires PreparedPlan(q, flags, remove, prepared, oldpkg) && Loaded(events.files, prepared, add)
    requires CarriedOut(events, q, flags, remove, add, failed, now)
    ensures Faithful(events.files, prepared) ==> SafelyStopped(q, flags, remove, prepared, now)
    ensures Faithful(events.files, prepared) && Uneventful(events, |remove|, |prepared|) ==> !failed && Finished(q, flags, remove, prepared, now)
  {
    hide PreparedPlan, CarriedOut, SafelyStopped, Finished, Uneventful, Faithful, Loaded;
    if Faithful(events.files, prepared) {
      FaithfulLoads(events.files, prepared, add);
      CarriedOutIsSafe(events, q, flags, remove, prepared, oldpkg, failed, now);
      if Uneventful(events, |remove|, |prepared|) { UneventfulFinishes(events, q, flags, remove, prepared, oldpkg, failed, now); }
    }
  }

  lemma PlanParts(q: Query, flags: Flags, remove: seq<Pkg>, add: seq<Pkg>, oldpkg: map<Pkg, Pkg>)
    requires PreparedPlan(q, flags, remove, add, oldpkg)
    ensures DistinctNames(q.pkglist) && DistinctNames(q.rem) && DistinctNames(q.upgrade) && Arranged(q, flags, remove, add)
    ensures DistinctNames(add) && OldRecorded(q, add, oldpkg)
  {
    hide HasName, DistinctNames, Clean, NoConflicts, Arranged;
    ArrangedMembers(q, flags, remove, add);
  }

  lemma LoadedEmpty(files: Pkg -> Option<Pkg>, prepared: seq<Pkg>, add: seq<Pkg>)
    requires Loaded(files, prepared, add)
    ensures |add| == |prepared|
  {
  }

  lemma ProgressFinished(q: Query, flags: Flags, remove: seq<Pkg>, add: seq<Pkg>, oldpkg: map<Pkg, Pkg>, now: seq<Pkg>)
    requires PreparedPlan(q, flags, remove, add, oldpkg) && add != []
    requires Progress(q, flags, remove, add, |remove|, |add|, |add|, now)
    ensures Consistent(q, flags, now)
  {
    hide PreparedPlan, Consistent, Stage;
    FinishedIsConsistent(q, flags, remove, add, oldpkg, now);
  }

  // ---- alpm_trans_interrupt, alpm_trans_release ----

  /** `alpm_trans_interrupt` */
  method TransInterrupt(handle: AlpmHandle) returns (err: Option<TransError>)
    modifies TransOf(handle)
    ensures err == if handle.trans == null then Some(TransNull)
                   else if old(handle.trans.state) == Committing || old(handle.trans.state) == Interrupted then None
                   else Some(WrongState)
    ensures err.None? ==> handle.trans.state == Interrupted
    ensures err.Some? && handle.trans != null ==> handle.trans.state == old(handle.trans.state)
  {
    var trans := handle.trans;
    if trans == null { return Some(TransNull); }
    if trans.state != Committing && trans.state != Interrupted { return Some(WrongState); }
    trans.state := Interrupted;
    err := None;
  }
}
