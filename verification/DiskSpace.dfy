/** Whether a transaction fits on the mounted file systems, at every point of its run. */
module DiskSpace {
  import opened Common
  import opened ListSpec

  // ---- mount points ----

  datatype FsInfo = Unloaded | Loaded | Fail

  /** The fields of a mount point that the check works on. */
  datatype Tally = Tally(needed: int, max: int, removing: bool, installing: bool)

  /** A mount point; `statFails` says whether asking for its file system information fails. */
  class MountPoint {
    const dir: string
    const bsize: nat
    const blocks: nat
    const bavail: nat
    const readOnly: bool
    const statFails: bool
    var fsinfo: FsInfo
    var tally: Tally

    constructor (dir: string, bsize: nat, blocks: nat, bavail: nat, readOnly: bool, statFails: bool)
      requires dir != "" && bsize > 0
      ensures this.dir == dir && this.bsize == bsize && this.blocks == blocks && this.bavail == bavail
      ensures this.readOnly == readOnly && this.statFails == statFails && Valid() && tally == Tally(0, 0, false, false)
    {
      this.dir, this.bsize, this.blocks, this.bavail, this.readOnly, this.statFails := dir, bsize, blocks, bavail, readOnly, statFails;
      fsinfo, tally := Unloaded, Tally(0, 0, false, false);
    }

    ghost predicate Valid()
      reads this
    {
      dir != "" && bsize > 0 && (fsinfo == Fail ==> statFails) && (fsinfo == Loaded ==> !statFails)
    }

    /** `mount_point_load_fsinfo` */
    method LoadFsinfo() returns (ok: bool)
      requires Valid() && fsinfo == Unloaded
      modifies this`fsinfo
      ensures Valid() && ok == !statFails
    {
      fsinfo := if statFails then Fail else Loaded;
      ok := !statFails;
    }
  }

  function DirOf(m: MountPoint): string { m.dir }

  /** `mount_point_cmp` */
  function Reversed(a: string, b: string): int { -StrCmp(a, b) }

  /** `path` is the directory or lies below it. */
  predicate Contains(dir: string, path: string) {
    && dir != "" && |dir| <= |path| && dir == path[..|dir|]
    && (dir[|dir|-1] == '/' || |path| == |dir| || path[|dir|] == '/')
  }

  /** A directory contains itself and what its path continues after a slash, but not what merely begins with its name. */
  lemma ContainsMeans(dir: string, x: string, c: char)
    requires dir != ""
    ensures Contains(dir, dir) && Contains(dir, dir + "/" + x) && Contains(dir + "/", dir + "/" + x)
    ensures c != '/' && dir[|dir|-1] != '/' ==> !Contains(dir, dir + [c] + x)
    ensures forall path :: Contains(dir, path) ==> dir <= path
  {
    assert (dir + "/" + x)[..|dir|] == dir && (dir + "/" + x)[..|dir|+1] == dir + "/" && (dir + [c] + x)[|dir|] == c;
  }

  /** The first mount point of the list that contains the path. */
  function Match(ms: seq<MountPoint>, path: string): (m: Option<MountPoint>)
    ensures m.Some? ==> m.value in ms && Contains(m.value.dir, path)
    ensures m.None? <==> forall x :: x in ms ==> !Contains(x.dir, path)
  {
    if ms == [] then None
    else if Contains(ms[0].dir, path) then Some(ms[0])
    else Match(ms[1..], path)
  }

  /** A directory sorts before those below it. */
  lemma {:induction false} PrefixSmaller(a: string, b: string)
    requires |a| < |b| && a == b[..|a|]
    ensures StrCmp(a, b) < 0
  {
    if a != "" {
      assert a[0] == b[0] && a[1..] == b[1..][..|a|-1];
      PrefixSmaller(a[1..], b[1..]);
    }
  }

  lemma LongerFirst(a: string, b: string, path: string)
    requires Contains(a, path) && Contains(b, path) && |a| < |b|
    ensures Reversed(a, b) > 0
  {
    assert a == b[..|a|] by { assert path[..|b|][..|a|] == path[..|a|]; }
    PrefixSmaller(a, b);
  }

  /** In the reverse-sorted list the first match is the longest directory that contains the path. */
  lemma {:induction false} MatchIsLongest(ms: seq<MountPoint>, path: string, x: MountPoint)
    requires Sorted(ms, DirOf, Reversed) && x in ms && Contains(x.dir, path)
    ensures Match(ms, path).Some? && |x.dir| <= |Match(ms, path).value.dir|
  {
    var first := ms[0];
    if Contains(first.dir, path) {
      var i :| 0 <= i < |ms| && ms[i] == x;
      assert i > 0 ==> Reversed(DirOf(ms[0]), DirOf(ms[i])) <= 0;
      if |x.dir| > |first.dir| { LongerFirst(first.dir, x.dir, path); }
    } else {
      forall i, j | 0 <= i < j < |ms[1..]| ensures Reversed(DirOf(ms[1..][i]), DirOf(ms[1..][j])) <= 0 {
        assert Reversed(DirOf(ms[i+1]), DirOf(ms[j+1])) <= 0;
      }
      MatchIsLongest(ms[1..], path, x);
    }
  }

  lemma ReversedCompares()
    ensures TotalPreorder(Reversed)
  {
    forall x, y ensures Reversed(x, y) <= 0 || Reversed(y, x) <= 0 { StrCmpAntisymmetric(x, y); }
    forall x, y, z | Reversed(x, y) <= 0 && Reversed(y, z) <= 0 ensures Reversed(x, z) <= 0 {
      StrCmpAntisymmetric(x, y);
      StrCmpAntisymmetric(y, z);
      StrCmpAntisymmetric(x, z);
      StrCmpTransitive(z, y, x);
    }
  }

  /** `match_mount_point` */
  method MatchMountPoint(ms: seq<MountPoint>, path: string) returns (mp: MountPoint?)
    requires forall m :: m in ms ==> m.dir != ""
    ensures if Match(ms, path).Some? then mp == Match(ms, path).value else mp == null
  {
    hide Contains;
    var i := 0;
    assert ms[0..] == ms;
    while i < |ms|
      invariant i <= |ms| && Match(ms, path) == Match(ms[i..], path)
    {
      var data := ms[i];
      assert ms[i..][0] == data && ms[i..][1..] == ms[i+1..];
      if Contains(data.dir, path) { return data; }
      i := i + 1;
    }
    mp := null;
  }

  // ---- what is charged ----

  datatype Stat = Stat(size: nat, special: bool)

  datatype File = File(name: string, size: nat, special: bool)

  /** The root and database paths, and what is on disk under each path. */
  datatype System = System(root: string, dbpath: string, disk: map<string, Stat>)

  /** A target: its files, and those of the installed package of its name. */
  datatype Target = Target(files: seq<File>, installed: Option<seq<File>>)

  /** The size in whole blocks. */
  function Ceil(size: nat, bsize: nat): nat
    requires bsize > 0
  {
    (size + bsize - 1) / bsize
  }

  /** As many blocks as hold the file, and no more. */
  lemma CeilHolds(size: nat, bsize: nat)
    requires bsize > 0
    ensures Ceil(size, bsize) * bsize >= size
    ensures Ceil(size, bsize) > 0 ==> (Ceil(size, bsize) - 1) * bsize < size
  {
    var n := size + bsize - 1;
    assert n == n / bsize * bsize + n % bsize;
    assert (n / bsize - 1) * bsize == n / bsize * bsize - bsize;
  }

  predicate Charged(ms: seq<MountPoint>, m: MountPoint, path: string) { Match(ms, path) == Some(m) && !m.statFails }

  predicate FreesOn(ms: seq<MountPoint>, sys: System, m: MountPoint, f: File) {
    var path := sys.root + f.name;
    path in sys.disk && !sys.disk[path].special && Charged(ms, m, path)
  }

  function InstallPath(sys: System, f: File): string {
    sys.root + if f.name != "" && f.name[0] == '.' then sys.dbpath else f.name
  }

  predicate TakesOn(ms: seq<MountPoint>, sys: System, m: MountPoint, f: File) {
    !f.special && Charged(ms, m, InstallPath(sys, f))
  }

  /** The blocks of `m` that removing the file gives back. */
  function FreedBy(ms: seq<MountPoint>, sys: System, m: MountPoint, f: File): nat
    requires m.bsize > 0
  {
    if FreesOn(ms, sys, m, f) then Ceil(sys.disk[sys.root+f.name].size, m.bsize) else 0
  }

  /** The blocks of `m` that installing the file takes. */
  function TakenBy(ms: seq<MountPoint>, sys: System, m: MountPoint, f: File): nat
    requires m.bsize > 0
  {
    if TakesOn(ms, sys, m, f) then Ceil(f.size, m.bsize) else 0
  }

  function Freed(ms: seq<MountPoint>, sys: System, m: MountPoint, files: seq<File>): nat
    requires m.bsize > 0
  {
    if files == [] then 0
    else Freed(ms, sys, m, files[..|files|-1]) + FreedBy(ms, sys, m, files[|files|-1])
  }

  function Taken(ms: seq<MountPoint>, sys: System, m: MountPoint, files: seq<File>): nat
    requires m.bsize > 0
  {
    if files == [] then 0
    else Taken(ms, sys, m, files[..|files|-1]) + TakenBy(ms, sys, m, files[|files|-1])
  }

  predicate FreesAny(ms: seq<MountPoint>, sys: System, m: MountPoint, files: seq<File>) {
    exists i :: 0 <= i < |files| && FreesOn(ms, sys, m, files[i])
  }

  predicate TakesAny(ms: seq<MountPoint>, sys: System, m: MountPoint, files: seq<File>) {
    exists i :: 0 <= i < |files| && TakesOn(ms, sys, m, files[i])
  }

  function AfterRemoval(ms: seq<MountPoint>, sys: System, m: MountPoint, t: Tally, files: seq<File>): Tally
    requires m.bsize > 0
  {
    t.(needed := t.needed - Freed(ms, sys, m, files), removing := t.removing || FreesAny(ms, sys, m, files))
  }

  function AfterInstall(ms: seq<MountPoint>, sys: System, m: MountPoint, t: Tally, files: seq<File>): Tally
    requires m.bsize > 0
  {
    t.(needed := t.needed + Taken(ms, sys, m, files), installing := t.installing || TakesAny(ms, sys, m, files))
  }

  lemma RemovalNext(ms: seq<MountPoint>, sys: System, m: MountPoint, t: Tally, files: seq<File>, i: nat)
    requires m.bsize > 0 && i < |files|
    ensures var u := AfterRemoval(ms, sys, m, t, files[..i]);
            AfterRemoval(ms, sys, m, t, files[..i+1]) ==
              u.(needed := u.needed - FreedBy(ms, sys, m, files[i]), removing := u.removing || FreesOn(ms, sys, m, files[i]))
  {
    hide FreesOn, FreedBy;
    var fs := files[..i+1];
    assert fs[..i] == files[..i] && fs[i] == files[i];
    if k :| 0 <= k < |fs| && FreesOn(ms, sys, m, fs[k]) { assert k < i ==> files[..i][k] == fs[k]; }
    if k :| 0 <= k < |files[..i]| && FreesOn(ms, sys, m, files[..i][k]) { assert fs[k] == files[..i][k]; }
  }

  lemma InstallNext(ms: seq<MountPoint>, sys: System, m: MountPoint, t: Tally, files: seq<File>, i: nat)
    requires m.bsize > 0 && i < |files|
    ensures var u := AfterInstall(ms, sys, m, t, files[..i]);
            AfterInstall(ms, sys, m, t, files[..i+1]) ==
              u.(needed := u.needed + TakenBy(ms, sys, m, files[i]), installing := u.installing || TakesOn(ms, sys, m, files[i]))
  {
    hide TakesOn, TakenBy;
    var fs := files[..i+1];
    assert fs[..i] == files[..i] && fs[i] == files[i];
    if k :| 0 <= k < |fs| && TakesOn(ms, sys, m, fs[k]) { assert k < i ==> files[..i][k] == fs[k]; }
    if k :| 0 <= k < |files[..i]| && TakesOn(ms, sys, m, files[..i][k]) { assert fs[k] == files[..i][k]; }
  }

  ghost predicate AllValid(ms: seq<MountPoint>)
    reads ms
  {
    forall m :: m in ms ==> m.Valid()
  }

  /** The file system information of a matched mount point, loaded on first use; false if there is none. */
  method Usable(mp: MountPoint) returns (ok: bool)
    requires mp.Valid()
    modifies mp`fsinfo
    ensures mp.Valid() && ok == !mp.statFails
  {
    if mp.fsinfo == Fail { return false; }
    ok := true;
    if mp.fsinfo == Unloaded {
      ok := mp.LoadFsinfo();
    }
  }

  /** `calculate_removed_size` */
  method CalculateRemovedSize(ms: seq<MountPoint>, sys: System, files: seq<File>)
    requires AllValid(ms)
    modifies ms
    ensures AllValid(ms)
    ensures forall m :: m in ms ==> m.tally == AfterRemoval(ms, sys, m, old(m.tally), files)
  {
    hide AfterRemoval, FreesOn, Match, Ceil;
    forall m | m in ms ensures AfterRemoval(ms, sys, m, m.tally, files[..0]) == m.tally { NothingRemoved(ms, sys, m, m.tally, files); }
    var i := 0;
    while i < |files|
      invariant i <= |files| && AllValid(ms)
      invariant forall m :: m in ms ==> m.tally == AfterRemoval(ms, sys, m, old(m.tally), files[..i])
    {
      var path := sys.root + files[i].name;
      forall m | m in ms
        ensures var u := AfterRemoval(ms, sys, m, old(m.tally), files[..i]);
                AfterRemoval(ms, sys, m, old(m.tally), files[..i+1]) ==
                  u.(needed := u.needed - FreedBy(ms, sys, m, files[i]), removing := u.removing || FreesOn(ms, sys, m, files[i]))
      {
        RemovalNext(ms, sys, m, old(m.tally), files, i);
      }
      var mp := MatchMountPoint(ms, path);
      forall m | m in ms
        ensures FreesOn(ms, sys, m, files[i]) <==> path in sys.disk && !sys.disk[path].special && mp == m && !m.statFails
      {
        FreesMeans(ms, sys, m, files[i]);
      }
      if path in sys.disk && !sys.disk[path].special && mp != null {
        var ok := Usable(mp);
        if ok {
          mp.tally := mp.tally.(needed := mp.tally.needed - Ceil(sys.disk[path].size, mp.bsize), removing := true);
        }
      }
      i := i + 1;
    }
    assert files[..|files|] == files;
  }

  lemma NothingRemoved(ms: seq<MountPoint>, sys: System, m: MountPoint, t: Tally, files: seq<File>)
    requires m.bsize > 0
    ensures AfterRemoval(ms, sys, m, t, files[..0]) == t
  {
  }

  lemma FreesMeans(ms: seq<MountPoint>, sys: System, m: MountPoint, f: File)
    ensures FreesOn(ms, sys, m, f) <==>
            sys.root + f.name in sys.disk && !sys.disk[sys.root+f.name].special && Match(ms, sys.root + f.name) == Some(m) && !m.statFails
  {
  }

  /** `calculate_installed_size` */
  method CalculateInstalledSize(ms: seq<MountPoint>, sys: System, files: seq<File>)
    requires AllValid(ms)
    modifies ms
    ensures AllValid(ms)
    ensures forall m :: m in ms ==> m.tally == AfterInstall(ms, sys, m, old(m.tally), files)
  {
    hide AfterInstall, TakesOn, Match, Ceil, InstallPath;
    forall m | m in ms ensures AfterInstall(ms, sys, m, m.tally, files[..0]) == m.tally { NothingInstalled(ms, sys, m, m.tally, files); }
    var i := 0;
    while i < |files|
      invariant i <= |files| && AllValid(ms)
      invariant forall m :: m in ms ==> m.tally == AfterInstall(ms, sys, m, old(m.tally), files[..i])
    {
      var path := InstallPath(sys, files[i]);
      forall m | m in ms
        ensures var u := AfterInstall(ms, sys, m, old(m.tally), files[..i]);
                AfterInstall(ms, sys, m, old(m.tally), files[..i+1]) ==
                  u.(needed := u.needed + TakenBy(ms, sys, m, files[i]), installing := u.installing || TakesOn(ms, sys, m, files[i]))
      {
        InstallNext(ms, sys, m, old(m.tally), files, i);
      }
      var mp := MatchMountPoint(ms, path);
      forall m | m in ms
        ensures TakesOn(ms, sys, m, files[i]) <==> !files[i].special && mp == m && !m.statFails
      {
        TakesMeans(ms, sys, m, files[i]);
      }
      if !files[i].special && mp != null {
        var ok := Usable(mp);
        if ok {
          mp.tally := mp.tally.(needed := mp.tally.needed + Ceil(files[i].size, mp.bsize), installing := true);
        }
      }
      i := i + 1;
    }
    assert files[..|files|] == files;
  }

  lemma NothingInstalled(ms: seq<MountPoint>, sys: System, m: MountPoint, t: Tally, files: seq<File>)
    requires m.bsize > 0
    ensures AfterInstall(ms, sys, m, t, files[..0]) == t
  {
  }

  lemma TakesMeans(ms: seq<MountPoint>, sys: System, m: MountPoint, f: File)
    ensures TakesOn(ms, sys, m, f) <==> !f.special && Match(ms, InstallPath(sys, f)) == Some(m) && !m.statFails
  {
  }

  // ---- the run of a transaction ----

  const START: Tally := Tally(0, 0, false, false)

  function Max(a: int, b: int): int { if a > b then a else b }

  function AfterRemovals(ms: seq<MountPoint>, sys: System, m: MountPoint, remove: seq<seq<File>>): Tally
    requires m.bsize > 0
  {
    if remove == [] then START
    else AfterRemoval(ms, sys, m, AfterRemovals(ms, sys, m, remove[..|remove|-1]), remove[|remove|-1])
  }

  function AfterOld(ms: seq<MountPoint>, sys: System, m: MountPoint, t: Tally, target: Target): Tally
    requires m.bsize > 0
  {
    if target.installed.Some? then AfterRemoval(ms, sys, m, t, target.installed.value) else t
  }

  function Peaked(t: Tally): Tally { t.(max := Max(t.max, t.needed)) }

  function AfterTargets(ms: seq<MountPoint>, sys: System, m: MountPoint, remove: seq<seq<File>>, add: seq<Target>): Tally
    requires m.bsize > 0
  {
    if add == [] then AfterRemovals(ms, sys, m, remove)
    else
      var last := add[|add|-1];
      Peaked(AfterInstall(ms, sys, m, AfterOld(ms, sys, m, AfterTargets(ms, sys, m, remove, add[..|add|-1]), last), last.files))
  }

  // ---- what the tally means ----

  /** The blocks that a run up to the end of `add` takes from `m`, given back ones subtracted. */
  function Net(ms: seq<MountPoint>, sys: System, m: MountPoint, remove: seq<seq<File>>, add: seq<Target>): int
    requires m.bsize > 0
  {
    if add != [] then
      var last := add[|add|-1];
      Net(ms, sys, m, remove, add[..|add|-1]) + Taken(ms, sys, m, last.files)
        - if last.installed.Some? then Freed(ms, sys, m, last.installed.value) else 0
    else if remove != [] then Net(ms, sys, m, remove[..|remove|-1], []) - Freed(ms, sys, m, remove[|remove|-1])
    else 0
  }

  ghost predicate Bounds(ms: seq<MountPoint>, sys: System, m: MountPoint, remove: seq<seq<File>>, add: seq<Target>, peak: int)
    requires m.bsize > 0
  {
    forall k :: 1 <= k <= |add| ==> peak >= Net(ms, sys, m, remove, add[..k])
  }

  ghost predicate Reached(ms: seq<MountPoint>, sys: System, m: MountPoint, remove: seq<seq<File>>, add: seq<Target>, peak: int)
    requires m.bsize > 0
  {
    exists k :: 1 <= k <= |add| && peak == Net(ms, sys, m, remove, add[..k])
  }

  /** The most that any point of the run needs: at the start, or after one of the targets. */
  ghost predicate IsPeak(ms: seq<MountPoint>, sys: System, m: MountPoint, remove: seq<seq<File>>, add: seq<Target>, peak: int)
    requires m.bsize > 0
  {
    peak >= 0 && Bounds(ms, sys, m, remove, add, peak) && (peak == 0 || Reached(ms, sys, m, remove, add, peak))
  }

  ghost predicate InstallsOn(ms: seq<MountPoint>, sys: System, m: MountPoint, add: seq<Target>) {
    exists i :: 0 <= i < |add| && TakesAny(ms, sys, m, add[i].files)
  }

  ghost predicate RemovesFrom(ms: seq<MountPoint>, sys: System, m: MountPoint, remove: seq<seq<File>>, add: seq<Target>) {
    || (exists i :: 0 <= i < |remove| && FreesAny(ms, sys, m, remove[i]))
    || (exists i :: 0 <= i < |add| && add[i].installed.Some? && FreesAny(ms, sys, m, add[i].installed.value))
  }

  lemma {:induction false} RemovalsTally(ms: seq<MountPoint>, sys: System, m: MountPoint, remove: seq<seq<File>>)
    requires m.bsize > 0
    ensures var t := AfterRemovals(ms, sys, m, remove);
            t.needed == Net(ms, sys, m, remove, []) && t.max == 0 && !t.installing && (t.removing <==> RemovesFrom(ms, sys, m, remove, []))
  {
    hide FreesAny, Freed;
    if remove != [] {
      var n := |remove| - 1;
      var rs := remove[..n];
      RemovalsTally(ms, sys, m, rs);
      if i :| 0 <= i < |remove| && FreesAny(ms, sys, m, remove[i]) { assert i < n ==> rs[i] == remove[i]; }
      if i :| 0 <= i < |rs| && FreesAny(ms, sys, m, rs[i]) { assert remove[i] == rs[i]; }
      assert FreesAny(ms, sys, m, remove[n]) ==> RemovesFrom(ms, sys, m, remove, []);
    }
  }

  lemma BoundsNext(ms: seq<MountPoint>, sys: System, m: MountPoint, remove: seq<seq<File>>, add: seq<Target>, low: int, peak: int)
    requires m.bsize > 0 && add != [] && Bounds(ms, sys, m, remove, add[..|add|-1], low)
    requires peak >= low && peak >= Net(ms, sys, m, remove, add)
    ensures Bounds(ms, sys, m, remove, add, peak)
  {
    hide Net;
    var n := |add| - 1;
    var before := add[..n];
    assert add[..n+1] == add;
    forall k | 1 <= k <= |add| ensures peak >= Net(ms, sys, m, remove, add[..k]) {
      if k <= n { assert add[..k] == before[..k] && low >= Net(ms, sys, m, remove, before[..k]); }
    }
  }

  lemma ReachedStays(ms: seq<MountPoint>, sys: System, m: MountPoint, remove: seq<seq<File>>, add: seq<Target>, peak: int)
    requires m.bsize > 0 && add != []
    requires Reached(ms, sys, m, remove, add[..|add|-1], peak) || peak == Net(ms, sys, m, remove, add)
    ensures Reached(ms, sys, m, remove, add, peak)
  {
    hide Net;
    var n := |add| - 1;
    var before := add[..n];
    assert add[..n+1] == add;
    if k :| 1 <= k <= |before| && peak == Net(ms, sys, m, remove, before[..k]) {
      assert add[..k] == before[..k];
    }
  }

  lemma PeakNext(ms: seq<MountPoint>, sys: System, m: MountPoint, remove: seq<seq<File>>, add: seq<Target>, peak: int)
    requires m.bsize > 0 && add != [] && IsPeak(ms, sys, m, remove, add[..|add|-1], peak)
    ensures IsPeak(ms, sys, m, remove, add, Max(peak, Net(ms, sys, m, remove, add)))
  {
    hide Net, Bounds, Reached;
    var next := Max(peak, Net(ms, sys, m, remove, add));
    BoundsNext(ms, sys, m, remove, add, peak, next);
    if next != 0 { ReachedStays(ms, sys, m, remove, add, next); }
  }

  lemma FlagsNext(ms: seq<MountPoint>, sys: System, m: MountPoint, remove: seq<seq<File>>, add: seq<Target>)
    requires add != []
    ensures var n := |add| - 1;
            (InstallsOn(ms, sys, m, add) <==> InstallsOn(ms, sys, m, add[..n]) || TakesAny(ms, sys, m, add[n].files)) &&
            (RemovesFrom(ms, sys, m, remove, add) <==>
             (RemovesFrom(ms, sys, m, remove, add[..n]) || (add[n].installed.Some? && FreesAny(ms, sys, m, add[n].installed.value))))
  {
    hide FreesAny, TakesAny;
    var n := |add| - 1;
    var before := add[..n];
    forall i | 0 <= i < n ensures before[i] == add[i] {}
    if i :| 0 <= i < |before| && TakesAny(ms, sys, m, before[i].files) { assert TakesAny(ms, sys, m, add[i].files); }
    if i :| 0 <= i < |add| && TakesAny(ms, sys, m, add[i].files) { assert i < n ==> TakesAny(ms, sys, m, before[i].files); }
    if i :| 0 <= i < |before| && before[i].installed.Some? && FreesAny(ms, sys, m, before[i].installed.value) {
      assert FreesAny(ms, sys, m, add[i].installed.value);
    }
    if i :| 0 <= i < |add| && add[i].installed.Some? && FreesAny(ms, sys, m, add[i].installed.value) {
      assert i < n ==> FreesAny(ms, sys, m, before[i].installed.value);
    }
  }

  /** What the check leaves in a mount point: the balance, the peak of the run, and whether it was touched. */
  lemma {:induction false} TallyMeans(ms: seq<MountPoint>, sys: System, m: MountPoint, remove: seq<seq<File>>, add: seq<Target>)
    requires m.bsize > 0
    ensures var t := AfterTargets(ms, sys, m, remove, add);
            t.needed == Net(ms, sys, m, remove, add) && IsPeak(ms, sys, m, remove, add, t.max) &&
            (t.installing <==> InstallsOn(ms, sys, m, add)) && (t.removing <==> RemovesFrom(ms, sys, m, remove, add))
  {
    hide Freed, Taken, IsPeak, InstallsOn, RemovesFrom, FreesAny, TakesAny, AfterRemovals;
    if add == [] {
      RemovalsTally(ms, sys, m, remove);
      NoTargets(ms, sys, m, remove);
    } else {
      TallyMeans(ms, sys, m, remove, add[..|add|-1]);
      PeakNext(ms, sys, m, remove, add, AfterTargets(ms, sys, m, remove, add[..|add|-1]).max);
      FlagsNext(ms, sys, m, remove, add);
    }
  }

  lemma NoTargets(ms: seq<MountPoint>, sys: System, m: MountPoint, remove: seq<seq<File>>)
    requires m.bsize > 0
    ensures IsPeak(ms, sys, m, remove, [], 0) && !InstallsOn(ms, sys, m, [])
  {
  }

  // ---- the check ----

  /** Roughly 5% of the file system, or 20 MiB if that is less. */
  function Cushion(m: MountPoint): nat
    requires m.bsize > 0
  {
    var fivepc, twentymb := m.blocks / 20 + 1, 20 * 1024 * 1024 / m.bsize + 1;
    if fivepc < twentymb then fivepc else twentymb
  }

  /** `check_mountpoint`: the peak and the cushion do not fit. */
  predicate TooFull(m: MountPoint, t: Tally)
    requires m.bsize > 0
  {
    var needed := t.max + Cushion(m);
    needed >= 0 && needed > m.bavail
  }

  predicate Rejects(m: MountPoint, t: Tally)
    requires m.bsize > 0
  {
    if (t.removing || t.installing) && m.readOnly then true else t.installing && TooFull(m, t)
  }

  /** The cushion is the smaller of what exceeds five percent of the blocks and what exceeds 20 MiB. */
  lemma CushionMeans(m: MountPoint)
    requires m.bsize > 0
    ensures Cushion(m) * 20 > m.blocks || Cushion(m) * m.bsize > 20 * 1024 * 1024
    ensures (Cushion(m) - 1) * 20 <= m.blocks && (Cushion(m) - 1) * m.bsize <= 20 * 1024 * 1024
  {
    var t := 20 * 1024 * 1024;
    assert t == t / m.bsize * m.bsize + t % m.bsize;
    SmallerProduct(Cushion(m) - 1, t / m.bsize, m.bsize);
    if Cushion(m) == t / m.bsize + 1 { assert Cushion(m) * m.bsize == t / m.bsize * m.bsize + m.bsize; }
  }

  lemma SmallerProduct(a: nat, b: nat, n: nat)
    requires a <= b
    ensures a * n <= b * n
  {
  }

  /** Removing alone needs no space, and installing alone gives none back. */
  lemma {:induction false} NetSigns(ms: seq<MountPoint>, sys: System, m: MountPoint, remove: seq<seq<File>>, add: seq<Target>)
    requires m.bsize > 0
    ensures Net(ms, sys, m, remove, []) <= 0
    ensures (forall i :: 0 <= i < |add| ==> add[i].installed.None?) ==> Net(ms, sys, m, [], add) >= 0
    decreases |remove| + |add|
  {
    hide Freed, Taken;
    if remove != [] { NetSigns(ms, sys, m, remove[..|remove|-1], []); }
    if add != [] { NetSigns(ms, sys, m, [], add[..|add|-1]); }
  }

  /** A file is charged where its path leads, one of the package's own metadata under the database path, in blocks that
      hold it; what a removed file gives back is what it occupies on disk. */
  lemma ChargesMean(ms: seq<MountPoint>, sys: System, m: MountPoint, f: File)
    requires m.bsize > 0 && f.name != ""
    ensures TakesOn(ms, sys, m, f) ==> TakenBy(ms, sys, m, f) * m.bsize >= f.size
    ensures TakesOn(ms, sys, m, f) && f.name[0] == '.' ==> Contains(m.dir, sys.root + sys.dbpath)
    ensures TakesOn(ms, sys, m, f) && f.name[0] != '.' ==> Contains(m.dir, sys.root + f.name)
    ensures FreesOn(ms, sys, m, f) ==>
              sys.root + f.name in sys.disk && Contains(m.dir, sys.root + f.name) &&
              FreedBy(ms, sys, m, f) * m.bsize >= sys.disk[sys.root+f.name].size
    ensures f.special || m.statFails ==> TakenBy(ms, sys, m, f) == 0
    ensures (sys.root + f.name in sys.disk ==> sys.disk[sys.root+f.name].special) || m.statFails ==> FreedBy(ms, sys, m, f) == 0
  {
    hide Ceil, Contains;
    CeilHolds(f.size, m.bsize);
    if FreesOn(ms, sys, m, f) { CeilHolds(sys.disk[sys.root+f.name].size, m.bsize); }
  }

  /** The transaction fits on `m`: it does not touch it if it is read-only, and if it installs files there the
      peak of the run and the cushion fit in the free blocks. */
  ghost predicate Fits(ms: seq<MountPoint>, sys: System, m: MountPoint, remove: seq<seq<File>>, add: seq<Target>)
    requires m.bsize > 0
  {
    && (m.readOnly ==> !InstallsOn(ms, sys, m, add) && !RemovesFrom(ms, sys, m, remove, add))
    && (InstallsOn(ms, sys, m, add) ==>
          exists peak :: IsPeak(ms, sys, m, remove, add, peak) && peak + Cushion(m) <= m.bavail)
  }

  lemma PeakUnique(ms: seq<MountPoint>, sys: System, m: MountPoint, remove: seq<seq<File>>, add: seq<Target>, p: int, q: int)
    requires m.bsize > 0 && IsPeak(ms, sys, m, remove, add, p) && IsPeak(ms, sys, m, remove, add, q)
    ensures p == q
  {
    hide Net;
  }

  lemma FitsIffNotRejected(ms: seq<MountPoint>, sys: System, m: MountPoint, remove: seq<seq<File>>, add: seq<Target>)
    requires m.bsize > 0
    ensures Fits(ms, sys, m, remove, add) <==> !Rejects(m, AfterTargets(ms, sys, m, remove, add))
  {
    hide IsPeak, InstallsOn, RemovesFrom, AfterTargets, Net;
    var t := AfterTargets(ms, sys, m, remove, add);
    TallyMeans(ms, sys, m, remove, add);
    AtLeastNothing(ms, sys, m, remove, add, t.max);
    forall peak | IsPeak(ms, sys, m, remove, add, peak) ensures peak == t.max {
      PeakUnique(ms, sys, m, remove, add, peak, t.max);
    }
  }

  lemma AtLeastNothing(ms: seq<MountPoint>, sys: System, m: MountPoint, remove: seq<seq<File>>, add: seq<Target>, peak: int)
    requires m.bsize > 0 && IsPeak(ms, sys, m, remove, add, peak)
    ensures peak >= 0
  {
  }

  /** The loop over the packages to remove. */
  method CountRemovals(ms: seq<MountPoint>, sys: System, remove: seq<seq<File>>)
    requires AllValid(ms) && forall m :: m in ms ==> m.tally == START
    modifies ms
    ensures AllValid(ms) && forall m :: m in ms ==> m.tally == AfterRemovals(ms, sys, m, remove)
  {
    hide AfterRemoval;
    var i := 0;
    while i < |remove|
      invariant i <= |remove| && AllValid(ms)
      invariant forall m :: m in ms ==> m.tally == AfterRemovals(ms, sys, m, remove[..i])
    {
      CalculateRemovedSize(ms, sys, remove[i]);
      assert remove[..i+1][..i] == remove[..i];
      i := i + 1;
    }
    assert remove[..|remove|] == remove;
  }

  /** One target: its old files, its new ones, and the peaks. */
  method CountTarget(ms: seq<MountPoint>, sys: System, target: Target)
    requires AllValid(ms)
    modifies ms
    ensures AllValid(ms)
    ensures forall m :: m in ms ==>
              m.tally == Peaked(AfterInstall(ms, sys, m, AfterOld(ms, sys, m, old(m.tally), target), target.files))
  {
    hide AfterRemoval, AfterInstall;
    if target.installed.Some? {
      CalculateRemovedSize(ms, sys, target.installed.value);
    }
    CalculateInstalledSize(ms, sys, target.files);
    UpdatePeaks(ms);
  }

  method UpdatePeaks(ms: seq<MountPoint>)
    requires AllValid(ms)
    modifies ms
    ensures AllValid(ms) && forall m :: m in ms ==> m.tally == Peaked(old(m.tally))
  {
    var i := 0;
    while i < |ms|
      invariant i <= |ms| && AllValid(ms)
      invariant forall m :: m in ms ==> m.tally == old(m.tally) || m.tally == Peaked(old(m.tally))
      invariant forall k :: 0 <= k < i ==> ms[k].tally == Peaked(old(ms[k].tally))
    {
      var data := ms[i];
      if data.tally.needed > data.tally.max {
        data.tally := data.tally.(max := data.tally.needed);
      }
      i := i + 1;
    }
  }

  /** The two loops over the packages. */
  method CountAll(ms: seq<MountPoint>, sys: System, remove: seq<seq<File>>, add: seq<Target>)
    requires AllValid(ms) && forall m :: m in ms ==> m.tally == START
    modifies ms
    ensures AllValid(ms) && forall m :: m in ms ==> m.tally == AfterTargets(ms, sys, m, remove, add)
  {
    hide AfterTargets, AfterRemovals, Peaked, AfterInstall, AfterOld;
    CountRemovals(ms, sys, remove);
    forall m | m in ms ensures AfterTargets(ms, sys, m, remove, add[..0]) == AfterRemovals(ms, sys, m, remove) {
      NoTargetsYet(ms, sys, m, remove, add);
    }
    var i := 0;
    while i < |add|
      invariant i <= |add| && AllValid(ms)
      invariant forall m :: m in ms ==> m.tally == AfterTargets(ms, sys, m, remove, add[..i])
    {
      forall m | m in ms ensures AfterTargets(ms, sys, m, remove, add[..i+1]) ==
                Peaked(AfterInstall(ms, sys, m, AfterOld(ms, sys, m, AfterTargets(ms, sys, m, remove, add[..i]), add[i]), add[i].files)) {
        NextTarget(ms, sys, m, remove, add, i);
      }
      CountTarget(ms, sys, add[i]);
      i := i + 1;
    }
    assert add[..|add|] == add;
  }

  /** `mount_point_list`, on the mount points `found`: sorted so that directories come before their parents. */
  method MountPointList(found: seq<MountPoint>) returns (ms: seq<MountPoint>)
    ensures Sorted(ms, DirOf, Reversed) && multiset(ms) == multiset(found) && |ms| == |found|
    ensures forall i :: 0 <= i < |ms| ==> ms[i] in found
  {
    hide MergeSort, Reversed;
    ms := MergeSort(found, DirOf, Reversed);
    ReversedCompares();
    MergeSortSorts(found, DirOf, Reversed);
    MergeSortPermutes(found, DirOf, Reversed);
    SameMounts(found, ms);
  }

  /** `_alpm_check_diskspace` */
  method CheckDiskspace(found: seq<MountPoint>, sys: System, remove: seq<seq<File>>, add: seq<Target>) returns (ret: int, ghost ms: seq<MountPoint>)
    requires AllValid(found) && forall m :: m in found ==> m.tally == START
    modifies found
    ensures Sorted(ms, DirOf, Reversed) && multiset(ms) == multiset(found) && AllValid(ms)
    ensures ret == 0 || ret == -1
    ensures ret == 0 <==>
            found != [] && Match(ms, sys.root).Some? && forall m :: m in ms ==> Fits(ms, sys, m, remove, add)
  {
    hide AfterTargets, Fits, Rejects, Match, Sorted;
    var mounts := MountPointList(found);
    ms := mounts;
    if mounts == [] { return -1, ms; }
    var rootMp := MatchMountPoint(mounts, sys.root);
    if rootMp == null { return -1, ms; }
    CountAll(mounts, sys, remove, add);
    var error := AnyRejects(mounts);
    forall m | m in ms ensures Fits(ms, sys, m, remove, add) <==> !Rejects(m, m.tally) { FitsIffNotRejected(ms, sys, m, remove, add); }
    ret := if error then -1 else 0;
  }

  method AnyRejects(ms: seq<MountPoint>) returns (error: bool)
    requires AllValid(ms)
    ensures !error <==> forall m :: m in ms ==> !Rejects(m, m.tally)
  {
    hide Rejects;
    error := false;
    var i := 0;
    while i < |ms|
      invariant i <= |ms| && (error <==> exists k :: 0 <= k < i && ms[k].bsize > 0 && Rejects(ms[k], ms[k].tally))
    {
      assert ms[i] in ms;
      if Rejects(ms[i], ms[i].tally) { error := true; }
      i := i + 1;
    }
    assert error ==> exists m :: m in ms && Rejects(m, m.tally);
  }

  lemma SameMounts(found: seq<MountPoint>, ms: seq<MountPoint>)
    requires multiset(found) == multiset(ms)
    ensures (forall m :: m in ms <==> m in found) && |ms| == |found|
    ensures forall i :: 0 <= i < |ms| ==> ms[i] in found
  {
    MembersOfPermutation(found, ms);
    assert |multiset(found)| == |multiset(ms)|;
    forall i | 0 <= i < |ms| ensures ms[i] in found { assert ms[i] in multiset(ms); }
  }

  lemma NoTargetsYet(ms: seq<MountPoint>, sys: System, m: MountPoint, remove: seq<seq<File>>, add: seq<Target>)
    requires m.bsize > 0
    ensures AfterTargets(ms, sys, m, remove, add[..0]) == AfterRemovals(ms, sys, m, remove)
  {
  }

  lemma NextTarget(ms: seq<MountPoint>, sys: System, m: MountPoint, remove: seq<seq<File>>, add: seq<Target>, i: nat)
    requires m.bsize > 0 && i < |add|
    ensures AfterTargets(ms, sys, m, remove, add[..i+1]) ==
            Peaked(AfterInstall(ms, sys, m, AfterOld(ms, sys, m, AfterTargets(ms, sys, m, remove, add[..i]), add[i]), add[i].files))
  {
    hide Peaked, AfterInstall, AfterOld;
    assert add[..i+1][..i] == add[..i];
  }
}
