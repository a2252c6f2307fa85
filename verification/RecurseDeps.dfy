/** Growing a removal list by the dependencies that nothing else needs. */
module RecurseDeps {
  import opened Common
  import opened Package
  import opened PkgLists
  import opened Deps

  // ---- what is to be added ----

  /** Installed and not a target. */
  ghost predicate InPool(local: seq<Pkg>, targs: seq<Pkg>, p: Pkg) {
    p in local && !HasName(targs, p.name)
  }

  predicate Selectable(p: Pkg, includeExplicit: bool) { includeExplicit || p.reason != Explicit }

  /** A walk along dependencies from a target through selectable packages of the pool. */
  ghost predicate Chain(local: seq<Pkg>, targs: seq<Pkg>, includeExplicit: bool, path: seq<Pkg>) {
    && |path| > 1 && path[0] in targs
    && (forall i :: 1 <= i < |path| ==> InPool(local, targs, path[i]) && Selectable(path[i], includeExplicit))
    && (forall i :: 0 <= i < |path| - 1 ==> DependsOn(path[i], path[i+1]))
  }

  ghost predicate Candidate(local: seq<Pkg>, targs: seq<Pkg>, includeExplicit: bool, q: Pkg) {
    exists path :: Chain(local, targs, includeExplicit, path) && path[|path|-1] == q
  }

  /** A set of candidates that no package staying installed depends on. */
  ghost predicate Removable(local: seq<Pkg>, targs: seq<Pkg>, includeExplicit: bool, s: iset<Pkg>) {
    && (forall q :: q in s ==> Candidate(local, targs, includeExplicit, q))
    && (forall p, q :: InPool(local, targs, p) && p !in s && q in s ==> !DependsOn(p, q))
  }

  /** `rem` is the greatest removable set. */
  ghost predicate GreatestRemovable(local: seq<Pkg>, targs: seq<Pkg>, includeExplicit: bool, rem: seq<Pkg>) {
    && Removable(local, targs, includeExplicit, iset q | q in rem)
    && (forall s: iset<Pkg> :: Removable(local, targs, includeExplicit, s) ==> forall q :: q in s ==> q in rem)
  }

  // ---- _alpm_select_depends ----

  predicate Selects(pkg: Pkg, includeExplicit: bool, q: Pkg) { Selectable(q, includeExplicit) && DependsOn(pkg, q) }

  method SelectDepends(from0: seq<Pkg>, to0: seq<Pkg>, pkg: Pkg, includeExplicit: bool) returns (from: seq<Pkg>, to: seq<Pkg>)
    ensures to == to0 + Keep(from0, q => Selects(pkg, includeExplicit, q))
    ensures from == Keep(from0, q => !Selects(pkg, includeExplicit, q))
  {
    if pkg.depends == [] {
      NoDependencies(pkg, includeExplicit);
      NothingSelected(from0, pkg, includeExplicit);
      return from0, to0;
    }
    hide DependsOn;
    from, to := [], to0;
    var i := 0;
    while i < |from0|
      invariant i <= |from0|
      invariant to == to0 + Keep(from0[..i], q => Selects(pkg, includeExplicit, q))
      invariant from == Keep(from0[..i], q => !Selects(pkg, includeExplicit, q))
    {
      var deppkg := from0[i];
      assert from0[..i+1][..i] == from0[..i];
      if Selectable(deppkg, includeExplicit) && DependsOn(pkg, deppkg) {
        to := to + [deppkg];
      } else {
        from := from + [deppkg];
      }
      i := i + 1;
    }
    assert from0[..|from0|] == from0;
  }

  lemma NoDependencies(pkg: Pkg, includeExplicit: bool)
    requires pkg.depends == []
    ensures forall q :: !Selects(pkg, includeExplicit, q)
  {
    hide DepCmp;
  }

  lemma {:induction false} NothingSelected(s: seq<Pkg>, pkg: Pkg, includeExplicit: bool)
    requires forall q :: !Selects(pkg, includeExplicit, q)
    ensures Keep(s, q => Selects(pkg, includeExplicit, q)) == []
    ensures Keep(s, q => !Selects(pkg, includeExplicit, q)) == s
  {
    hide Selects;
    if s != [] { NothingSelected(s[..|s|-1], pkg, includeExplicit); }
  }

  /** The two lists hold the packages of `pool` between them. */
  ghost predicate Shares(keep: seq<Pkg>, rem: seq<Pkg>, pool: seq<Pkg>) {
    multiset(keep) + multiset(rem) == multiset(pool)
  }

  lemma SelectShares(from0: seq<Pkg>, to0: seq<Pkg>, from: seq<Pkg>, to: seq<Pkg>, pkg: Pkg, includeExplicit: bool, pool: seq<Pkg>)
    requires Shares(from0, to0, pool)
    requires to == to0 + Keep(from0, q => Selects(pkg, includeExplicit, q))
    requires from == Keep(from0, q => !Selects(pkg, includeExplicit, q))
    ensures Shares(from, to, pool)
  {
    hide Selects, Keep;
    KeepSplits(from0, q => Selects(pkg, includeExplicit, q), q => !Selects(pkg, includeExplicit, q));
  }

  // ---- the pool ----

  function RemoveByName(s: seq<Pkg>, name: string): seq<Pkg> {
    if s == [] then [] else if s[0].name == name then s[1..] else [s[0]] + RemoveByName(s[1..], name)
  }

  lemma {:induction false} RemoveByNameMembers(s: seq<Pkg>, name: string)
    requires DistinctNames(s)
    ensures DistinctNames(RemoveByName(s, name))
    ensures forall x :: x in RemoveByName(s, name) <==> x in s && x.name != name
  {
    if s != [] {
      assert s == [s[0]] + s[1..];
      if s[0].name == name {
        forall x | x in s[1..] ensures x.name != name {
          var i :| 0 <= i < |s[1..]| && s[1..][i] == x;
          assert s[i+1] == x && s[0].name != s[i+1].name;
        }
      } else {
        RemoveByNameMembers(s[1..], name);
        var r := RemoveByName(s[1..], name);
        forall i | 0 <= i < |r| ensures r[i].name != s[0].name {
          assert r[i] in r && r[i] in s[1..];
          var k :| 0 <= k < |s[1..]| && s[1..][k] == r[i];
          assert s[k+1] == r[i] && s[0].name != s[k+1].name;
        }
      }
    }
  }

  /** The copy of the cache without the targets. */
  method PoolOf(local: seq<Pkg>, targs: seq<Pkg>) returns (keep: seq<Pkg>)
    requires DistinctNames(local)
    ensures DistinctNames(keep) && forall x :: x in keep <==> InPool(local, targs, x)
  {
    keep := local;
    var i := 0;
    while i < |targs|
      invariant i <= |targs| && DistinctNames(keep)
      invariant forall x :: x in keep <==> x in local && !HasName(targs[..i], x.name)
    {
      RemoveByNameMembers(keep, targs[i].name);
      ghost var before := keep;
      keep := RemoveByName(keep, targs[i].name);
      forall x ensures x in keep <==> x in local && !HasName(targs[..i+1], x.name) {
        HasNameSnoc(targs, i, x.name);
      }
      i := i + 1;
    }
    assert targs[..|targs|] == targs;
  }

  lemma HasNameSnoc(s: seq<Pkg>, i: nat, name: string)
    requires i < |s|
    ensures HasName(s[..i+1], name) <==> HasName(s[..i], name) || s[i].name == name
  {
    if HasName(s[..i+1], name) {
      var k :| 0 <= k < |s[..i+1]| && s[..i+1][k].name == name;
      assert k < i ==> s[..i][k].name == name;
    }
    if HasName(s[..i], name) {
      var k :| 0 <= k < |s[..i]| && s[..i][k].name == name;
      assert s[..i+1][k].name == name;
    }
    assert s[..i+1][i] == s[i];
  }

  // ---- growing: everything the targets reach ----

  /** What has been selected is a candidate, and the sources looked at select nothing more. */
  ghost predicate Grown(local: seq<Pkg>, targs: seq<Pkg>, includeExplicit: bool, keep: seq<Pkg>, rem: seq<Pkg>, i: nat, j: nat) {
    && i <= |targs| && j <= |rem|
    && (forall q :: q in rem ==> Candidate(local, targs, includeExplicit, q))
    && (forall a, q :: 0 <= a < i && q in keep ==> !Selects(targs[a], includeExplicit, q))
    && (forall b, q :: 0 <= b < j && q in keep ==> !Selects(rem[b], includeExplicit, q))
  }

  lemma CandidateStart(local: seq<Pkg>, targs: seq<Pkg>, includeExplicit: bool, t: Pkg, q: Pkg)
    requires t in targs && InPool(local, targs, q) && Selects(t, includeExplicit, q)
    ensures Candidate(local, targs, includeExplicit, q)
  {
    hide DependsOn, InPool;
    assert Chain(local, targs, includeExplicit, [t, q]);
  }

  lemma CandidateStep(local: seq<Pkg>, targs: seq<Pkg>, includeExplicit: bool, p: Pkg, q: Pkg)
    requires Candidate(local, targs, includeExplicit, p) && InPool(local, targs, q) && Selects(p, includeExplicit, q)
    ensures Candidate(local, targs, includeExplicit, q)
  {
    hide DependsOn, InPool;
    var path :| Chain(local, targs, includeExplicit, path) && path[|path|-1] == p;
    assert Chain(local, targs, includeExplicit, path + [q]);
  }

  ghost predicate CandidatesFrom(local: seq<Pkg>, targs: seq<Pkg>, includeExplicit: bool, src: Pkg) {
    src in targs || Candidate(local, targs, includeExplicit, src)
  }

  lemma GrownSelect(local: seq<Pkg>, targs: seq<Pkg>, includeExplicit: bool, keep0: seq<Pkg>, rem0: seq<Pkg>,
                    keep: seq<Pkg>, rem: seq<Pkg>, src: Pkg, i: nat, j: nat, i': nat, j': nat)
    requires Grown(local, targs, includeExplicit, keep0, rem0, i, j) && CandidatesFrom(local, targs, includeExplicit, src)
    requires forall q :: q in keep0 ==> InPool(local, targs, q)
    requires rem == rem0 + Keep(keep0, q => Selects(src, includeExplicit, q))
    requires keep == Keep(keep0, q => !Selects(src, includeExplicit, q))
    requires (i' == i + 1 <= |targs| && j' == j && src == targs[i]) || (i' == i && j' == j + 1 <= |rem0| && src == rem0[j])
    ensures Grown(local, targs, includeExplicit, keep, rem, i', j')
    ensures forall q :: q in keep ==> InPool(local, targs, q)
  {
    hide Selects, Candidate, InPool, Keep, CandidatesFrom;
    forall q | q in rem ensures Candidate(local, targs, includeExplicit, q) {
      if q !in rem0 {
        assert Selects(src, includeExplicit, q) && InPool(local, targs, q);
        SelectedIsCandidate(local, targs, includeExplicit, src, q);
      }
    }
    forall b | 0 <= b < j' ensures rem[b] == rem0[b] {}
  }

  lemma SelectedIsCandidate(local: seq<Pkg>, targs: seq<Pkg>, includeExplicit: bool, src: Pkg, q: Pkg)
    requires CandidatesFrom(local, targs, includeExplicit, src) && InPool(local, targs, q) && Selects(src, includeExplicit, q)
    ensures Candidate(local, targs, includeExplicit, q)
  {
    hide Selects, Candidate, InPool;
    if src in targs {
      CandidateStart(local, targs, includeExplicit, src, q);
    } else {
      CandidateStep(local, targs, includeExplicit, src, q);
    }
  }

  /** Once every source has been looked at, the candidates are exactly what was selected. */
  lemma GrownCandidates(local: seq<Pkg>, targs: seq<Pkg>, includeExplicit: bool, keep: seq<Pkg>, rem: seq<Pkg>, q: Pkg)
    requires Grown(local, targs, includeExplicit, keep, rem, |targs|, |rem|)
    requires forall x :: x in keep || x in rem <==> InPool(local, targs, x)
    ensures Candidate(local, targs, includeExplicit, q) <==> q in rem
  {
    hide Selects, InPool, DependsOn;
    if Candidate(local, targs, includeExplicit, q) {
      var path :| Chain(local, targs, includeExplicit, path) && path[|path|-1] == q;
      ChainSelected(local, targs, includeExplicit, keep, rem, path, |path| - 1);
    }
  }

  lemma {:induction false} ChainSelected(local: seq<Pkg>, targs: seq<Pkg>, includeExplicit: bool, keep: seq<Pkg>, rem: seq<Pkg>,
                                         path: seq<Pkg>, k: nat)
    requires Grown(local, targs, includeExplicit, keep, rem, |targs|, |rem|)
    requires forall x :: x in keep || x in rem <==> InPool(local, targs, x)
    requires Chain(local, targs, includeExplicit, path) && 1 <= k < |path|
    ensures path[k] in rem
  {
    hide InPool, DependsOn, Candidate;
    var src := path[k-1];
    assert DependsOn(src, path[k-1+1]);
    assert Selects(src, includeExplicit, path[k]);
    if k == 1 {
      var a :| 0 <= a < |targs| && targs[a] == src;
    } else {
      ChainSelected(local, targs, includeExplicit, keep, rem, path, k - 1);
      var b :| 0 <= b < |rem| && rem[b] == src;
    }
  }

  // ---- shrinking: everything still needed goes back ----

  /** The first `i` kept packages need nothing selected, and no removable set contains a kept package. */
  ghost predicate Shrunk(local: seq<Pkg>, targs: seq<Pkg>, includeExplicit: bool, keep: seq<Pkg>, rem: seq<Pkg>, i: nat) {
    && i <= |keep|
    && (forall q :: q in rem ==> Candidate(local, targs, includeExplicit, q))
    && (forall a, q :: 0 <= a < i && q in rem ==> !DependsOn(keep[a], q))
    && (forall s: iset<Pkg>, p :: Removable(local, targs, includeExplicit, s) && p in keep ==> p !in s)
  }

  lemma ShrunkStart(local: seq<Pkg>, targs: seq<Pkg>, includeExplicit: bool, keep: seq<Pkg>, rem: seq<Pkg>)
    requires forall q :: Candidate(local, targs, includeExplicit, q) <==> q in rem
    requires forall p :: p in keep ==> p !in rem
    ensures Shrunk(local, targs, includeExplicit, keep, rem, 0)
  {
    hide Candidate, DependsOn, InPool;
  }

  lemma ShrunkSelect(local: seq<Pkg>, targs: seq<Pkg>, includeExplicit: bool, keep0: seq<Pkg>, rem0: seq<Pkg>,
                     keep: seq<Pkg>, rem: seq<Pkg>, i: nat)
    requires Shrunk(local, targs, includeExplicit, keep0, rem0, i) && i < |keep0|
    requires forall p :: p in keep0 ==> InPool(local, targs, p)
    requires keep == keep0 + Keep(rem0, q => Selects(keep0[i], true, q))
    requires rem == Keep(rem0, q => !Selects(keep0[i], true, q))
    ensures Shrunk(local, targs, includeExplicit, keep, rem, i + 1)
  {
    hide Candidate, DependsOn, InPool;
    forall s: iset<Pkg>, p | Removable(local, targs, includeExplicit, s) && p in keep ensures p !in s {
      if p !in keep0 {
        assert p in Keep(rem0, q => Selects(keep0[i], true, q));
        assert keep0[i] in keep0 && keep0[i] !in s;
      }
    }
    forall a | 0 <= a < i + 1 ensures keep[a] == keep0[a] {}
  }

  lemma ShrunkIsGreatest(local: seq<Pkg>, targs: seq<Pkg>, includeExplicit: bool, keep: seq<Pkg>, rem: seq<Pkg>, i: nat)
    requires Shrunk(local, targs, includeExplicit, keep, rem, i) && (i == |keep| || rem == [])
    requires forall x :: x in keep || x in rem <==> InPool(local, targs, x)
    requires forall q :: Candidate(local, targs, includeExplicit, q) ==> InPool(local, targs, q)
    ensures GreatestRemovable(local, targs, includeExplicit, rem)
  {
    hide Candidate, DependsOn, InPool;
    forall p, q | InPool(local, targs, p) && p !in rem && q in rem ensures !DependsOn(p, q) {
      assert p in keep;
      var a :| 0 <= a < |keep| && keep[a] == p;
    }
    forall s: iset<Pkg> | Removable(local, targs, includeExplicit, s) ensures forall q :: q in s ==> q in rem {
      forall q | q in s ensures q in rem {
        assert Candidate(local, targs, includeExplicit, q) && InPool(local, targs, q);
        assert q in keep ==> q !in s;
      }
    }
  }

  // ---- _alpm_recursedeps ----

  lemma SharesMembers(local: seq<Pkg>, targs: seq<Pkg>, keep: seq<Pkg>, rem: seq<Pkg>, pool: seq<Pkg>)
    requires Shares(keep, rem, pool) && forall x :: x in pool <==> InPool(local, targs, x)
    ensures forall x :: x in keep || x in rem <==> InPool(local, targs, x)
  {
    hide InPool;
    MultisetMembers(keep, rem, pool);
  }

  lemma NamesDistinct(pool: seq<Pkg>)
    requires DistinctNames(pool)
    ensures Distinct(pool)
  {
  }

  lemma SharesApart(keep: seq<Pkg>, rem: seq<Pkg>, pool: seq<Pkg>)
    requires Shares(keep, rem, pool) && Distinct(pool)
    ensures Distinct(rem) && forall p :: p in keep ==> p !in rem
  {
    DistinctCounts(pool);
    DistinctPart(rem, keep, pool);
    forall p | p in keep ensures p !in rem {
      assert p in multiset(keep) && multiset(keep)[p] + multiset(rem)[p] == multiset(pool)[p];
    }
  }

  /** Moves everything the targets reach from `keep` to `rem`. */
  method SelectReached(local: seq<Pkg>, targs: seq<Pkg>, includeExplicit: bool, keep0: seq<Pkg>, ghost pool: seq<Pkg>)
    returns (keep: seq<Pkg>, rem: seq<Pkg>)
    requires keep0 == pool && forall x :: x in pool <==> InPool(local, targs, x)
    ensures Shares(keep, rem, pool) && forall q :: Candidate(local, targs, includeExplicit, q) <==> q in rem
  {
    hide Selects, Candidate, InPool, Keep;
    keep, rem := keep0, [];
    var i := 0;
    while i < |targs|
      invariant i <= |targs| && Shares(keep, rem, pool) && Grown(local, targs, includeExplicit, keep, rem, i, 0)
      invariant forall q :: q in keep ==> InPool(local, targs, q)
    {
      ghost var k0, r0 := keep, rem;
      keep, rem := SelectDepends(keep, rem, targs[i], includeExplicit);
      SelectShares(k0, r0, keep, rem, targs[i], includeExplicit, pool);
      GrownSelect(local, targs, includeExplicit, k0, r0, keep, rem, targs[i], i, 0, i + 1, 0);
      i := i + 1;
    }
    var j := 0;
    while j < |rem|
      invariant j <= |rem| && Shares(keep, rem, pool) && Grown(local, targs, includeExplicit, keep, rem, |targs|, j)
      invariant forall q :: q in keep ==> InPool(local, targs, q)
      decreases |keep| + |rem| - j
    {
      ghost var k0, r0 := keep, rem;
      keep, rem := SelectDepends(keep, rem, rem[j], includeExplicit);
      SelectShares(k0, r0, keep, rem, r0[j], includeExplicit, pool);
      SharesSize(k0, r0, pool);
      SharesSize(keep, rem, pool);
      GrownSelect(local, targs, includeExplicit, k0, r0, keep, rem, r0[j], |targs|, j, |targs|, j + 1);
      j := j + 1;
    }
    SharesMembers(local, targs, keep, rem, pool);
    forall q ensures Candidate(local, targs, includeExplicit, q) <==> q in rem {
      GrownCandidates(local, targs, includeExplicit, keep, rem, q);
    }
  }

  lemma SharesSize(keep: seq<Pkg>, rem: seq<Pkg>, pool: seq<Pkg>)
    requires Shares(keep, rem, pool)
    ensures |keep| + |rem| == |pool|
  {
    assert |multiset(keep) + multiset(rem)| == |multiset(pool)|;
  }

  /** Moves everything a kept package needs back from `rem` to `keep`. */
  method KeepNeeded(local: seq<Pkg>, targs: seq<Pkg>, includeExplicit: bool, keep0: seq<Pkg>, rem0: seq<Pkg>, ghost pool: seq<Pkg>)
    returns (rem: seq<Pkg>)
    requires Distinct(pool) && Shares(keep0, rem0, pool) && forall x :: x in pool <==> InPool(local, targs, x)
    requires forall q :: Candidate(local, targs, includeExplicit, q) <==> q in rem0
    ensures Distinct(rem) && GreatestRemovable(local, targs, includeExplicit, rem)
    ensures forall q :: q in rem ==> InPool(local, targs, q)
  {
    hide Selects, Candidate, InPool, Keep, GreatestRemovable;
    var keep := keep0;
    rem := rem0;
    SharesMembers(local, targs, keep, rem, pool);
    SharesApart(keep, rem, pool);
    ShrunkStart(local, targs, includeExplicit, keep, rem);
    var i := 0;
    while i < |keep| && rem != []
      invariant i <= |keep| && Shares(keep, rem, pool) && Shrunk(local, targs, includeExplicit, keep, rem, i)
      decreases |keep| + |rem| - i
    {
      ghost var k0, r0 := keep, rem;
      SharesMembers(local, targs, keep, rem, pool);
      rem, keep := SelectDepends(rem, keep, keep[i], true);
      SharesSwap(k0, r0, pool);
      SelectShares(r0, k0, rem, keep, k0[i], true, pool);
      SharesSwap(rem, keep, pool);
      SharesSize(k0, r0, pool);
      SharesSize(keep, rem, pool);
      ShrunkSelect(local, targs, includeExplicit, k0, r0, keep, rem, i);
      i := i + 1;
    }
    SharesMembers(local, targs, keep, rem, pool);
    SharesApart(keep, rem, pool);
    ShrunkIsGreatest(local, targs, includeExplicit, keep, rem, i);
  }

  lemma SharesSwap(keep: seq<Pkg>, rem: seq<Pkg>, pool: seq<Pkg>)
    requires Shares(keep, rem, pool)
    ensures Shares(rem, keep, pool)
  {
    assert multiset(keep) + multiset(rem) == multiset(rem) + multiset(keep);
  }

  /** `_alpm_recursedeps`: appends the greatest removable set to the targets. */
  method RecurseDeps(local: seq<Pkg>, targs0: seq<Pkg>, includeExplicit: bool) returns (targs: seq<Pkg>)
    requires DistinctNames(local)
    ensures targs0 <= targs && Distinct(targs[|targs0|..])
    ensures GreatestRemovable(local, targs0, includeExplicit, targs[|targs0|..])
    ensures forall q :: q in targs[|targs0|..] ==> InPool(local, targs0, q)
  {
    hide Candidate, InPool, GreatestRemovable;
    var pool := PoolOf(local, targs0);
    NamesDistinct(pool);
    var keep, rem := SelectReached(local, targs0, includeExplicit, pool, pool);
    rem := KeepNeeded(local, targs0, includeExplicit, keep, rem, pool);
    targs := targs0;
    var i := 0;
    while i < |rem|
      invariant i <= |rem| && targs == targs0 + rem[..i]
    {
      targs := targs + [rem[i]];
      i := i + 1;
    }
    assert targs[|targs0|..] == rem;
  }
}
