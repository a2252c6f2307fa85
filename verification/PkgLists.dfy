/** Lists of packages: looking up by name, filtering, and what a list's elements are. */
module PkgLists {
  import opened Common
  import opened Package

  predicate HasName(pkgs: seq<Pkg>, name: string) {
    exists i :: 0 <= i < |pkgs| && pkgs[i].name == name
  }

  lemma NoName(name: string)
    ensures !HasName([], name)
  {
  }

  /** `alpm_pkg_find` */
  function FindPkg(pkgs: seq<Pkg>, name: string): (r: Option<Pkg>)
    ensures r.Some? <==> HasName(pkgs, name)
    ensures r.Some? ==> r.value in pkgs && r.value.name == name
  {
    if pkgs == [] then None
    else if pkgs[0].name == name then Some(pkgs[0])
    else
      assert HasName(pkgs, name) <==> HasName(pkgs[1..], name) by {
        if i :| 0 <= i < |pkgs| && pkgs[i].name == name { assert pkgs[1..][i-1].name == name; }
      }
      FindPkg(pkgs[1..], name)
  }

  /** The package found is the first of its name. */
  lemma {:induction false} FirstNamed(pkgs: seq<Pkg>, name: string)
    requires HasName(pkgs, name)
    ensures exists i :: 0 <= i < |pkgs| && FindPkg(pkgs, name) == Some(pkgs[i]) && forall k :: 0 <= k < i ==> pkgs[k].name != name
  {
    if pkgs[0].name != name {
      var j :| 0 <= j < |pkgs| && pkgs[j].name == name;
      assert pkgs[1..][j-1].name == name;
      FirstNamed(pkgs[1..], name);
      var i :| 0 <= i < |pkgs[1..]| && FindPkg(pkgs[1..], name) == Some(pkgs[1..][i]) &&
               forall k :: 0 <= k < i ==> pkgs[1..][k].name != name;
      forall k | 0 <= k < i + 1 ensures pkgs[k].name != name { assert k > 0 ==> pkgs[1..][k-1].name != name; }
      assert pkgs[i+1] == pkgs[1..][i];
    }
  }

  ghost predicate DistinctNames(pkgs: seq<Pkg>) {
    forall i, j :: 0 <= i < j < |pkgs| ==> pkgs[i].name != pkgs[j].name
  }

  /** Every package of the first list is on the second. */
  ghost predicate SubsetOf(s: seq<Pkg>, t: seq<Pkg>) { forall p :: p in s ==> p in t }

  function Keep(pkgs: seq<Pkg>, p: Pkg -> bool): (r: seq<Pkg>)
    ensures forall x :: x in r <==> x in pkgs && p(x)
  {
    if pkgs == [] then []
    else
      var n := |pkgs| - 1;
      assert pkgs == pkgs[..n] + [pkgs[n]];
      if p(pkgs[n]) then Keep(pkgs[..n], p) + [pkgs[n]] else Keep(pkgs[..n], p)
  }

  lemma {:induction false} KeepSplits(s: seq<Pkg>, p: Pkg -> bool, q: Pkg -> bool)
    requires forall x :: p(x) != q(x)
    ensures multiset(Keep(s, p)) + multiset(Keep(s, q)) == multiset(s)
  {
    if s != [] {
      var n := |s| - 1;
      KeepSplits(s[..n], p, q);
      assert s == s[..n] + [s[n]];
    }
  }

  lemma MultisetMembers(a: seq<Pkg>, b: seq<Pkg>, c: seq<Pkg>)
    requires multiset(a) + multiset(b) == multiset(c)
    ensures forall x :: x in c <==> x in a || x in b
  {
    forall x ensures x in c <==> x in a || x in b {
      assert x in c <==> x in multiset(c);
      assert x in a <==> x in multiset(a);
      assert x in b <==> x in multiset(b);
    }
  }

  lemma {:induction false} DistinctCounts(s: seq<Pkg>)
    requires Distinct(s)
    ensures forall x :: multiset(s)[x] <= 1
  {
    if s != [] {
      var n := |s| - 1;
      DistinctCounts(s[..n]);
      assert s == s[..n] + [s[n]];
      forall k | 0 <= k < n ensures s[..n][k] != s[n] {}
      assert s[n] !in s[..n] && s[n] !in multiset(s[..n]);
    }
  }

  lemma CountsDistinct(s: seq<Pkg>)
    requires forall x :: multiset(s)[x] <= 1
    ensures Distinct(s)
  {
    forall i, j | 0 <= i < j < |s| ensures s[i] != s[j] {
      assert s == s[..j] + [s[j]] + s[j+1..];
      assert multiset(s)[s[j]] == multiset(s[..j])[s[j]] + 1 + multiset(s[j+1..])[s[j]];
      assert s[j] !in multiset(s[..j]);
      assert s[..j][i] == s[i] && s[i] in multiset(s[..j]);
    }
  }

  lemma DistinctPart(a: seq<Pkg>, b: seq<Pkg>, c: seq<Pkg>)
    requires multiset(a) + multiset(b) == multiset(c) && Distinct(c)
    ensures Distinct(a)
  {
    DistinctCounts(c);
    forall x ensures multiset(a)[x] <= 1 {
      assert multiset(a)[x] <= (multiset(a) + multiset(b))[x];
    }
    CountsDistinct(a);
  }

  lemma KeepSizes(s: seq<Pkg>, p: Pkg -> bool, q: Pkg -> bool)
    requires forall x :: p(x) != q(x)
    ensures |Keep(s, p)| + |Keep(s, q)| == |s|
  {
    hide Keep;
    KeepSplits(s, p, q);
    assert |multiset(Keep(s, p)) + multiset(Keep(s, q))| == |multiset(s)|;
  }

  lemma {:induction false} DistinctFits(s: seq<Pkg>, d: seq<Pkg>)
    requires Distinct(s) && forall p :: p in s ==> p in d
    ensures |s| <= |d|
  {
    DistinctCounts(s);
    forall x ensures multiset(s)[x] <= multiset(d)[x] {
      if x in multiset(s) { assert x in s && x in d && x in multiset(d); }
    }
    assert multiset(s) <= multiset(d);
    assert multiset(d) == multiset(s) + (multiset(d) - multiset(s));
    assert |multiset(d)| == |multiset(s)| + |multiset(d) - multiset(s)|;
  }

  lemma KeepNone(p: Pkg -> bool)
    ensures Keep([], p) == []
  {
  }

  lemma KeepNext(s: seq<Pkg>, x: Pkg, p: Pkg -> bool)
    ensures Keep(s + [x], p) == if p(x) then Keep(s, p) + [x] else Keep(s, p)
  {
    assert (s + [x])[..|s|] == s;
  }

  lemma {:induction false} KeepDistinct(s: seq<Pkg>, p: Pkg -> bool)
    requires Distinct(s)
    ensures Distinct(Keep(s, p))
  {
    if s != [] {
      var rest, last := s[..|s|-1], s[|s|-1];
      forall i | 0 <= i < |rest| ensures rest[i] != last {}
      KeepDistinct(rest, p);
    }
  }

  lemma SameMembers(s: seq<Pkg>, t: seq<Pkg>)
    requires Distinct(s) && Distinct(t) && forall x :: x in s <==> x in t
    ensures multiset(s) == multiset(t)
  {
    DistinctCounts(s);
    DistinctCounts(t);
    forall x ensures multiset(s)[x] == multiset(t)[x] {
      assert x in multiset(s) <==> x in s;
      assert x in multiset(t) <==> x in t;
    }
  }

  lemma {:induction false} ReversePermutes(s: seq<Pkg>)
    ensures multiset(Reverse(s)) == multiset(s)
  {
    if s != [] {
      ReversePermutes(s[1..]);
      assert s == [s[0]] + s[1..];
    }
  }
}
