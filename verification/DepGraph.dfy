/** The dependency graph on a set of packages, as a relation. */
module DepGraph {
  import opened Package
  import opened PkgLists
  import opened Deps

  /** A walk along dependencies that stays inside `nodes`. */
  ghost predicate IsPath(nodes: seq<Pkg>, path: seq<Pkg>) {
    && path != []
    && (forall i :: 0 <= i < |path| ==> path[i] in nodes)
    && (forall i :: 0 <= i < |path| - 1 ==> DependsOn(path[i], path[i+1]))
  }

  ghost predicate Joins(nodes: seq<Pkg>, path: seq<Pkg>, u: Pkg, v: Pkg) {
    IsPath(nodes, path) && path[0] == u && path[|path|-1] == v
  }

  ghost predicate Reaches(nodes: seq<Pkg>, u: Pkg, v: Pkg) {
    exists path :: Joins(nodes, path, u, v)
  }

  /** No cycle joins two different packages; a package may satisfy its own dependency. */
  ghost predicate Acyclic(nodes: seq<Pkg>) {
    forall u, v :: u in nodes && v in nodes && u != v && DependsOn(u, v) ==> !Reaches(nodes, v, u)
  }

  /** A walk on which no step can be walked back. */
  ghost predicate OneWayPath(nodes: seq<Pkg>, path: seq<Pkg>) {
    IsPath(nodes, path) && forall i :: 0 <= i < |path| - 1 ==> !Reaches(nodes, path[i+1], path[i])
  }

  lemma ReachesSelf(nodes: seq<Pkg>, u: Pkg)
    requires u in nodes
    ensures Reaches(nodes, u, u)
  {
    hide DependsOn;
    assert Joins(nodes, [u], u, u);
  }

  lemma ReachesStep(nodes: seq<Pkg>, u: Pkg, v: Pkg, w: Pkg)
    requires Reaches(nodes, u, v) && w in nodes && DependsOn(v, w)
    ensures Reaches(nodes, u, w)
  {
    hide DependsOn;
    var path :| Joins(nodes, path, u, v);
    assert Joins(nodes, path + [w], u, w);
  }

  /** On a path, what comes earlier reaches what comes later. */
  lemma PathReaches(nodes: seq<Pkg>, path: seq<Pkg>, i: nat, j: nat)
    requires IsPath(nodes, path) && i <= j < |path|
    ensures Reaches(nodes, path[i], path[j])
  {
    hide DependsOn;
    assert Joins(nodes, path[i..j+1], path[i], path[j]);
  }

  /** In an acyclic graph every walk that does not stand still is one-way. */
  lemma AcyclicPathsOneWay(nodes: seq<Pkg>, path: seq<Pkg>)
    requires Acyclic(nodes) && IsPath(nodes, path) && forall i :: 0 <= i < |path| - 1 ==> path[i] != path[i+1]
    ensures OneWayPath(nodes, path)
  {
  }

  /** A walk between two packages can be had without standing still. */
  lemma {:induction false} MovingPath(nodes: seq<Pkg>, path: seq<Pkg>, u: Pkg, v: Pkg) returns (moving: seq<Pkg>)
    requires Joins(nodes, path, u, v) && u != v
    ensures Joins(nodes, moving, u, v) && |moving| > 1
    ensures forall i :: 0 <= i < |moving| - 1 ==> moving[i] != moving[i+1]
    decreases |path|
  {
    hide DependsOn;
    assert |path| > 1 && DependsOn(path[0], path[1]);
    var rest := path[1..];
    assert IsPath(nodes, rest) by {
      forall i | 0 <= i < |rest| - 1 ensures DependsOn(rest[i], rest[i+1]) { assert DependsOn(path[i+1], path[i+1+1]); }
    }
    if path[1] == v {
      moving := [u, v];
    } else {
      moving := MovingPath(nodes, rest, path[1], v);
      if u != path[1] { moving := [u] + moving; }
    }
  }

  /** Each element's dependencies come before it, or reach back to it. */
  ghost predicate DependenciesFirst(nodes: seq<Pkg>, order: seq<Pkg>) {
    forall a, q :: 0 <= a < |order| && q in nodes && DependsOn(order[a], q) ==> q in order[..a] || Reaches(nodes, q, order[a])
  }

  lemma DependenciesFirstExtends(nodes: seq<Pkg>, order: seq<Pkg>, p: Pkg)
    requires DependenciesFirst(nodes, order)
    requires forall q :: q in nodes && DependsOn(p, q) ==> q in order || Reaches(nodes, q, p)
    ensures DependenciesFirst(nodes, order + [p])
  {
    hide DependsOn, Reaches;
    var order' := order + [p];
    forall a, q | 0 <= a < |order'| && q in nodes && DependsOn(order'[a], q)
      ensures q in order'[..a] || Reaches(nodes, q, order'[a])
    {
      if a < |order| {
        assert order'[..a] == order[..a];
      } else {
        assert order'[..a] == order;
      }
    }
  }

  /** `u` stands before `v` in `order`. */
  ghost predicate Precedes(order: seq<Pkg>, u: Pkg, v: Pkg) {
    exists a, b :: 0 <= a < b < |order| && order[a] == u && order[b] == v
  }

  /** Where a one-way walk leads comes before where it starts. */
  lemma {:induction false} OneWayPathOrders(nodes: seq<Pkg>, order: seq<Pkg>, path: seq<Pkg>)
    requires DependenciesFirst(nodes, order) && OneWayPath(nodes, path) && |path| > 1
    requires path[0] in order
    ensures Precedes(order, path[|path|-1], path[0])
  {
    hide DependsOn, Reaches;
    var a :| 0 <= a < |order| && order[a] == path[0];
    assert DependsOn(path[0], path[1]) && !Reaches(nodes, path[1], path[0]);
    assert path[1] in order[..a];
    var b :| 0 <= b < a && order[..a][b] == path[1];
    assert order[b] == path[1];
    if |path| > 2 {
      DependenciesFirstPrefix(nodes, order, a);
      forall i | 0 <= i < |path| - 2 ensures DependsOn(path[1..][i], path[1..][i+1]) && !Reaches(nodes, path[1..][i+1], path[1..][i]) {
        assert path[1..][i] == path[i+1] && path[1..][i+1] == path[i+2];
        assert DependsOn(path[i+1], path[i+1+1]);
      }
      OneWayPathOrders(nodes, order[..a], path[1..]);
      var c, d :| 0 <= c < d < a && order[..a][c] == path[|path|-1] && order[..a][d] == path[1];
      assert order[c] == path[|path|-1] && c < a;
    }
  }

  lemma DependenciesFirstPrefix(nodes: seq<Pkg>, order: seq<Pkg>, n: nat)
    requires DependenciesFirst(nodes, order) && n <= |order|
    ensures DependenciesFirst(nodes, order[..n])
  {
    hide DependsOn, Reaches;
    forall a, q | 0 <= a < n && q in nodes && DependsOn(order[..n][a], q)
      ensures q in order[..n][..a] || Reaches(nodes, q, order[..n][a])
    {
      assert order[..n][..a] == order[..a];
    }
  }

  /** Leaving elements out keeps the order of the others. */
  lemma KeepPrecedes(order: seq<Pkg>, p: Pkg -> bool, u: Pkg, v: Pkg)
    requires Precedes(order, u, v) && p(u) && p(v)
    ensures Precedes(Keep(order, p), u, v)
  {
    var a, b :| 0 <= a < b < |order| && order[a] == u && order[b] == v;
    KeepBelow(order, p, a, b);
  }

  lemma {:induction false} KeepBelow(order: seq<Pkg>, p: Pkg -> bool, a: nat, b: nat)
    requires a < b < |order| && p(order[a]) && p(order[b])
    ensures Precedes(Keep(order, p), order[a], order[b])
  {
    hide Keep, Precedes;
    var n := |order| - 1;
    KeepLast(order, p);
    assert order[..n][a] == order[a] && order[a] in order[..n];
    if b == n {
      PrecedesLast(Keep(order[..n], p), order[a], order[n]);
    } else {
      assert order[..n][b] == order[b];
      KeepBelow(order[..n], p, a, b);
      PrecedesLonger(Keep(order[..n], p), Keep(order, p), order[a], order[b]);
    }
  }

  lemma KeepLast(order: seq<Pkg>, p: Pkg -> bool)
    requires order != []
    ensures var n := |order| - 1;
            Keep(order, p) == if p(order[n]) then Keep(order[..n], p) + [order[n]] else Keep(order[..n], p)
  {
  }

  lemma PrecedesLast(s: seq<Pkg>, u: Pkg, v: Pkg)
    requires u in s
    ensures Precedes(s + [v], u, v)
  {
    var a :| 0 <= a < |s| && s[a] == u;
    assert (s + [v])[a] == u && (s + [v])[|s|] == v;
  }

  lemma PrecedesLonger(s: seq<Pkg>, t: seq<Pkg>, u: Pkg, v: Pkg)
    requires s <= t && Precedes(s, u, v)
    ensures Precedes(t, u, v)
  {
    var a, b :| 0 <= a < b < |s| && s[a] == u && s[b] == v;
    assert t[a] == u && t[b] == v;
  }
}
