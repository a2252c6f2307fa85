/** What sorting packages by their dependencies promises: the packages of the graph, and the order. */
module DepOrder {
  import opened Common
  import opened ListSpec
  import opened Package
  import opened PkgLists
  import opened Deps
  import opened DepGraph

  // ---- the packages of the graph ----

  /** The installed packages that may enter the graph. */
  function LocalCandidates(local: seq<Pkg>, targets: seq<Pkg>, ignored: seq<Pkg>): seq<Pkg> {
    var rest := Difference(local, targets, PkgCmp);
    if ignored == [] then rest else Difference(rest, ignored, PkgCmp)
  }

  /** The packages of the graph: the targets, and the installed packages not hidden by name. */
  ghost function GraphNodes(local: seq<Pkg>, targets: seq<Pkg>, ignored: seq<Pkg>): seq<Pkg> {
    targets + LocalCandidates(local, targets, ignored)
  }

  lemma PkgCmpCompares()
    ensures Comparator(PkgCmp)
  {
    hide StrCmp;
    forall x: Pkg, y: Pkg
      ensures PkgCmp(x, y) <= 0 || PkgCmp(y, x) <= 0
      ensures PkgCmp(x, y) == 0 <==> Tie(x, y, PkgCmp)
    {
      StrCmpAntisymmetric(x.name, y.name);
    }
    forall x: Pkg, y: Pkg, z: Pkg | PkgCmp(x, y) <= 0 && PkgCmp(y, z) <= 0 ensures PkgCmp(x, z) <= 0 {
      StrCmpTransitive(x.name, y.name, z.name);
    }
  }

  lemma PkgCmpZero(x: Pkg, y: Pkg)
    ensures PkgCmp(x, y) == 0 <==> x.name == y.name
  {
    StrCmpEqual(x.name, y.name);
  }

  lemma NamesApart(s: seq<Pkg>)
    ensures DistinctNames(s) <==> Apart(s, PkgCmp)
  {
    hide StrCmp;
    if DistinctNames(s) {
      forall i, j | 0 <= i < j < |s| ensures PkgCmp(s[i], s[j]) != 0 { PkgCmpZero(s[i], s[j]); }
    }
    if Apart(s, PkgCmp) {
      forall i, j | 0 <= i < j < |s| ensures s[i].name != s[j].name {
        assert PkgCmp(s[i], s[j]) != 0;
        PkgCmpZero(s[i], s[j]);
      }
    }
  }

  lemma AvoidsNames(x: Pkg, s: seq<Pkg>)
    ensures Avoids(x, s, PkgCmp) <==> !HasName(s, x.name)
  {
    hide StrCmp;
    forall i | 0 <= i < |s| ensures PkgCmp(x, s[i]) != 0 <==> s[i].name != x.name { PkgCmpZero(x, s[i]); }
  }

  /** Subtracting by name from packages with distinct names. */
  lemma DifferenceByName(lhs: seq<Pkg>, rhs: seq<Pkg>)
    requires DistinctNames(lhs)
    ensures DistinctNames(Difference(lhs, rhs, PkgCmp))
    ensures forall x :: x in Difference(lhs, rhs, PkgCmp) <==> x in lhs && !HasName(rhs, x.name)
  {
    hide Difference, PkgCmp, HasName, Avoids;
    PkgCmpCompares();
    NamesApart(lhs);
    DifferenceMembers(lhs, rhs, PkgCmp);
    DifferenceApart(lhs, rhs, PkgCmp);
    NamesApart(Difference(lhs, rhs, PkgCmp));
    forall x ensures x in Difference(lhs, rhs, PkgCmp) <==> x in lhs && !HasName(rhs, x.name) { AvoidsNames(x, rhs); }
  }

  lemma CandidatesByName(local: seq<Pkg>, targets: seq<Pkg>, ignored: seq<Pkg>)
    requires DistinctNames(local)
    ensures DistinctNames(LocalCandidates(local, targets, ignored))
    ensures forall x :: x in LocalCandidates(local, targets, ignored) <==>
                        (x in local && !HasName(targets, x.name) && !HasName(ignored, x.name))
  {
    hide Difference, HasName;
    DifferenceByName(local, targets);
    if ignored == [] {
      forall x: Pkg ensures !HasName([], x.name) { NoName(x.name); }
    } else {
      DifferenceByName(Difference(local, targets, PkgCmp), ignored);
    }
  }

  lemma NodesDistinct(local: seq<Pkg>, targets: seq<Pkg>, ignored: seq<Pkg>)
    requires DistinctNames(local) && DistinctNames(targets)
    ensures DistinctNames(GraphNodes(local, targets, ignored)) && Distinct(GraphNodes(local, targets, ignored))
  {
    hide LocalCandidates;
    var c, nodes := LocalCandidates(local, targets, ignored), GraphNodes(local, targets, ignored);
    CandidatesByName(local, targets, ignored);
    forall i, j | 0 <= i < j < |nodes| ensures nodes[i].name != nodes[j].name {
      if i < |targets| <= j {
        assert c[j-|targets|] in c && !HasName(targets, c[j-|targets|].name);
        assert targets[i].name != c[j-|targets|].name;
      }
    }
  }

  // ---- what the order promises ----

  /** Between packages of `order`: where a one-way walk along dependencies leads comes first. */
  ghost predicate DependenciesLead(nodes: seq<Pkg>, order: seq<Pkg>) {
    forall path :: OneWayPath(nodes, path) && |path| > 1 && path[0] in order && path[|path|-1] in order ==>
      Precedes(order, path[|path|-1], path[0])
  }

  lemma KeepLeads(nodes: seq<Pkg>, fin: seq<Pkg>, p: Pkg -> bool)
    requires DependenciesFirst(nodes, fin)
    ensures DependenciesLead(nodes, Keep(fin, p))
  {
    hide DependsOn, DependenciesFirst, OneWayPath, Precedes, Keep;
    forall path | OneWayPath(nodes, path) && |path| > 1 && path[0] in Keep(fin, p) && path[|path|-1] in Keep(fin, p)
      ensures Precedes(Keep(fin, p), path[|path|-1], path[0])
    {
      OneWayPathOrders(nodes, fin, path);
      KeepPrecedes(fin, p, path[|path|-1], path[0]);
    }
  }

  /** `order` is the targets, each once, so that dependencies lead; reversed, they follow. */
  ghost predicate SortedByDeps(nodes: seq<Pkg>, targets: seq<Pkg>, reverse: bool, sorted: seq<Pkg>) {
    && multiset(sorted) == multiset(targets)
    && exists order :: DependenciesLead(nodes, order) && sorted == if reverse then Reverse(order) else order
  }

  /** A dependency that cannot reach back comes before the package that has it. */
  lemma DirectDependencyLeads(nodes: seq<Pkg>, order: seq<Pkg>, u: Pkg, v: Pkg)
    requires DependenciesLead(nodes, order) && u in order && v in order && u in nodes && v in nodes
    requires DependsOn(u, v) && !Reaches(nodes, v, u)
    ensures Precedes(order, v, u)
  {
    hide DependsOn, Reaches, Precedes;
    var path := [u, v];
    assert OneWayPath(nodes, path);
    assert path[0] in order && path[|path|-1] in order;
  }

  /** Without cycles, whatever a package needs, directly or through others, comes before it. */
  lemma NeededLeads(nodes: seq<Pkg>, order: seq<Pkg>, u: Pkg, v: Pkg)
    requires DependenciesLead(nodes, order) && Acyclic(nodes) && u in order && v in order
    requires u != v && Reaches(nodes, u, v)
    ensures Precedes(order, v, u)
  {
    hide DependsOn, Acyclic, Precedes;
    var path :| Joins(nodes, path, u, v);
    var moving := MovingPath(nodes, path, u, v);
    AcyclicPathsOneWay(nodes, moving);
  }

  lemma EmptyLeads(nodes: seq<Pkg>)
    ensures DependenciesLead(nodes, []) && Reverse<Pkg>([]) == []
  {
  }
}
