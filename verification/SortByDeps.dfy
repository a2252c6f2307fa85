/** Ordering packages by their dependencies: a graph whose vertices for installed packages are added
    lazily, and a depth-first walk that keeps its place in the vertices instead of on a stack. */
module SortByDeps {
  import opened Common
  import opened Package
  import opened PkgLists
  import opened Deps
  import opened DepGraph
  import opened DepOrder

  datatype State = Unprocessed | Processing | Processed

  class Vertex {
    const data: Pkg
    var parent: Vertex?
    var children: seq<Vertex>
    var cursor: nat
    var state: State

    constructor (data: Pkg)
      ensures this.data == data && parent == null && children == [] && cursor == 0 && state == Unprocessed
    {
      this.data := data;
      parent, children, cursor, state := null, [], 0, Unprocessed;
    }
  }

  ghost function DataOf(vs: seq<Vertex>): (d: seq<Pkg>)
    ensures |d| == |vs| && forall i :: 0 <= i < |vs| ==> d[i] == vs[i].data
  {
    seq(|vs|, i requires 0 <= i < |vs| => vs[i].data)
  }

  ghost predicate AsCreated(v: Vertex)
    reads v
  {
    v.parent == null && v.cursor == 0 && v.state == Unprocessed
  }

  /** The children of a vertex are the vertices its package depends on. */
  ghost predicate HasChildren(p: Pkg, children: seq<Vertex>, vs: seq<Vertex>) {
    && (forall a :: 0 <= a < |children| ==> children[a] in vs && DependsOn(p, children[a].data))
    && (forall j :: 0 <= j < |vs| && DependsOn(p, vs[j].data) ==> vs[j] in children)
  }

  // ---- dep_graph_init ----

  method EdgesToVertices(p: Pkg, vs: seq<Vertex>) returns (children: seq<Vertex>)
    ensures HasChildren(p, children, vs)
  {
    hide DependsOn;
    children := [];
    var j := 0;
    while j < |vs|
      invariant j <= |vs| && HasChildren(p, children, vs[..j])
    {
      assert vs[..j+1] == vs[..j] + [vs[j]];
      if DependsOn(p, vs[j].data) {
        children := children + [vs[j]];
      }
      j := j + 1;
    }
    assert vs[..|vs|] == vs;
  }

  /** Adds the candidates that `p` depends on as vertices and children, and takes them off the candidates. */
  method EdgesToCandidates(p: Pkg, vs0: seq<Vertex>, children0: seq<Vertex>, local0: seq<Pkg>)
    returns (vs: seq<Vertex>, children: seq<Vertex>, local: seq<Pkg>)
    requires HasChildren(p, children0, vs0)
    ensures |vs| >= |vs0| && vs[..|vs0|] == vs0 && HasChildren(p, children, vs)
    ensures forall k :: |vs0| <= k < |vs| ==> fresh(vs[k]) && AsCreated(vs[k])
    ensures DataOf(vs) == DataOf(vs0) + Keep(local0, q => DependsOn(p, q))
    ensures local == Keep(local0, q => !DependsOn(p, q))
  {
    hide DependsOn;
    vs, children, local := vs0, children0, [];
    var j := 0;
    while j < |local0|
      invariant j <= |local0|
      invariant |vs| >= |vs0| && vs[..|vs0|] == vs0 && HasChildren(p, children, vs)
      invariant forall k :: |vs0| <= k < |vs| ==> fresh(vs[k]) && AsCreated(vs[k])
      invariant DataOf(vs) == DataOf(vs0) + Keep(local0[..j], q => DependsOn(p, q))
      invariant local == Keep(local0[..j], q => !DependsOn(p, q))
    {
      assert local0[..j+1][..j] == local0[..j];
      if DependsOn(p, local0[j]) {
        var v := new Vertex(local0[j]);
        ghost var vs1 := vs;
        vs := vs + [v];
        children := children + [v];
        assert DataOf(vs) == DataOf(vs1) + [v.data];
      } else {
        local := local + [local0[j]];
      }
      j := j + 1;
    }
    assert local0[..|local0|] == local0;
  }

  /** The vertices built so far and the candidates left make up the graph's packages. */
  ghost predicate Splits(vs: seq<Vertex>, local: seq<Pkg>, nodes: seq<Pkg>) {
    multiset(DataOf(vs)) + multiset(local) == multiset(nodes)
  }

  lemma SplitsStep(vs0: seq<Vertex>, vs: seq<Vertex>, local0: seq<Pkg>, local: seq<Pkg>, nodes: seq<Pkg>, p: Pkg)
    requires Splits(vs0, local0, nodes)
    requires DataOf(vs) == DataOf(vs0) + Keep(local0, q => DependsOn(p, q)) && local == Keep(local0, q => !DependsOn(p, q))
    ensures Splits(vs, local, nodes)
  {
    hide DependsOn;
    KeepSplits(local0, q => DependsOn(p, q), q => !DependsOn(p, q));
  }

  /** The first `i` vertices have all their edges, and nothing left over is depended on by them. */
  ghost predicate Wired(vs: seq<Vertex>, cs: seq<seq<Vertex>>, i: nat, local: seq<Pkg>) {
    && i <= |vs| && |cs| == i
    && (forall k :: 0 <= k < i ==> HasChildren(vs[k].data, cs[k], vs))
    && (forall k, q :: 0 <= k < i && q in local ==> !DependsOn(vs[k].data, q))
  }

  lemma HasChildrenExtends(p: Pkg, children: seq<Vertex>, vs0: seq<Vertex>, vs: seq<Vertex>, local0: seq<Pkg>)
    requires HasChildren(p, children, vs0) && |vs| >= |vs0| && vs[..|vs0|] == vs0
    requires forall q :: q in local0 ==> !DependsOn(p, q)
    requires forall k :: |vs0| <= k < |vs| ==> vs[k].data in local0
    ensures HasChildren(p, children, vs)
  {
    hide DependsOn;
    forall a | 0 <= a < |children| ensures children[a] in vs {
      assert children[a] in vs[..|vs0|];
    }
    forall j | 0 <= j < |vs| && DependsOn(p, vs[j].data) ensures vs[j] in children {
      assert j < |vs0| && vs[..|vs0|][j] == vs0[j];
    }
  }

  lemma WiredStep(vs0: seq<Vertex>, vs: seq<Vertex>, cs: seq<seq<Vertex>>, c: seq<Vertex>, i: nat, local0: seq<Pkg>, local: seq<Pkg>)
    requires i < |vs0| <= |vs| && vs[..|vs0|] == vs0 && Wired(vs0, cs, i, local0)
    requires HasChildren(vs0[i].data, c, vs)
    requires DataOf(vs) == DataOf(vs0) + Keep(local0, q => DependsOn(vs0[i].data, q))
    requires local == Keep(local0, q => !DependsOn(vs0[i].data, q))
    ensures Wired(vs, cs + [c], i + 1, local)
  {
    hide DependsOn, HasChildren;
    var cs' := cs + [c];
    forall k | |vs0| <= k < |vs| ensures vs[k].data in local0 {
      assert DataOf(vs)[k] == Keep(local0, q => DependsOn(vs0[i].data, q))[k - |vs0|];
    }
    forall k | 0 <= k < i + 1 ensures HasChildren(vs[k].data, cs'[k], vs) {
      assert vs[k] == vs[..|vs0|][k] == vs0[k];
      if k < i { HasChildrenExtends(vs[k].data, cs[k], vs0, vs, local0); }
    }
    forall k, q | 0 <= k < i + 1 && q in local ensures !DependsOn(vs[k].data, q) {
      assert vs[k] == vs[..|vs0|][k] == vs0[k];
    }
  }

  ghost predicate ReachedFrom(targets: seq<Pkg>, nodes: seq<Pkg>, p: Pkg) {
    exists t :: t in targets && Reaches(nodes, t, p)
  }

  ghost predicate AllReached(vs: seq<Vertex>, targets: seq<Pkg>, nodes: seq<Pkg>) {
    forall k :: 0 <= k < |vs| ==> ReachedFrom(targets, nodes, vs[k].data)
  }

  lemma ReachedStep(vs0: seq<Vertex>, vs: seq<Vertex>, i: nat, local0: seq<Pkg>, local: seq<Pkg>, targets: seq<Pkg>, nodes: seq<Pkg>)
    requires i < |vs0| <= |vs| && vs[..|vs0|] == vs0 && AllReached(vs0, targets, nodes) && Splits(vs, local, nodes)
    requires DataOf(vs) == DataOf(vs0) + Keep(local0, q => DependsOn(vs0[i].data, q))
    ensures AllReached(vs, targets, nodes)
  {
    hide DependsOn, Reaches;
    MultisetMembers(DataOf(vs), local, nodes);
    var t :| t in targets && Reaches(nodes, t, vs0[i].data);
    forall k | 0 <= k < |vs| ensures ReachedFrom(targets, nodes, vs[k].data) {
      if k < |vs0| {
        assert vs[k] == vs[..|vs0|][k] == vs0[k];
      } else {
        var w, kept := DataOf(vs)[k], Keep(local0, q => DependsOn(vs0[i].data, q));
        assert w == kept[k - |vs0|] && w in kept && w in DataOf(vs);
        ReachesStep(nodes, t, vs0[i].data, w);
      }
    }
  }

  /** A finished graph: one vertex for each package that a target reaches, with its edges. */
  ghost predicate GraphOf(vs: seq<Vertex>, cs: seq<seq<Vertex>>, targets: seq<Pkg>, nodes: seq<Pkg>) {
    && |cs| == |vs| && |targets| <= |vs| && DataOf(vs)[..|targets|] == targets
    && Distinct(DataOf(vs)) && (forall k :: 0 <= k < |vs| ==> vs[k].data in nodes)
    && (forall k :: 0 <= k < |vs| ==> HasChildren(vs[k].data, cs[k], vs))
    && (forall k, q :: 0 <= k < |vs| && q in nodes && DependsOn(vs[k].data, q) ==> q in DataOf(vs))
    && AllReached(vs, targets, nodes)
  }

  lemma GraphFinished(vs: seq<Vertex>, cs: seq<seq<Vertex>>, local: seq<Pkg>, targets: seq<Pkg>, nodes: seq<Pkg>)
    requires Wired(vs, cs, |vs|, local) && Splits(vs, local, nodes) && Distinct(nodes) && AllReached(vs, targets, nodes)
    requires |targets| <= |vs| && DataOf(vs)[..|targets|] == targets
    ensures GraphOf(vs, cs, targets, nodes)
  {
    hide DependsOn, Reaches, HasChildren, AllReached;
    MultisetMembers(DataOf(vs), local, nodes);
    DistinctPart(DataOf(vs), local, nodes);
    forall k | 0 <= k < |vs| ensures vs[k].data in nodes { assert DataOf(vs)[k] in DataOf(vs); }
  }

  // ---- the loop of dep_graph_init ----

  /** Vertices carry the children named by `cs` and are otherwise as created. */
  ghost predicate Built(vs: seq<Vertex>, cs: seq<seq<Vertex>>)
    reads vs
  {
    && |cs| <= |vs|
    && (forall k :: 0 <= k < |vs| ==> AsCreated(vs[k]))
    && (forall k :: 0 <= k < |cs| ==> vs[k].children == cs[k])
  }

  method TargetVertices(targets: seq<Pkg>) returns (vs: seq<Vertex>)
    ensures DataOf(vs) == targets && Built(vs, []) && forall k :: 0 <= k < |vs| ==> fresh(vs[k])
  {
    vs := [];
    var i := 0;
    while i < |targets|
      invariant i <= |targets| && |vs| == i && forall k :: 0 <= k < i ==> vs[k].data == targets[k]
      invariant forall k :: 0 <= k < i ==> fresh(vs[k]) && AsCreated(vs[k])
    {
      var v := new Vertex(targets[i]);
      vs := vs + [v];
      i := i + 1;
    }
    assert DataOf(vs) == targets;
  }

  lemma DistinctVertices(vs: seq<Vertex>)
    requires Distinct(DataOf(vs))
    ensures Distinct(vs)
  {
    forall i, j | 0 <= i < j < |vs| ensures vs[i] != vs[j] {
      assert DataOf(vs)[i] != DataOf(vs)[j];
    }
  }

  lemma SplitsDistinct(vs: seq<Vertex>, local: seq<Pkg>, nodes: seq<Pkg>)
    requires Splits(vs, local, nodes) && Distinct(nodes)
    ensures Distinct(vs)
  {
    DistinctPart(DataOf(vs), local, nodes);
    DistinctVertices(vs);
  }

  lemma StartsWithTargets(vs0: seq<Vertex>, vs: seq<Vertex>, targets: seq<Pkg>)
    requires |targets| <= |vs0| <= |vs| && vs[..|vs0|] == vs0 && DataOf(vs0)[..|targets|] == targets
    ensures DataOf(vs)[..|targets|] == targets
  {
    forall k | 0 <= k < |targets| ensures DataOf(vs)[k] == targets[k] {
      assert vs[k] == vs[..|vs0|][k] == vs0[k];
      assert DataOf(vs0)[k] == DataOf(vs0)[..|targets|][k];
    }
  }

  method DepGraphInit(local: seq<Pkg>, targets: seq<Pkg>, ignored: seq<Pkg>)
    returns (vertices: seq<Vertex>, ghost cs: seq<seq<Vertex>>)
    requires DistinctNames(local) && DistinctNames(targets)
    ensures GraphOf(vertices, cs, targets, GraphNodes(local, targets, ignored))
    ensures Built(vertices, cs) && forall k :: 0 <= k < |vertices| ==> fresh(vertices[k])
  {
    hide DependsOn, HasChildren, Reaches, LocalCandidates, AllReached, Wired, Splits, GraphOf, Built;
    ghost var nodes := GraphNodes(local, targets, ignored);
    NodesDistinct(local, targets, ignored);
    var localpkgs := LocalCandidates(local, targets, ignored);
    vertices := TargetVertices(targets);
    cs := [];
    StartOfGraph(vertices, localpkgs, targets, nodes);
    var i := 0;
    while i < |vertices|
      invariant |cs| == i <= |vertices| && |targets| <= |vertices| && DataOf(vertices)[..|targets|] == targets
      invariant Built(vertices, cs) && Wired(vertices, cs, i, localpkgs) && Splits(vertices, localpkgs, nodes)
      invariant AllReached(vertices, targets, nodes)
      invariant forall k :: 0 <= k < |vertices| ==> fresh(vertices[k])
      decreases |vertices| + |localpkgs| - i
    {
      ghost var vs0 := vertices;
      vertices, cs, localpkgs := WireVertex(vertices, cs, i, localpkgs, targets, nodes);
      StartsWithTargets(vs0, vertices, targets);
      i := i + 1;
    }
    GraphFinished(vertices, cs, localpkgs, targets, nodes);
  }

  lemma StartOfGraph(vs: seq<Vertex>, local: seq<Pkg>, targets: seq<Pkg>, nodes: seq<Pkg>)
    requires DataOf(vs) == targets && nodes == targets + local
    ensures Wired(vs, [], 0, local) && Splits(vs, local, nodes) && AllReached(vs, targets, nodes)
    ensures DataOf(vs)[..|targets|] == targets
  {
    TargetsReached(vs, targets, nodes);
  }

  lemma TargetsReached(vs: seq<Vertex>, targets: seq<Pkg>, nodes: seq<Pkg>)
    requires DataOf(vs) == targets && forall t :: t in targets ==> t in nodes
    ensures AllReached(vs, targets, nodes)
  {
    hide DependsOn, IsPath;
    forall k | 0 <= k < |vs| ensures ReachedFrom(targets, nodes, vs[k].data) {
      var p := DataOf(vs)[k];
      assert p in targets;
      ReachesSelf(nodes, p);
    }
  }

  lemma BuiltExtends(vs0: seq<Vertex>, vs: seq<Vertex>, cs: seq<seq<Vertex>>)
    requires Built(vs0, cs) && |vs| >= |vs0| && vs[..|vs0|] == vs0
    requires forall k :: |vs0| <= k < |vs| ==> AsCreated(vs[k])
    ensures Built(vs, cs)
  {
    forall k | 0 <= k < |vs0| ensures vs[k] == vs0[k] { assert vs[..|vs0|][k] == vs[k]; }
  }

  method SetChildren(v: Vertex, children: seq<Vertex>, ghost vs: seq<Vertex>, ghost cs: seq<seq<Vertex>>)
    requires |cs| < |vs| && vs[|cs|] == v && Distinct(vs) && Built(vs, cs)
    modifies v`children
    ensures Built(vs, cs + [children])
  {
    v.children := children;
  }

  /** Computes the edges of the `i`-th vertex. */
  method WireVertex(vs0: seq<Vertex>, ghost cs0: seq<seq<Vertex>>, i: nat, local0: seq<Pkg>,
                    ghost targets: seq<Pkg>, ghost nodes: seq<Pkg>)
    returns (vs: seq<Vertex>, ghost cs: seq<seq<Vertex>>, local: seq<Pkg>)
    requires |cs0| == i < |vs0| && Built(vs0, cs0) && Wired(vs0, cs0, i, local0) && Splits(vs0, local0, nodes)
    requires Distinct(nodes) && AllReached(vs0, targets, nodes)
    modifies vs0[i]
    ensures |vs| >= |vs0| && vs[..|vs0|] == vs0 && |vs| + |local| == |vs0| + |local0| && |cs| == i + 1
    ensures Built(vs, cs) && Wired(vs, cs, i + 1, local) && Splits(vs, local, nodes) && AllReached(vs, targets, nodes)
    ensures forall k :: |vs0| <= k < |vs| ==> fresh(vs[k])
    ensures forall k :: 0 <= k < |vs0| ==> vs[k] == vs0[k]
  {
    hide DependsOn, HasChildren, Reaches, AllReached, Wired, Splits, Built, AsCreated, Distinct;
    ghost var p := vs0[i].data;
    var children := EdgesToVertices(vs0[i].data, vs0);
    vs, children, local := EdgesToCandidates(vs0[i].data, vs0, children, local0);
    KeepSizes(local0, q => DependsOn(p, q), q => !DependsOn(p, q));
    SplitsStep(vs0, vs, local0, local, nodes, p);
    SplitsDistinct(vs, local, nodes);
    WiredStep(vs0, vs, cs0, children, i, local0, local);
    ReachedStep(vs0, vs, i, local0, local, targets, nodes);
    BuiltExtends(vs0, vs, cs0);
    assert forall k :: 0 <= k < |vs0| ==> vs[k] == vs[..|vs0|][k] == vs0[k];
    cs := cs0 + [children];
    SetChildren(vs0[i], children, vs, cs0);
  }

  // ---- the walk of _alpm_sortbydeps ----

  ghost function StatesOf(vs: seq<Vertex>): (states: seq<State>)
    reads vs
    ensures |states| == |vs| && forall k :: 0 <= k < |vs| ==> states[k] == vs[k].state
  {
    seq(|vs|, k requires 0 <= k < |vs| reads vs => vs[k].state)
  }

  /** The cursors are within the children, and at their start in the vertices that are still as created. */
  ghost predicate Cursors(vs: seq<Vertex>, cs: seq<seq<Vertex>>, states: seq<State>)
    reads vs`children, vs`cursor
  {
    && |cs| == |vs| == |states|
    && forall k :: 0 <= k < |vs| ==>
         vs[k].children == cs[k] && vs[k].cursor <= |cs[k]| && (states[k] == Unprocessed ==> vs[k].cursor == 0)
  }

  /** The states say what is finished and what lies on the path; `unmarked`, if any, is on the path but has not been
      marked yet. */
  ghost predicate StatesFit(vs: seq<Vertex>, states: seq<State>, path: seq<Pkg>, fin: seq<Pkg>, unmarked: Vertex?) {
    && |states| == |vs|
    && (forall k :: 0 <= k < |vs| ==> (states[k] == Processed <==> vs[k].data in fin))
    && (forall k :: 0 <= k < |vs| && states[k] == Processing ==> vs[k].data in path)
    && (forall k :: 0 <= k < |vs| && vs[k].data in path && vs[k] != unmarked ==> states[k] == Processing)
  }

  /** A vertex still as created has no parent. */
  ghost predicate Orphans(vs: seq<Vertex>, states: seq<State>, unmarked: Vertex?)
    reads vs`parent
  {
    |states| == |vs| && forall k :: 0 <= k < |vs| && states[k] == Unprocessed && vs[k] != unmarked ==> vs[k].parent == null
  }

  /** Which vertices are finished, which lie on the current path, and which are still as created. */
  ghost predicate Marked(vs: seq<Vertex>, cs: seq<seq<Vertex>>, path: seq<Pkg>, fin: seq<Pkg>, unmarked: Vertex?)
    reads vs
  {
    var states := StatesOf(vs);
    Cursors(vs, cs, states) && StatesFit(vs, states, path, fin, unmarked) && Orphans(vs, states, unmarked)
  }

  /** Every child that a vertex on the path has looked at is finished or on the path. */
  ghost predicate Scanned(vs: seq<Vertex>, cs: seq<seq<Vertex>>, path: seq<Pkg>, fin: seq<Pkg>)
    reads vs`cursor
  {
    |cs| == |vs| && forall k, a :: 0 <= k < |vs| && vs[k].data in path && 0 <= a < vs[k].cursor <= |cs[k]| ==>
      cs[k][a].data in fin || cs[k][a].data in path
  }

  /** The parent pointers lead from `current` back along the path to its root. */
  ghost predicate Linked(stack: seq<Vertex>, path: seq<Pkg>, current: Vertex)
    reads stack`parent
  {
    && stack != [] && stack[|stack|-1] == current && DataOf(stack) == path
    && stack[0].parent == null
    && forall i :: 1 <= i < |stack| ==> stack[i].parent == stack[i-1]
  }

  /** Advances the cursor past children that are being processed or done, up to an unprocessed one. */
  method ScanChildren(vertex: Vertex, ghost vs: seq<Vertex>, ghost c: seq<Vertex>) returns (nextchild: Vertex?)
    requires vertex in vs && vertex.children == c && vertex.cursor <= |c|
    requires forall a :: 0 <= a < |c| ==> c[a] in vs
    modifies vertex`cursor
    ensures old(vertex.cursor) <= vertex.cursor <= |c|
    ensures nextchild == null ==> vertex.cursor == |c|
    ensures nextchild != null ==> vertex.cursor > 0 && nextchild == c[vertex.cursor-1] && nextchild.state == Unprocessed
    ensures forall a :: old(vertex.cursor) <= a < vertex.cursor && (nextchild == null || a < vertex.cursor - 1) ==> c[a].state != Unprocessed
  {
    nextchild := null;
    while vertex.cursor < |vertex.children| && nextchild == null
      invariant old(vertex.cursor) <= vertex.cursor <= |c| && vertex.children == c
      invariant nextchild != null ==> vertex.cursor > 0 && nextchild == c[vertex.cursor-1] && nextchild.state == Unprocessed
      invariant forall a :: old(vertex.cursor) <= a < vertex.cursor && (nextchild == null || a < vertex.cursor - 1) ==> c[a].state != Unprocessed
      decreases nextchild == null, |c| - vertex.cursor
    {
      var child := vertex.children[vertex.cursor];
      vertex.cursor := vertex.cursor + 1;
      if child.state == Unprocessed {
        nextchild := child;
      }
    }
  }

  /** The shape of the walk: a path through the graph, apart from what is finished in good order. */
  ghost predicate Walk(nodes: seq<Pkg>, path: seq<Pkg>, fin: seq<Pkg>) {
    && (path != [] ==> IsPath(nodes, path)) && Distinct(path) && Distinct(fin)
    && (forall p :: p in path ==> p !in fin)
    && DependenciesFirst(nodes, fin)
  }

  ghost predicate Members(stack: seq<Vertex>, vs: seq<Vertex>) {
    forall i :: 0 <= i < |stack| ==> stack[i] in vs
  }

  lemma OneVertex(vs: seq<Vertex>, k: nat)
    requires k < |vs| && Distinct(DataOf(vs))
    ensures forall j :: 0 <= j < |vs| ==> (vs[j].data == vs[k].data <==> j == k) && (vs[j] == vs[k] <==> j == k)
  {
    forall j | 0 <= j < |vs| ensures vs[j].data == vs[k].data <==> j == k {
      assert DataOf(vs)[j] == vs[j].data && DataOf(vs)[k] == vs[k].data;
    }
  }

  lemma SetOthers(vs: seq<Vertex>, cs: seq<seq<Vertex>>, states: seq<State>, unmarked: Vertex?, k: nat, state: State)
    requires k < |vs| && Cursors(vs, cs, states) && Orphans(vs, states, unmarked) && state != Unprocessed
    ensures Cursors(vs, cs, states[k := state]) && Orphans(vs, states[k := state], unmarked)
  {
  }

  lemma StatesAfter(vs: seq<Vertex>, states: seq<State>)
    requires |states| == |vs| && forall j :: 0 <= j < |vs| ==> vs[j].state == states[j]
    ensures StatesOf(vs) == states
  {
  }

  lemma FitMarked(vs: seq<Vertex>, cs: seq<seq<Vertex>>, path: seq<Pkg>, fin: seq<Pkg>, unmarked: Vertex?, states: seq<State>)
    requires states == StatesOf(vs) && Cursors(vs, cs, states) && StatesFit(vs, states, path, fin, unmarked) && Orphans(vs, states, unmarked)
    ensures Marked(vs, cs, path, fin, unmarked)
  {
    hide Cursors, StatesFit, Orphans;
  }

  lemma VisitedStates(vs: seq<Vertex>, states: seq<State>, path: seq<Pkg>, fin: seq<Pkg>, k: nat)
    requires k < |vs| && vs[k].data in path && vs[k].data !in fin && Distinct(DataOf(vs))
    requires StatesFit(vs, states, path, fin, vs[k])
    ensures StatesFit(vs, states[k := Processing], path, fin, null)
  {
    hide DataOf, Distinct;
    OneVertex(vs, k);
  }

  lemma VisitedOrphans(vs: seq<Vertex>, states: seq<State>, k: nat)
    requires k < |vs| && Distinct(DataOf(vs)) && Orphans(vs, states, vs[k])
    ensures Orphans(vs, states[k := Processing], null)
  {
    hide DataOf, Distinct;
    OneVertex(vs, k);
  }

  /** Marking a vertex as being processed. */
  method Mark(vertex: Vertex, ghost vs: seq<Vertex>, ghost cs: seq<seq<Vertex>>, ghost k: nat, ghost path: seq<Pkg>, ghost fin: seq<Pkg>)
    requires k < |vs| && vs[k] == vertex && Distinct(DataOf(vs)) && vertex.data in path && vertex.data !in fin
    requires Marked(vs, cs, path, fin, vertex)
    modifies vertex`state
    ensures vertex.state == Processing && Marked(vs, cs, path, fin, null)
  {
    hide DataOf, Distinct, Cursors, StatesFit, Orphans;
    ghost var states := StatesOf(vs);
    OneVertex(vs, k);
    VisitedStates(vs, states, path, fin, k);
    VisitedOrphans(vs, states, k);
    SetOthers(vs, cs, states, vertex, k, Processing);
    vertex.state := Processing;
    StatesAfter(vs, states[k := Processing]);
    FitMarked(vs, cs, path, fin, null, states[k := Processing]);
  }

  /** The children passed over are finished or on the path. */
  lemma PassedOver(vs: seq<Vertex>, cs: seq<seq<Vertex>>, path: seq<Pkg>, fin: seq<Pkg>, child: Vertex)
    requires Marked(vs, cs, path, fin, null) && child in vs && child.state != Unprocessed
    ensures child.data in fin || child.data in path
  {
    var j := IndexOfVertex(vs, child);
    assert StatesOf(vs)[j] == child.state;
  }

  /** What was scanned in the other vertices, and in the `k`-th one before and now. */
  lemma ScannedFurther(vs: seq<Vertex>, cs: seq<seq<Vertex>>, path: seq<Pkg>, fin: seq<Pkg>, k: nat, start: nat, next: seq<Pkg>)
    requires |cs| == |vs| && k < |vs|
    requires forall j, a :: 0 <= j < |vs| && j != k && vs[j].data in path && 0 <= a < vs[j].cursor <= |cs[j]| ==>
               cs[j][a].data in fin || cs[j][a].data in path
    requires forall a :: 0 <= a < start && a < |cs[k]| ==> cs[k][a].data in fin || cs[k][a].data in path
    requires forall a :: start <= a < vs[k].cursor <= |cs[k]| ==> cs[k][a].data in fin || cs[k][a].data in path + next
    requires forall j :: 0 <= j < |vs| && vs[j].data in next && vs[j].data !in path ==> vs[j].cursor == 0
    ensures Scanned(vs, cs, path + next, fin)
  {
    forall j, a | 0 <= j < |vs| && vs[j].data in path + next && 0 <= a < vs[j].cursor <= |cs[j]|
      ensures cs[j][a].data in fin || cs[j][a].data in path + next
    {
      assert j == k ==> (a < start || start <= a);
    }
  }

  /** Looks through the children of a marked vertex. */
  method Look(vertex: Vertex, ghost vs: seq<Vertex>, ghost cs: seq<seq<Vertex>>, ghost k: nat, ghost path: seq<Pkg>, ghost fin: seq<Pkg>)
    returns (nextchild: Vertex?)
    requires k < |vs| && vs[k] == vertex && Distinct(DataOf(vs)) && vertex.data in path && vertex.state == Processing
    requires Marked(vs, cs, path, fin, null) && Scanned(vs, cs, path, fin)
    requires forall a :: 0 <= a < |cs[k]| ==> cs[k][a] in vs
    modifies vertex`cursor
    ensures Marked(vs, cs, path, fin, null)
    ensures Scanned(vs, cs, path + if nextchild == null then [] else [nextchild.data], fin)
    ensures nextchild == null ==> vertex.cursor == |cs[k]|
    ensures nextchild != null ==> nextchild in cs[k] && nextchild.state == Unprocessed
  {
    hide DataOf, Distinct, StatesFit, Orphans;
    OneVertex(vs, k);
    ghost var start := vertex.cursor;
    ghost var states := StatesOf(vs);
    nextchild := ScanChildren(vertex, vs, cs[k]);
    StatesAfter(vs, states);
    FitMarked(vs, cs, path, fin, null, states);
    ghost var next := if nextchild == null then [] else [nextchild.data];
    forall a | start <= a < vertex.cursor ensures cs[k][a].data in fin || cs[k][a].data in path + next {
      if cs[k][a].state != Unprocessed { PassedOver(vs, cs, path, fin, cs[k][a]); }
    }
    if nextchild != null {
      ghost var n := IndexOfVertex(vs, nextchild);
      OneVertex(vs, n);
    }
    ScannedFurther(vs, cs, path, fin, k, start, next);
  }

  /** Marks the vertex and looks through its children for one to go on to. */
  method Visit(vertex: Vertex, ghost vs: seq<Vertex>, ghost cs: seq<seq<Vertex>>, ghost k: nat,
               ghost stack: seq<Vertex>, ghost path: seq<Pkg>, ghost fin: seq<Pkg>)
    returns (nextchild: Vertex?)
    requires k < |vs| && vs[k] == vertex && Distinct(DataOf(vs)) && vertex.data in path && vertex.data !in fin
    requires Marked(vs, cs, path, fin, vertex) && Scanned(vs, cs, path, fin) && Linked(stack, path, vertex)
    requires forall a :: 0 <= a < |cs[k]| ==> cs[k][a] in vs
    modifies vertex`state, vertex`cursor
    ensures Marked(vs, cs, path, fin, null) && Linked(stack, path, vertex)
    ensures Scanned(vs, cs, if nextchild == null then path else path + [nextchild.data], fin)
    ensures nextchild == null ==> vertex.cursor == |cs[k]|
    ensures nextchild != null ==> nextchild in cs[k] && nextchild.state == Unprocessed
  {
    hide DataOf, Distinct, Marked, Scanned, Linked;
    Mark(vertex, vs, cs, k, path, fin);
    nextchild := Look(vertex, vs, cs, k, path, fin);
    assert path + [] == path;
  }

  lemma WalkDescends(nodes: seq<Pkg>, path: seq<Pkg>, fin: seq<Pkg>, p: Pkg)
    requires Walk(nodes, path, fin) && path != [] && p in nodes && p !in path && p !in fin
    requires DependsOn(path[|path|-1], p)
    ensures Walk(nodes, path + [p], fin)
  {
    hide DependsOn, DependenciesFirst;
  }

  /** What is left to see of the last package on the path: nothing, so its dependencies are finished
      or lead back to it. */
  lemma WalkFinishes(nodes: seq<Pkg>, path: seq<Pkg>, fin: seq<Pkg>)
    requires Walk(nodes, path, fin) && path != []
    requires forall q :: q in nodes && DependsOn(path[|path|-1], q) ==> q in fin || q in path
    ensures Walk(nodes, path[..|path|-1], fin + [path[|path|-1]])
  {
    hide DependsOn, Reaches, DependenciesFirst;
    var n := |path| - 1;
    var p := path[n];
    forall q | q in nodes && DependsOn(p, q) ensures q in fin || Reaches(nodes, q, p) {
      if q in path {
        var i :| 0 <= i < |path| && path[i] == q;
        PathReaches(nodes, path, i, n);
      }
    }
    DependenciesFirstExtends(nodes, fin, p);
    assert p in path;
    forall i | 0 <= i < n ensures path[..n][i] != p {}
    assert IsPath(nodes, path);
  }

  /** The children of a vertex cover its package's dependencies. */
  lemma ChildrenCover(vs: seq<Vertex>, cs: seq<seq<Vertex>>, targets: seq<Pkg>, nodes: seq<Pkg>, k: nat, q: Pkg) returns (a: nat)
    requires GraphOf(vs, cs, targets, nodes) && k < |vs| && q in nodes && DependsOn(vs[k].data, q)
    ensures a < |cs[k]| && cs[k][a].data == q
  {
    hide DependsOn, AllReached;
    assert q in DataOf(vs);
    var j :| 0 <= j < |vs| && DataOf(vs)[j] == q;
    assert vs[j].data == q && vs[j] in cs[k];
    a :| a < |cs[k]| && cs[k][a] == vs[j];
  }

  lemma IndexOfVertex(vs: seq<Vertex>, v: Vertex) returns (k: nat)
    requires v in vs
    ensures k < |vs| && vs[k] == v
  {
    k :| k < |vs| && vs[k] == v;
  }

  lemma EnteredStates(vs: seq<Vertex>, states: seq<State>, path: seq<Pkg>, fin: seq<Pkg>, k: nat)
    requires k < |vs| && Distinct(DataOf(vs)) && StatesFit(vs, states, path, fin, null) && states[k] == Unprocessed
    ensures StatesFit(vs, states, path + [vs[k].data], fin, vs[k])
    ensures vs[k].data !in path && vs[k].data !in fin
  {
    hide DataOf, Distinct;
    OneVertex(vs, k);
  }

  lemma EnteredLinks(stack: seq<Vertex>, path: seq<Pkg>, vertex: Vertex, child: Vertex)
    requires Linked(stack, path, vertex) && child.parent == vertex
    ensures Linked(stack + [child], path + [child.data], child)
  {
    assert DataOf(stack + [child]) == path + [child.data];
  }

  /** The links do not go through a vertex that is not on the path. */
  lemma OffPath(stack: seq<Vertex>, path: seq<Pkg>, vertex: Vertex, child: Vertex)
    requires Linked(stack, path, vertex) && child.data !in path
    ensures child !in stack
  {
    forall i | 0 <= i < |stack| ensures stack[i] != child { assert DataOf(stack)[i] in path; }
  }

  /** Goes on to an unprocessed child. */
  method Descend(vertex: Vertex, nextchild: Vertex, ghost vs: seq<Vertex>, ghost cs: seq<seq<Vertex>>,
                 ghost stack: seq<Vertex>, ghost path: seq<Pkg>, ghost fin: seq<Pkg>)
    requires nextchild in vs && nextchild.state == Unprocessed && Distinct(DataOf(vs))
    requires Marked(vs, cs, path, fin, null) && Linked(stack, path, vertex)
    modifies nextchild`parent
    ensures nextchild.data !in path && nextchild.data !in fin
    ensures Marked(vs, cs, path + [nextchild.data], fin, nextchild)
    ensures Linked(stack + [nextchild], path + [nextchild.data], nextchild)
  {
    hide DataOf, Distinct, StatesFit, Cursors;
    ghost var k := IndexOfVertex(vs, nextchild);
    ghost var states := StatesOf(vs);
    EnteredStates(vs, states, path, fin, k);
    OffPath(stack, path, vertex, nextchild);
    nextchild.parent := vertex;
    StatesAfter(vs, states);
    FitMarked(vs, cs, path + [nextchild.data], fin, nextchild, states);
    assert Linked(stack, path, vertex);
    EnteredLinks(stack, path, vertex, nextchild);
  }

  lemma LeftStates(vs: seq<Vertex>, states: seq<State>, path: seq<Pkg>, fin: seq<Pkg>, k: nat)
    requires k < |vs| && path != [] && path[|path|-1] == vs[k].data && Distinct(path) && Distinct(DataOf(vs))
    requires StatesFit(vs, states, path, fin, null)
    ensures StatesFit(vs, states[k := Processed], path[..|path|-1], fin + [vs[k].data], null)
  {
    hide DataOf, Distinct;
    PoppedMembers(path);
    OneVertex(vs, k);
  }

  lemma LeftScanned(vs: seq<Vertex>, cs: seq<seq<Vertex>>, path: seq<Pkg>, fin: seq<Pkg>)
    requires path != [] && Distinct(path) && Scanned(vs, cs, path, fin)
    ensures Scanned(vs, cs, path[..|path|-1], fin + [path[|path|-1]])
  {
    hide Distinct;
    PoppedMembers(path);
  }

  lemma LeftLinked(stack: seq<Vertex>, path: seq<Pkg>, current: Vertex)
    requires Linked(stack, path, current)
    ensures current.parent == if |stack| == 1 then null else stack[|stack|-2]
    ensures |stack| > 1 ==> Linked(stack[..|stack|-1], path[..|path|-1], stack[|stack|-2])
  {
    assert DataOf(stack[..|stack|-1]) == path[..|path|-1];
  }

  /** Leaves a vertex all of whose children were seen. */
  method Leave(vertex: Vertex, ghost vs: seq<Vertex>, ghost cs: seq<seq<Vertex>>,
               ghost stack: seq<Vertex>, ghost path: seq<Pkg>, ghost fin: seq<Pkg>)
    returns (parent: Vertex?)
    requires vertex in vs && Distinct(DataOf(vs)) && Distinct(path)
    requires Marked(vs, cs, path, fin, null) && Scanned(vs, cs, path, fin) && Linked(stack, path, vertex)
    modifies vertex`state
    ensures Marked(vs, cs, path[..|path|-1], fin + [vertex.data], null)
    ensures Scanned(vs, cs, path[..|path|-1], fin + [vertex.data])
    ensures parent == if |stack| == 1 then null else stack[|stack|-2]
    ensures |stack| > 1 ==> Linked(stack[..|stack|-1], path[..|path|-1], parent)
  {
    hide DataOf, Distinct, Cursors, StatesFit, Orphans, Scanned, Linked;
    ghost var k := IndexOfVertex(vs, vertex);
    ghost var states := StatesOf(vs);
    TopOfPath(stack, path, vertex);
    OneVertex(vs, k);
    LeftStates(vs, states, path, fin, k);
    SetOthers(vs, cs, states, null, k, Processed);
    LeftScanned(vs, cs, path, fin);
    LeftLinked(stack, path, vertex);
    vertex.state := Processed;
    parent := vertex.parent;
    StatesAfter(vs, states[k := Processed]);
    FitMarked(vs, cs, path[..|path|-1], fin + [vertex.data], null, states[k := Processed]);
  }

  lemma PoppedMembers(path: seq<Pkg>)
    requires path != [] && Distinct(path)
    ensures forall p :: p in path <==> p in path[..|path|-1] || p == path[|path|-1]
    ensures path[|path|-1] !in path[..|path|-1]
  {
    var rest, last := path[..|path|-1], path[|path|-1];
    assert path == rest + [last];
    forall i | 0 <= i < |rest| ensures rest[i] != last {}
  }

  /** The state of the walk between two passes of its loop. */
  ghost predicate Walking(vs: seq<Vertex>, cs: seq<seq<Vertex>>, targets: seq<Pkg>, nodes: seq<Pkg>,
                          stack: seq<Vertex>, path: seq<Pkg>, fin: seq<Pkg>, current: Vertex)
    reads vs, stack
  {
    && GraphOf(vs, cs, targets, nodes) && Walk(nodes, path, fin) && Members(stack, vs)
    && (forall p :: p in fin ==> p in DataOf(vs))
    && Marked(vs, cs, path, fin, current) && Scanned(vs, cs, path, fin) && Linked(stack, path, current)
  }

  /** The state of the walk between two roots. */
  ghost predicate Resting(vs: seq<Vertex>, cs: seq<seq<Vertex>>, targets: seq<Pkg>, nodes: seq<Pkg>, fin: seq<Pkg>)
    reads vs
  {
    && GraphOf(vs, cs, targets, nodes) && Walk(nodes, [], fin) && Marked(vs, cs, [], fin, null)
    && (forall p :: p in fin ==> p in DataOf(vs))
  }

  lemma MarkedEither(vs: seq<Vertex>, cs: seq<seq<Vertex>>, path: seq<Pkg>, fin: seq<Pkg>, current: Vertex)
    requires Marked(vs, cs, path, fin, null)
    ensures Marked(vs, cs, path, fin, current)
  {
  }

  lemma SeenAll(vs: seq<Vertex>, cs: seq<seq<Vertex>>, targets: seq<Pkg>, nodes: seq<Pkg>, k: nat, path: seq<Pkg>, fin: seq<Pkg>)
    requires GraphOf(vs, cs, targets, nodes) && k < |vs| && vs[k].data in path
    requires Scanned(vs, cs, path, fin) && vs[k].cursor == |cs[k]|
    ensures forall q :: q in nodes && DependsOn(vs[k].data, q) ==> q in fin || q in path
  {
    hide DependsOn, GraphOf;
    forall q | q in nodes && DependsOn(vs[k].data, q) ensures q in fin || q in path {
      var a := ChildrenCover(vs, cs, targets, nodes, k, q);
    }
  }

  lemma TopOfPath(stack: seq<Vertex>, path: seq<Pkg>, current: Vertex)
    requires Linked(stack, path, current)
    ensures |path| == |stack| > 0 && path[|path|-1] == current.data && current.data in path
    ensures stack[|stack|-1] == current
  {
    assert DataOf(stack)[|stack|-1] == current.data;
  }

  lemma ChildFacts(vs: seq<Vertex>, cs: seq<seq<Vertex>>, targets: seq<Pkg>, nodes: seq<Pkg>, k: nat, child: Vertex)
    requires GraphOf(vs, cs, targets, nodes) && k < |vs| && child in cs[k]
    ensures child in vs && child.data in nodes && DependsOn(vs[k].data, child.data)
  {
    hide DependsOn, AllReached;
    var a :| 0 <= a < |cs[k]| && cs[k][a] == child;
    var j := IndexOfVertex(vs, child);
  }

  lemma GraphParts(vs: seq<Vertex>, cs: seq<seq<Vertex>>, targets: seq<Pkg>, nodes: seq<Pkg>, k: nat)
    requires GraphOf(vs, cs, targets, nodes) && k < |vs|
    ensures |cs| == |vs| && Distinct(DataOf(vs)) && forall a :: 0 <= a < |cs[k]| ==> cs[k][a] in vs
  {
    hide DependsOn, AllReached;
  }

  /** One pass of the loop: goes down to a child, or finishes the vertex and goes back to its parent. */
  method Pass(vertex: Vertex, ghost vs: seq<Vertex>, ghost cs: seq<seq<Vertex>>, ghost targets: seq<Pkg>, ghost nodes: seq<Pkg>,
              ghost stack: seq<Vertex>, ghost path: seq<Pkg>, ghost fin: seq<Pkg>)
    returns (next: Vertex?, switched: bool)
    requires Walking(vs, cs, targets, nodes, stack, path, fin, vertex)
    modifies vs
    ensures switched ==> next != null && Walking(vs, cs, targets, nodes, stack + [next], path + [next.data], fin, next)
    ensures !switched && |stack| > 1 ==> next != null
    ensures !switched && |stack| > 1 ==>
              Walking(vs, cs, targets, nodes, stack[..|stack|-1], path[..|stack|-1], fin + [vertex.data], next)
    ensures !switched && |stack| == 1 ==> next == null && Resting(vs, cs, targets, nodes, fin + [vertex.data])
  {
    hide DependsOn, GraphOf, Marked, Scanned, Linked, Walk;
    TopOfPath(stack, path, vertex);
    ghost var k := IndexOfVertex(vs, vertex);
    GraphParts(vs, cs, targets, nodes, k);
    NotFinished(nodes, path, fin, vertex.data);
    var nextchild := Visit(vertex, vs, cs, k, stack, path, fin);
    if nextchild != null {
      ChildFacts(vs, cs, targets, nodes, k, nextchild);
      Descend(vertex, nextchild, vs, cs, stack, path, fin);
      WalkDescends(nodes, path, fin, nextchild.data);
      return nextchild, true;
    }
    SeenAllMarked(vs, cs, targets, nodes, k, path, fin);
    WalkFinishes(nodes, path, fin);
    WalkDistinct(nodes, path, fin);
    next := Leave(vertex, vs, cs, stack, path, fin);
    switched := false;
    assert DataOf(vs)[k] == vertex.data;
    if |stack| > 1 {
      MarkedEither(vs, cs, path[..|path|-1], fin + [vertex.data], next);
    } else {
      assert path[..|path|-1] == [];
    }
  }

  lemma NotFinished(nodes: seq<Pkg>, path: seq<Pkg>, fin: seq<Pkg>, p: Pkg)
    requires Walk(nodes, path, fin) && p in path
    ensures p !in fin
  {
  }

  lemma WalkDistinct(nodes: seq<Pkg>, path: seq<Pkg>, fin: seq<Pkg>)
    requires Walk(nodes, path, fin)
    ensures Distinct(path)
  {
  }

  lemma SeenAllMarked(vs: seq<Vertex>, cs: seq<seq<Vertex>>, targets: seq<Pkg>, nodes: seq<Pkg>, k: nat, path: seq<Pkg>, fin: seq<Pkg>)
    requires GraphOf(vs, cs, targets, nodes) && k < |vs| && vs[k].data in path
    requires Marked(vs, cs, path, fin, null) && Scanned(vs, cs, path, fin) && vs[k].cursor == |cs[k]|
    ensures forall q :: q in nodes && DependsOn(vs[k].data, q) ==> q in fin || q in path
  {
    hide DependsOn, GraphOf;
    SeenAll(vs, cs, targets, nodes, k, path, fin);
  }

  lemma NewRoot(vs: seq<Vertex>, cs: seq<seq<Vertex>>, targets: seq<Pkg>, nodes: seq<Pkg>, fin: seq<Pkg>, i: nat)
    requires Resting(vs, cs, targets, nodes, fin) && i < |vs| && vs[i].state == Unprocessed
    ensures Walking(vs, cs, targets, nodes, [vs[i]], [vs[i].data], fin, vs[i])
  {
    hide DependsOn, AllReached, DependenciesFirst;
    assert DataOf([vs[i]]) == [vs[i].data];
    forall k | 0 <= k < |vs| && vs[k].data in [vs[i].data] ensures k == i {
      assert DataOf(vs)[k] == DataOf(vs)[i];
    }
  }

  /** All vertices before `n` are finished. */
  ghost predicate DoneBefore(vs: seq<Vertex>, n: nat, fin: seq<Pkg>) {
    n <= |vs| && forall k :: 0 <= k < n ==> vs[k].data in fin
  }

  /** Moves on to the next vertex that is not processed yet. */
  method NextRoot(vs: seq<Vertex>, i0: nat, ghost cs: seq<seq<Vertex>>, ghost targets: seq<Pkg>, ghost nodes: seq<Pkg>, ghost fin: seq<Pkg>)
    returns (i: nat, root: Vertex?)
    requires Resting(vs, cs, targets, nodes, fin) && i0 < |vs| && DoneBefore(vs, i0, fin) && vs[i0].data in fin
    ensures i <= |vs| && DoneBefore(vs, i, fin)
    ensures i < |vs| ==> root == vs[i] && Walking(vs, cs, targets, nodes, [vs[i]], [vs[i].data], fin, vs[i])
  {
    hide DependsOn, GraphOf, Walk;
    i := i0 + 1;
    root := null;
    while i < |vs|
      invariant i <= |vs| && DoneBefore(vs, i, fin)
    {
      root := vs[i];
      if root.state == Unprocessed {
        NewRoot(vs, cs, targets, nodes, fin, i);
        break;
      }
      i := i + 1;
    }
  }

  lemma WalkSizes(vs: seq<Vertex>, cs: seq<seq<Vertex>>, targets: seq<Pkg>, nodes: seq<Pkg>,
                  stack: seq<Vertex>, path: seq<Pkg>, fin: seq<Pkg>, current: Vertex)
    requires Walking(vs, cs, targets, nodes, stack, path, fin, current)
    ensures |fin| < |vs| && |stack| == |path| <= |vs| && |path| > 0 && stack[|stack|-1] == current
  {
    hide DependsOn, AllReached, DependenciesFirst;
    TopOfPath(stack, path, current);
    forall p | p in path ensures p in DataOf(vs) {
      var i :| 0 <= i < |path| && path[i] == p;
      assert DataOf(stack)[i] == p;
      var k := IndexOfVertex(vs, stack[i]);
      assert DataOf(vs)[k] == p;
    }
    DistinctFits(path, DataOf(vs));
    var extended := fin + [current.data];
    assert current.data !in fin;
    DistinctFits(extended, DataOf(vs));
  }

  /** What is finished, by itself. */
  ghost predicate FinishedSoFar(vs: seq<Vertex>, nodes: seq<Pkg>, fin: seq<Pkg>) {
    Walk(nodes, [], fin) && forall p :: p in fin ==> p in DataOf(vs)
  }

  lemma RestingFin(vs: seq<Vertex>, cs: seq<seq<Vertex>>, targets: seq<Pkg>, nodes: seq<Pkg>, fin: seq<Pkg>)
    requires Resting(vs, cs, targets, nodes, fin)
    ensures FinishedSoFar(vs, nodes, fin)
  {
    hide GraphOf, Marked, Walk;
  }

  lemma WalkingFin(vs: seq<Vertex>, cs: seq<seq<Vertex>>, targets: seq<Pkg>, nodes: seq<Pkg>,
                   stack: seq<Vertex>, path: seq<Pkg>, fin: seq<Pkg>, current: Vertex)
    requires Walking(vs, cs, targets, nodes, stack, path, fin, current)
    ensures FinishedSoFar(vs, nodes, fin)
  {
    hide GraphOf, Marked, Scanned, Linked, DependenciesFirst;
  }

  lemma NothingDone(vs: seq<Vertex>)
    ensures DoneBefore(vs, 0, [])
  {
  }

  lemma MoreDone(vs: seq<Vertex>, n: nat, fin: seq<Pkg>, p: Pkg)
    requires DoneBefore(vs, n, fin)
    ensures DoneBefore(vs, n, fin + [p])
  {
  }

  /** The depth-first walk over all vertices: the order in which it leaves them, and the targets in
      that order. */
  method WalkAll(vertices: seq<Vertex>, targets: seq<Pkg>, ghost cs: seq<seq<Vertex>>, ghost nodes: seq<Pkg>)
    returns (newtargs: seq<Pkg>, ghost fin: seq<Pkg>)
    requires vertices != [] && GraphOf(vertices, cs, targets, nodes) && Built(vertices, cs)
    modifies vertices
    ensures Walk(nodes, [], fin) && DoneBefore(vertices, |vertices|, fin) && forall p :: p in fin ==> p in DataOf(vertices)
    ensures newtargs == Keep(fin, p => p in targets)
  {
    hide DependsOn, GraphOf, Keep, Walking, Resting, Walk, DataOf, DoneBefore;
    var i: nat := 0;
    var vertex: Vertex? := vertices[0];
    KeepNone(p => p in targets);
    newtargs, fin := [], [];
    ghost var stack: seq<Vertex>, path: seq<Pkg> := [vertices[0]], [vertices[0].data];
    StartResting(vertices, cs, targets, nodes);
    NewRoot(vertices, cs, targets, nodes, fin, 0);
    NothingDone(vertices);
    assert FinishedSoFar(vertices, nodes, fin) by { RestingFin(vertices, cs, targets, nodes, fin); }
    while i < |vertices|
      invariant i <= |vertices| && DoneBefore(vertices, i, fin)
      invariant i < |vertices| ==> vertex != null && Walking(vertices, cs, targets, nodes, stack, path, fin, vertex)
      invariant i < |vertices| ==> stack != [] && stack[0] == vertices[i]
      invariant newtargs == Keep(fin, p => p in targets)
      invariant FinishedSoFar(vertices, nodes, fin)
      decreases |vertices| - |fin|, |vertices| - |stack|
    {
      WalkSizes(vertices, cs, targets, nodes, stack, path, fin, vertex);
      var next, switched := Pass(vertex, vertices, cs, targets, nodes, stack, path, fin);
      if switched {
        stack, path := stack + [next], path + [next.data];
        vertex := next;
      } else {
        KeepNext(fin, vertex.data, p => p in targets);
        if vertex.data in targets {
          newtargs := newtargs + [vertex.data];
        }
        MoreDone(vertices, i, fin, vertex.data);
        fin := fin + [vertex.data];
        if next == null {
          RestingFin(vertices, cs, targets, nodes, fin);
          assert vertex == vertices[i] && fin[|fin|-1] == vertex.data;
          i, vertex := NextRoot(vertices, i, cs, targets, nodes, fin);
          if i < |vertices| {
            stack, path := [vertices[i]], [vertices[i].data];
          }
        } else {
          stack, path := stack[..|stack|-1], path[..|stack|-1];
          vertex := next;
          WalkingFin(vertices, cs, targets, nodes, stack, path, fin, vertex);
        }
      }
    }
  }

  lemma StartResting(vs: seq<Vertex>, cs: seq<seq<Vertex>>, targets: seq<Pkg>, nodes: seq<Pkg>)
    requires GraphOf(vs, cs, targets, nodes) && Built(vs, cs)
    ensures Resting(vs, cs, targets, nodes, [])
  {
    hide DependsOn, AllReached, IsPath;
  }

  // ---- the whole sort ----

  lemma TargetsDone(vs: seq<Vertex>, cs: seq<seq<Vertex>>, targets: seq<Pkg>, nodes: seq<Pkg>, fin: seq<Pkg>)
    requires GraphOf(vs, cs, targets, nodes) && DoneBefore(vs, |vs|, fin) && Distinct(targets) && Distinct(fin)
    ensures multiset(Keep(fin, p => p in targets)) == multiset(targets)
  {
    hide DependsOn, AllReached, Keep;
    var kept := Keep(fin, p => p in targets);
    forall x ensures x in kept <==> x in targets {
      if x in targets {
        var i :| 0 <= i < |targets| && targets[i] == x;
        assert DataOf(vs)[..|targets|][i] == x && vs[i].data == x;
      }
    }
    KeepDistinct(fin, p => p in targets);
    SameMembers(kept, targets);
  }

  /** `_alpm_sortbydeps` */
  method SortByDeps(local: seq<Pkg>, targets: seq<Pkg>, ignored: seq<Pkg>, reverse: bool) returns (newtargs: seq<Pkg>)
    requires DistinctNames(local) && DistinctNames(targets)
    ensures SortedByDeps(GraphNodes(local, targets, ignored), targets, reverse, newtargs)
  {
    hide DependsOn, Keep, GraphOf, DependenciesLead, DependenciesFirst, IsPath, Reaches, LocalCandidates;
    ghost var nodes := GraphNodes(local, targets, ignored);
    if targets == [] {
      EmptyLeads(nodes);
      return [];
    }
    ghost var cs, fin;
    var vertices;
    vertices, cs := DepGraphInit(local, targets, ignored);
    GraphHasTargets(vertices, cs, targets, nodes);
    newtargs, fin := WalkAll(vertices, targets, cs, nodes);
    TargetsDone(vertices, cs, targets, nodes, fin);
    KeepLeads(nodes, fin, p => p in targets);
    ghost var order := newtargs;
    if reverse {
      ReversePermutes(newtargs);
      newtargs := Reverse(newtargs);
    }
    assert DependenciesLead(nodes, order);
  }

  lemma GraphHasTargets(vs: seq<Vertex>, cs: seq<seq<Vertex>>, targets: seq<Pkg>, nodes: seq<Pkg>)
    requires GraphOf(vs, cs, targets, nodes)
    ensures |vs| >= |targets|
  {
  }
}
