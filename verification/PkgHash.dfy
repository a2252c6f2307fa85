/** The package cache: an open-addressing hash table with linear probing whose slots share their
    nodes with a linked list. */
module PkgHash {
  import opened Common
  import opened ListSpec
  import opened AlpmList
  import opened Package
  import DepOrder

  type Slots = seq<Node?<Pkg>>

  function Home(name: string, buckets: nat): (h: nat)
    requires buckets > 0
    ensures h < buckets
  {
    HashSdbm(name) % buckets
  }

  /** `j` lies on the probe path from `h` up to but excluding `p`, around the end of the table. */
  predicate OnPath(h: nat, j: nat, p: nat) {
    if h <= p then h <= j < p else h <= j || j < p
  }

  function Next(p: nat, n: nat): nat
    requires p < n
  {
    if p + 1 == n then 0 else p + 1
  }

  function HomeAt(t: Slots, p: nat): (h: nat)
    requires p < |t| && t[p] != null
    ensures h < |t|
  {
    Home(t[p].data.name, |t|)
  }

  /** No probe path is interrupted, except possibly at `hole`; with `hole` outside the table, none is. */
  ghost predicate Probing(t: Slots, hole: nat) {
    forall p, j :: 0 <= p < |t| && 0 <= j < |t| && t[p] != null && j != hole && OnPath(HomeAt(t, p), j, p) ==> t[j] != null
  }

  function Full(t: Slots): (k: nat)
    ensures k <= |t|
  {
    if t == [] then 0 else Full(t[..|t|-1]) + if t[|t|-1] == null then 0 else 1
  }

  lemma {:induction false} FullUpdate(t: Slots, i: nat, x: Node?<Pkg>)
    requires i < |t|
    ensures Full(t[i := x]) == Full(t) - (if t[i] == null then 0 else 1) + (if x == null then 0 else 1)
  {
    var n := |t| - 1;
    if i < n {
      FullUpdate(t[..n], i, x);
      assert t[i := x][..n] == t[..n][i := x];
    } else {
      assert t[i := x][..n] == t[..n];
    }
  }

  lemma {:induction false} FreeSlot(t: Slots) returns (i: nat)
    requires Full(t) < |t|
    ensures i < |t| && t[i] == null
  {
    var n := |t| - 1;
    if t[n] == null { i := n; } else { i := FreeSlot(t[..n]); }
  }

  lemma {:induction false} AllFree(t: Slots)
    requires forall i :: 0 <= i < |t| ==> t[i] == null
    ensures Full(t) == 0
  {
    if t != [] { AllFree(t[..|t|-1]); }
  }

  /** The table and the list hold the same nodes, each in one slot. */
  ghost predicate SameNodes(t: Slots, s: seq<Node<Pkg>>) {
    && (forall p :: 0 <= p < |t| && t[p] != null ==> t[p] in s)
    && (forall i :: 0 <= i < |s| ==> s[i] in t)
    && (forall p, q :: 0 <= p < q < |t| && t[p] != null ==> t[p] != t[q])
  }

  ghost predicate DistinctNames(s: seq<Node<Pkg>>) {
    forall i, j :: 0 <= i < j < |s| ==> s[i].data.name != s[j].data.name
  }

  class PkgHash {
    var hash_table: array<Node?<Pkg>>
    var list: Node?<Pkg>
    var buckets: nat
    var entries: nat
    var limit: nat
    ghost var nodes: seq<Node<Pkg>>

    ghost predicate Valid()
      reads this, hash_table, nodes
    {
      && buckets == hash_table.Length && buckets > 0
      && limit == buckets * 68 / 100 && entries <= limit
      && IsList(list, nodes) && entries == |nodes| == Full(hash_table[..])
      && SameNodes(hash_table[..], nodes) && DistinctNames(nodes)
      && Probing(hash_table[..], buckets)
    }

    /** An empty table of `buckets` slots. */
    constructor (buckets: nat)
      requires buckets > 0
      ensures Valid() && nodes == [] && this.buckets == buckets && fresh(hash_table)
    {
      this.buckets := buckets;
      limit := buckets * 68 / 100;
      entries := 0;
      list := null;
      nodes := [];
      hash_table := new Node?<Pkg>[buckets](_ => null);
      new;
      AllFree(hash_table[..]);
    }
  }

  /** The first free slot from `h` on, probing around the end of the table. */
  method GetHashPosition(table: array<Node?<Pkg>>, h: nat, ghost free: nat) returns (position: nat)
    requires h < table.Length && free < table.Length && table[free] == null
    ensures position < table.Length && table[position] == null
    ensures forall j :: 0 <= j < table.Length && OnPath(h, j, position) ==> table[j] != null
  {
    position := h;
    while table[position] != null
      invariant position < table.Length
      invariant forall j :: 0 <= j < table.Length && OnPath(h, j, position) ==> table[j] != null
      decreases if position <= free then free - position else table.Length - position + free
    {
      ghost var before := position;
      position := position + 1;
      while position >= table.Length
        invariant position == before + 1 || position == before + 1 - table.Length
        invariant 0 <= position
      {
        position := position - table.Length;
      }
      assert position == Next(before, table.Length);
      assert !OnPath(h, free, before) && free != before;
    }
  }

  // ---- lookup ----

  ghost function Contents(s: seq<Node<Pkg>>): map<string, Pkg>
    requires DistinctNames(s)
  {
    map i | 0 <= i < |s| :: s[i].data.name := s[i].data
  }

  /** The slot a probe for `name` ends on: the node of that name, or a free slot on its path. */
  ghost predicate ProbeEnds(t: Slots, name: string, p: nat) {
    && p < |t|
    && (forall j :: 0 <= j < |t| && OnPath(Home(name, |t|), j, p) ==> t[j] != null && t[j].data.name != name)
    && (t[p] != null ==> t[p].data.name == name)
  }

  /** A probe that ends on a free slot has missed nothing. */
  lemma ProbeMisses(t: Slots, name: string, p: nat, q: nat)
    requires Probing(t, |t|) && ProbeEnds(t, name, p) && t[p] == null && q < |t| && t[q] != null
    ensures t[q].data.name != name
  {
    assert !OnPath(HomeAt(t, q), p, q);
    assert OnPath(Home(name, |t|), q, p) ==> t[q].data.name != name;
  }

  method Probe(hash: PkgHash, name: string) returns (position: nat)
    requires hash.Valid()
    ensures ProbeEnds(hash.hash_table[..], name, position)
  {
    ghost var t := hash.hash_table[..];
    ghost var free := FreeSlot(t);
    var h := Home(name, hash.buckets);
    position := h;
    while hash.hash_table[position] != null && hash.hash_table[position].data.name != name
      invariant position < |t| && t == hash.hash_table[..]
      invariant forall j :: 0 <= j < |t| && OnPath(h, j, position) ==> t[j] != null && t[j].data.name != name
      decreases if position <= free then free - position else |t| - position + free
    {
      assert t[position] != null && t[position].data.name != name;
      assert !OnPath(h, free, position) && free != position;
      ghost var before := position;
      position := position + 1;
      while position >= hash.buckets
        invariant position == before + 1 || position == before + 1 - |t|
        invariant 0 <= position
      {
        position := position - hash.buckets;
      }
      assert position == Next(before, |t|);
    }
  }

  /** `_alpm_pkghash_find` answers as the map from names to packages would. */
  method Find(hash: PkgHash, name: string) returns (r: Option<Pkg>)
    requires hash.Valid()
    ensures r == if name in Contents(hash.nodes) then Some(Contents(hash.nodes)[name]) else None
  {
    var position := Probe(hash, name);
    ghost var t := hash.hash_table[..];
    var lp := hash.hash_table[position];
    assert t[position] == lp;
    if lp != null {
      var k := ListIndex(t, hash.nodes, position);
      return Some(lp.data);
    }
    AbsentName(t, hash.nodes, name, position);
    r := None;
  }

  lemma ListIndex(t: Slots, s: seq<Node<Pkg>>, p: nat) returns (k: nat)
    requires SameNodes(t, s) && p < |t| && t[p] != null
    ensures k < |s| && s[k] == t[p]
  {
    assert t[p] in s;
    k :| k < |s| && s[k] == t[p];
  }

  lemma AbsentName(t: Slots, s: seq<Node<Pkg>>, name: string, p: nat)
    requires SameNodes(t, s) && Probing(t, |t|) && ProbeEnds(t, name, p) && t[p] == null
    ensures forall i :: 0 <= i < |s| ==> s[i].data.name != name
  {
    forall i | 0 <= i < |s| ensures s[i].data.name != name {
      assert s[i] in t;
      var q :| 0 <= q < |t| && t[q] == s[i];
      ProbeMisses(t, name, p, q);
    }
  }

  // ---- deletion ----

  /** `hole` is free, the slots from behind it up to the free slot `end` are taken, and every probe
      path is whole but for `hole`. */
  ghost predicate Punctured(t: Slots, hole: nat, end: nat) {
    && hole < |t| && end < |t| && hole != end && t[hole] == null && t[end] == null
    && (forall q :: 0 <= q < |t| && q != hole && OnPath(hole, q, end) ==> t[q] != null)
    && Probing(t, hole)
  }

  function Distance(p: nat, q: nat, n: nat): int { if p <= q then q - p else n - p + q }

  /** Whether the entry at `p` would now be placed in the hole: exactly when its path crosses it. */
  lemma MovesIntoHole(t: Slots, hole: nat, end: nat, p: nat, position: nat)
    requires Punctured(t, hole, end) && p < |t| && t[p] != null && p != hole && OnPath(hole, p, end)
    requires position < |t| && t[position] == null
    requires forall j :: 0 <= j < |t| && OnPath(HomeAt(t, p), j, position) ==> t[j] != null
    ensures position == hole <==> OnPath(HomeAt(t, p), hole, p)
  {
    var h := HomeAt(t, p);
    assert OnPath(h, position, p) ==> position == hole;
    assert !OnPath(h, hole, position) && !OnPath(h, end, position);
  }

  lemma MovedKeepsPunctured(t: Slots, hole: nat, end: nat, p: nat)
    requires Punctured(t, hole, end) && p < |t| && t[p] != null && p != hole && OnPath(hole, p, end)
    requires OnPath(HomeAt(t, p), hole, p)
    ensures Punctured(t[hole := t[p]][p := null], p, end)
    ensures Distance(p, end, |t|) < Distance(hole, end, |t|)
  {
    var t' := t[hole := t[p]][p := null];
    forall q, j | 0 <= q < |t'| && 0 <= j < |t'| && t'[q] != null && j != p && OnPath(HomeAt(t', q), j, q)
      ensures t'[j] != null
    {
      if j != hole {
        if q == hole {
          assert OnPath(HomeAt(t, p), j, p);
        }
        assert t[j] != null;
      }
    }
  }

  lemma HealedIsProbing(t: Slots, hole: nat, end: nat)
    requires Punctured(t, hole, end)
    requires forall q :: 0 <= q < |t| && q != hole && OnPath(hole, q, end) ==> !OnPath(HomeAt(t, q), hole, q)
    ensures Probing(t, |t|)
  {
    forall q, j | 0 <= q < |t| && 0 <= j < |t| && t[q] != null && OnPath(HomeAt(t, q), j, q)
      ensures t[j] != null
    {
      if j == hole {
        assert !OnPath(HomeAt(t, q), end, q);
        assert q != hole && OnPath(hole, q, end);
      }
    }
  }

  lemma SameNodesMoved(t: Slots, s: seq<Node<Pkg>>, hole: nat, p: nat)
    requires SameNodes(t, s) && hole < |t| && p < |t| && t[hole] == null && t[p] != null
    ensures SameNodes(t[hole := t[p]][p := null], s) && Full(t[hole := t[p]][p := null]) == Full(t)
  {
    var t' := t[hole := t[p]][p := null];
    FullUpdate(t, hole, t[p]);
    FullUpdate(t[hole := t[p]], p, null);
    forall i | 0 <= i < |s| ensures s[i] in t' {
      var q :| 0 <= q < |t| && t[q] == s[i];
      assert t'[if q == p then hole else q] == s[i];
    }
  }

  lemma Before(p: nat, n: nat)
    requires p < n
    ensures (n + p - 1) % n == if p == 0 then n - 1 else p - 1
  {
  }

  /** Moves into the hole `start` the last entry before `end` whose path crosses it, if there is one:
      returns where that entry was, or `start`. */
  method MoveOneEntry(table: array<Node?<Pkg>>, start: nat, stop: nat, ghost end: nat, ghost s: seq<Node<Pkg>>) returns (e: nat)
    requires Punctured(table[..], start, end) && stop < table.Length && Next(stop, table.Length) == end
    requires SameNodes(table[..], s)
    modifies table
    ensures e < table.Length && SameNodes(table[..], s) && Full(table[..]) == old(Full(table[..]))
    ensures e == start ==> Probing(table[..], table.Length)
    ensures e != start ==> Punctured(table[..], e, end) && Distance(e, end, table.Length) < Distance(start, end, table.Length)
  {
    hide SameNodes, Full, Probing, Punctured;
    ghost var t := table[..];
    e := stop;
    StopIsTaken(t, start, stop, end);
    while e != start
      invariant e < |t| && t == table[..]
      invariant e == start || OnPath(start, e, end)
      invariant Scanned(t, start, end, e)
      decreases Distance(start, e, |t|)
    {
      var i := table[e];
      PuncturedTaken(t, start, end, e);
      assert i == t[e] && table[start] == t[start];
      var newPosition := GetHashPosition(table, Home(i.data.name, table.Length), start);
      assert forall j :: 0 <= j < |t| ==> table[j] == t[j];
      MovesIntoHole(t, start, end, e, newPosition);
      if newPosition == start {
        MovedKeepsPunctured(t, start, end, e);
        SameNodesMoved(t, s, start, e);
        table[start] := i;
        table[e] := null;
        assert table[..] == t[start := t[e]][e := null];
        return;
      }
      ScannedNext(t, start, end, e);
      Before(e, table.Length);
      e := (table.Length + e - 1) % table.Length;
    }
    ScannedAll(t, start, end);
    HealedIsProbing(t, start, end);
  }

  /** No entry behind `e` and before `end` has a path across the hole. */
  ghost predicate Scanned(t: Slots, hole: nat, end: nat, e: nat)
    requires e < |t| && hole < |t|
  {
    forall q :: 0 <= q < |t| && q != hole && OnPath(hole, q, end) && !OnPath(hole, q, Next(e, |t|)) ==>
      t[q] != null && !OnPath(HomeAt(t, q), hole, q)
  }

  lemma StopIsTaken(t: Slots, hole: nat, stop: nat, end: nat)
    requires Punctured(t, hole, end) && stop < |t| && Next(stop, |t|) == end
    ensures stop == hole || OnPath(hole, stop, end)
    ensures Scanned(t, hole, end, stop)
    ensures hole < |t| && t[hole] == null
  {
  }

  lemma PuncturedTaken(t: Slots, hole: nat, end: nat, q: nat)
    requires Punctured(t, hole, end) && q < |t| && q != hole && OnPath(hole, q, end)
    ensures t[q] != null && t[hole] == null
  {
  }

  lemma ScannedNext(t: Slots, hole: nat, end: nat, e: nat)
    requires hole < |t| && end < |t| && e < |t| && e != hole && OnPath(hole, e, end) && t[e] != null
    requires Scanned(t, hole, end, e) && !OnPath(HomeAt(t, e), hole, e)
    ensures var d := if e == 0 then |t| - 1 else e - 1;
            (d == hole || OnPath(hole, d, end)) && Scanned(t, hole, end, d) && Distance(hole, d, |t|) < Distance(hole, e, |t|)
  {
    var d := if e == 0 then |t| - 1 else e - 1;
    assert Next(d, |t|) == e;
    forall q | 0 <= q < |t| && q != hole && OnPath(hole, q, end) && !OnPath(hole, q, e)
      ensures t[q] != null && !OnPath(HomeAt(t, q), hole, q)
    {
      assert q == e || !OnPath(hole, q, Next(e, |t|));
    }
  }

  lemma ScannedAll(t: Slots, hole: nat, end: nat)
    requires Punctured(t, hole, end) && Scanned(t, hole, end, hole)
    ensures forall q :: 0 <= q < |t| && q != hole && OnPath(hole, q, end) ==> t[q] != null && !OnPath(HomeAt(t, q), hole, q)
  {
  }

  /** The last slot of the run of taken slots behind `position`. */
  method FindStop(table: array<Node?<Pkg>>, position: nat, ghost free: nat) returns (stop: nat)
    requires position < table.Length && free < table.Length && free != position
    requires table[position] == null && table[free] == null
    ensures stop < table.Length && Next(stop, table.Length) != position && table[..][Next(stop, table.Length)] == null
    ensures forall q :: 0 <= q < table.Length && q != position && OnPath(position, q, Next(stop, table.Length)) ==> table[..][q] != null
  {
    var n := table.Length;
    stop := Next(position, n);
    while table[stop] != null && stop != position
      invariant stop < n && stop != position
      invariant forall q :: 0 <= q < n && q != position && OnPath(position, q, stop) ==> table[q] != null
      decreases Distance(stop, free, n)
    {
      assert !OnPath(position, free, stop) && free != stop;
      stop := Next(stop, n);
    }
    Before(stop, n);
    assert Next((n + stop - 1) % n, n) == stop;
    stop := (n + stop - 1) % n;
  }

  /** Plugs the hole at `position`, and the holes that this opens, until no path is interrupted. */
  method PlugHoles(table: array<Node?<Pkg>>, position0: nat, stop: nat, ghost s: seq<Node<Pkg>>)
    requires stop < table.Length && Punctured(table[..], position0, Next(stop, table.Length)) && SameNodes(table[..], s)
    modifies table
    ensures Probing(table[..], table.Length) && SameNodes(table[..], s) && Full(table[..]) == old(Full(table[..]))
  {
    var position: nat := position0;
    ghost var end, full := Next(stop, table.Length), Full(table[..]);
    var prev: nat := MoveOneEntry(table, position, stop, end, s);
    while prev != position
      invariant prev < table.Length && SameNodes(table[..], s) && Full(table[..]) == full
      invariant prev == position ==> Probing(table[..], table.Length)
      invariant prev != position ==> Punctured(table[..], prev, end)
      decreases prev != position, Distance(prev, end, table.Length)
    {
      position := prev;
      prev := MoveOneEntry(table, position, stop, end, s);
    }
  }

  lemma ContentsMember(s: seq<Node<Pkg>>, i: nat)
    requires DistinctNames(s) && i < |s|
    ensures s[i].data.name in Contents(s) && Contents(s)[s[i].data.name] == s[i].data
  {
  }

  lemma ContentsIndex(s: seq<Node<Pkg>>, name: string) returns (i: nat)
    requires DistinctNames(s) && name in Contents(s)
    ensures i < |s| && s[i].data.name == name
  {
    i :| i < |s| && s[i].data.name == name;
  }

  lemma AbsentContents(s: seq<Node<Pkg>>, name: string)
    requires DistinctNames(s) && forall i :: 0 <= i < |s| ==> s[i].data.name != name
    ensures name !in Contents(s)
  {
  }

  lemma WithoutAt<T>(s: seq<T>, k: nat)
    requires k < |s|
    ensures |Without(s, k)| == |s| - 1
    ensures forall j :: 0 <= j < |s| - 1 ==> Without(s, k)[j] == s[if j < k then j else j + 1]
  {
  }

  lemma DistinctNamesWithout(s: seq<Node<Pkg>>, k: nat)
    requires DistinctNames(s) && k < |s|
    ensures DistinctNames(Without(s, k))
  {
    WithoutAt(s, k);
  }

  lemma ContentsKept(s: seq<Node<Pkg>>, k: nat, name: string)
    requires DistinctNames(s) && k < |s| && DistinctNames(Without(s, k))
    requires name in Contents(s) && name != s[k].data.name
    ensures name in Contents(Without(s, k)) && Contents(Without(s, k))[name] == Contents(s)[name]
  {
    hide Contents, Without;
    WithoutAt(s, k);
    var i := ContentsIndex(s, name);
    ContentsMember(Without(s, k), if i < k then i else i - 1);
    ContentsMember(s, i);
  }

  lemma ContentsNotAdded(s: seq<Node<Pkg>>, k: nat, name: string)
    requires DistinctNames(s) && k < |s| && DistinctNames(Without(s, k))
    requires name in Contents(Without(s, k))
    ensures name in Contents(s) && name != s[k].data.name
  {
    hide Contents, Without;
    WithoutAt(s, k);
    var j := ContentsIndex(Without(s, k), name);
    ContentsMember(s, if j < k then j else j + 1);
  }

  lemma ContentsWithout(s: seq<Node<Pkg>>, k: nat)
    requires DistinctNames(s) && k < |s| && DistinctNames(Without(s, k))
    ensures Contents(Without(s, k)) == Contents(s) - {s[k].data.name}
  {
    var m, c := Contents(s) - {s[k].data.name}, Contents(Without(s, k));
    forall name | name in m ensures name in c && c[name] == m[name] { ContentsKept(s, k, name); }
    forall name | name in c ensures name in m { ContentsNotAdded(s, k, name); }
  }

  lemma SameNodesRemoved(t: Slots, s: seq<Node<Pkg>>, p: nat, k: nat)
    requires SameNodes(t, s) && p < |t| && k < |s| && t[p] == s[k] && Distinct(s)
    ensures SameNodes(t[p := null], Without(s, k)) && Full(t[p := null]) == Full(t) - 1
  {
    var t', u := t[p := null], Without(s, k);
    FullUpdate(t, p, null);
    forall i | 0 <= i < |u| ensures u[i] in t' {
      var j := if i < k then i else i + 1;
      assert s[j] in t;
      var q :| 0 <= q < |t| && t[q] == s[j];
      assert t'[q] == u[i];
    }
    forall q | 0 <= q < |t'| && t'[q] != null ensures t'[q] in u {
      assert t[q] in s;
      var j :| 0 <= j < |s| && s[j] == t[q];
      assert u[if j < k then j else j - 1] == s[j];
    }
  }

  /** Makes `u`, headed by `list`, the list of a table that already holds its nodes. */
  method Adopt(hash: PkgHash, list: Node?<Pkg>, entries: nat, ghost u: seq<Node<Pkg>>)
    requires hash.buckets == hash.hash_table.Length && hash.buckets > 0
    requires hash.limit == hash.buckets * 68 / 100 && entries <= hash.limit
    requires IsList(list, u) && entries == |u| == Full(hash.hash_table[..])
    requires SameNodes(hash.hash_table[..], u) && DistinctNames(u) && Probing(hash.hash_table[..], hash.buckets)
    modifies hash`list, hash`entries, hash`nodes
    ensures hash.Valid() && hash.nodes == u && hash.entries == entries
  {
    hash.list := list;
    hash.nodes := u;
    hash.entries := entries;
  }

  method ClearSlot(table: array<Node?<Pkg>>, position: nat)
    requires position < table.Length
    modifies table
    ensures table[..] == old(table[..])[position := null]
  {
    table[position] := null;
  }

  /** `_alpm_pkghash_remove` */
  method Remove(hash: PkgHash, pkg: Pkg) returns (data: Option<Pkg>)
    requires hash.Valid()
    modifies hash, hash.hash_table, hash.nodes
    ensures hash.Valid() && hash.hash_table == old(hash.hash_table)
    ensures data == if pkg.name in old(Contents(hash.nodes)) then Some(old(Contents(hash.nodes))[pkg.name]) else None
    ensures Contents(hash.nodes) == old(Contents(hash.nodes)) - {pkg.name}
    ensures hash.nodes == old(hash.nodes) || exists k :: 0 <= k < |old(hash.nodes)| && hash.nodes == Without(old(hash.nodes), k)
  {
    hide Contents, Probing, SameNodes, IsList, DistinctNames, Full, Without;
    var position := Probe(hash, pkg.name);
    ghost var t, s := hash.hash_table[..], hash.nodes;
    var i := hash.hash_table[position];
    assert t[position] == i;
    if i == null {
      AbsentName(t, s, pkg.name, position);
      AbsentContents(s, pkg.name);
      return None;
    }
    ghost var k := ListIndex(t, s, position);
    ContentsMember(s, k);
    DistinctNamesWithout(s, k);
    ContentsWithout(s, k);
    data := Some(i.data);
    RemoveAt(hash, position, k);
  }

  /** Empties the slot of the `k`-th node and repairs the probe paths that crossed it. */
  method EmptySlot(table: array<Node?<Pkg>>, position: nat, ghost s: seq<Node<Pkg>>, ghost k: nat)
    requires Probing(table[..], table.Length) && SameNodes(table[..], s) && Distinct(s) && Full(table[..]) < table.Length
    requires position < table.Length && k < |s| && table[position] == s[k]
    modifies table
    ensures Probing(table[..], table.Length) && SameNodes(table[..], Without(s, k))
    ensures Full(table[..]) == old(Full(table[..])) - 1
  {
    ghost var t := table[..];
    ghost var free := FreeSlot(t);
    SameNodesRemoved(t, s, position, k);
    PuncturedProbing(t, position);
    ClearSlot(table, position);
    assert table[free] == table[..][free] && table[position] == table[..][position];
    var stop := FindStop(table, position, free);
    PlugHoles(table, position, stop, Without(s, k));
  }

  lemma ListedApart(list: Node?<Pkg>, s: seq<Node<Pkg>>)
    requires IsList(list, s)
    ensures Distinct(s)
  {
  }

  method RemoveAt(hash: PkgHash, position: nat, ghost k: nat)
    requires hash.Valid() && position < hash.buckets && k < |hash.nodes| && hash.hash_table[position] == hash.nodes[k]
    modifies hash, hash.hash_table, hash.nodes
    ensures hash.Valid() && hash.hash_table == old(hash.hash_table) && hash.nodes == Without(old(hash.nodes), k)
  {
    hide Probing, SameNodes, Full, DistinctNames, Linked;
    ghost var s := hash.nodes;
    var i: Node<Pkg> := hash.hash_table[position];
    ListedApart(hash.list, s);
    WithoutAt(s, k);
    hide IsList, Without;
    DistinctNamesWithout(s, k);
    EmptySlot(hash.hash_table, position, s, k);
    var list := RemoveItem(hash.list, i, s, k);
    Adopt(hash, list, hash.entries - 1, Without(s, k));
  }

  lemma PuncturedProbing(t: Slots, position: nat)
    requires Probing(t, |t|) && position < |t|
    ensures Probing(t[position := null], position)
  {
  }

  // ---- growing ----

  const PRIMES: seq<nat> := [
    11, 13, 17, 19, 23, 29, 31, 37, 41, 43, 47, 53, 59, 61, 67, 71, 73, 79, 83, 89, 97, 103, 109, 113, 127,
    137, 139, 149, 157, 167, 179, 193, 199, 211, 227, 241, 257, 277, 293, 313, 337, 359, 383, 409, 439, 467,
    503, 541, 577, 619, 661, 709, 761, 823, 887, 953, 1031, 1109, 1193, 1289, 1381, 1493, 1613, 1741, 1879,
    2029, 2179, 2357, 2549, 2753, 2971, 3209, 3469, 3739, 4027, 4349, 4703, 5087, 5503, 5953, 6427, 6949, 7517,
    8123, 8783, 9497, 10273, 11113, 12011, 12983, 14033, 15173, 16411, 17749, 19183, 20753, 22447, 24281,
    26267, 28411, 30727, 33223, 35933, 38873, 42043, 45481, 49201, 53201, 57557, 62233, 67307, 72817, 78779,
    85229, 92203, 99733, 107897, 116731, 126271, 136607, 147793, 159871, 172933, 187091, 202409, 218971,
    236897, 256279, 277261, 299951, 324503, 351061, 379787, 410857, 444487, 480881, 520241, 562841, 608903,
    658753, 712697, 771049, 834181, 902483, 976369
  ]

  /** The first prime of the table above `n`. */
  ghost predicate FirstAbove(n: nat, p: nat) {
    exists i :: 0 <= i < |PRIMES| && p == PRIMES[i] && p > n && forall k :: 0 <= k < i ==> PRIMES[k] <= n
  }

  ghost predicate OutOfPrimes(n: nat) { forall i :: 0 <= i < |PRIMES| ==> PRIMES[i] <= n }

  function PrimeTable(): seq<nat> { PRIMES }

  lemma IsFirstAbove(primes: seq<nat>, n: nat, i: nat)
    requires primes == PrimeTable() && i < |primes| && primes[i] > n && forall k :: 0 <= k < i ==> primes[k] <= n
    ensures FirstAbove(n, primes[i]) && !OutOfPrimes(n)
  {
    assert PRIMES[i] == primes[i] && forall k :: 0 <= k < i ==> PRIMES[k] == primes[k];
  }

  lemma NoneAbove(primes: seq<nat>, n: nat)
    requires primes == PrimeTable() && forall k :: 0 <= k < |primes| ==> primes[k] <= n
    ensures OutOfPrimes(n)
  {
    assert forall k :: 0 <= k < |PRIMES| ==> PRIMES[k] == primes[k];
  }

  /** The search in the table of primes. */
  method FirstPrime(wanted: nat) returns (p: Option<nat>)
    ensures p.Some? ==> FirstAbove(wanted, p.value)
    ensures p.None? <==> OutOfPrimes(wanted)
  {
    hide FirstAbove, OutOfPrimes;
    hide PrimeTable;
    var primes, i := PrimeTable(), 0;
    while i < |primes|
      invariant i <= |primes| && forall k :: 0 <= k < i ==> primes[k] <= wanted
    {
      if primes[i] > wanted {
        IsFirstAbove(primes, wanted, i);
        return Some(primes[i]);
      }
      i := i + 1;
    }
    NoneAbove(primes, wanted);
    p := None;
  }

  lemma AboveIs(n: nat, p: nat)
    requires FirstAbove(n, p)
    ensures p > n
  {
  }

  /** `_alpm_pkghash_create`, with the load factors 58/100 and 68/100: the table has room for `size`
      entries below its limit, or the primes have run out. */
  method Create(size: nat) returns (hash: PkgHash?)
    ensures hash != null ==> fresh(hash) && fresh(hash.hash_table) && hash.Valid() && hash.nodes == []
    ensures hash != null ==> FirstAbove(size * 100 / 58 + 1, hash.buckets) && size * 100 < hash.buckets * 58
    ensures hash == null <==> OutOfPrimes(size * 100 / 58 + 1)
  {
    hide FirstAbove, OutOfPrimes;
    var buckets := FirstPrime(size * 100 / 58 + 1);
    if buckets.None? { return null; }
    AboveIs(size * 100 / 58 + 1, buckets.value);
    hash := new PkgHash(buckets.value);
  }

  /** At most 68 of 100 slots are taken. */
  lemma LoadIsBounded(hash: PkgHash)
    requires hash.Valid()
    ensures |hash.nodes| * 100 <= hash.buckets * 68
  {
    hide SameNodes, Probing, Full, IsList, DistinctNames;
  }

  function GrownSize(buckets: nat): nat {
    if buckets < 500 then buckets * 2
    else if buckets < 2000 then buckets * 3 / 2
    else if buckets < 5000 then buckets * 4 / 3
    else buckets + 1
  }

  /** A table that cannot grow has room for this many entries. */
  const LARGEST_LIMIT: nat := 385079

  lemma FullOnlyWhenLarge(buckets: nat)
    requires OutOfPrimes(GrownSize(buckets) * 100 / 58 + 1)
    ensures buckets * 68 / 100 >= LARGEST_LIMIT
  {
    assert PRIMES[|PRIMES|-1] == 976369;
    assert GrownSize(buckets) * 100 / 58 + 1 >= 976369;
  }

  /** The grown table's limit lies above the old one. */
  lemma GrowthRaisesLimit(buckets: nat, grown: nat)
    requires grown > GrownSize(buckets) * 100 / 58 + 1
    ensures buckets * 68 / 100 < grown * 68 / 100
  {
    assert grown >= buckets + 2;
  }

  lemma SameNodesInserted(t: Slots, s: seq<Node<Pkg>>, p: nat, x: Node<Pkg>, u: seq<Node<Pkg>>)
    requires SameNodes(t, s) && p < |t| && t[p] == null && x !in s
    requires multiset(u) == multiset(s) + multiset{x}
    ensures SameNodes(t[p := x], u) && Full(t[p := x]) == Full(t) + 1
  {
    var t' := t[p := x];
    FullUpdate(t, p, x);
    forall i | 0 <= i < |u| ensures u[i] in t' {
      assert u[i] in multiset(u);
      if u[i] != x {
        assert u[i] in multiset(s) && u[i] in s;
        var j: nat :| j < |s| && s[j] == u[i];
        assert s[j] in t;
        var q :| 0 <= q < |t| && t[q] == s[j];
        assert t'[q] == u[i];
      } else {
        assert t'[p] == x;
      }
    }
    forall q | 0 <= q < |t'| && t'[q] != null ensures t'[q] in u {
      assert t'[q] in multiset(u) by {
        if q != p { assert t[q] in s && t[q] in multiset(s); }
      }
    }
  }

  /** Filling the first free slot of a path keeps every path whole. */
  lemma FilledKeepsProbing(t: Slots, p: nat, x: Node<Pkg>)
    requires Probing(t, |t|) && p < |t| && t[p] == null
    requires forall j :: 0 <= j < |t| && OnPath(Home(x.data.name, |t|), j, p) ==> t[j] != null
    ensures Probing(t[p := x], |t|)
  {
  }

  /** Puts a node that is in no slot yet into the first free slot of its path. */
  method Place(table: array<Node?<Pkg>>, x: Node<Pkg>, ghost s: seq<Node<Pkg>>, ghost u: seq<Node<Pkg>>)
    requires Probing(table[..], table.Length) && SameNodes(table[..], s) && x !in s
    requires Full(table[..]) < table.Length && multiset(u) == multiset(s) + multiset{x}
    modifies table
    ensures Probing(table[..], table.Length) && SameNodes(table[..], u)
    ensures Full(table[..]) == old(Full(table[..])) + 1
  {
    ghost var t := table[..];
    ghost var free := FreeSlot(t);
    var position := GetHashPosition(table, Home(x.data.name, table.Length), free);
    SameNodesInserted(t, s, position, x, u);
    assert forall j :: 0 <= j < |t| ==> table[j] == t[j];
    FilledKeepsProbing(t, position, x);
    table[position] := x;
    assert table[..] == t[position := x];
  }

  lemma {:induction false} FullPrefix(t: Slots, i: nat)
    requires i <= |t|
    ensures Full(t[..i]) <= Full(t)
    ensures i < |t| && t[i] != null ==> Full(t[..i]) + 1 == Full(t[..i+1]) <= Full(t)
    ensures i < |t| && t[i] == null ==> Full(t[..i]) == Full(t[..i+1])
    decreases |t| - i
  {
    if i < |t| {
      assert t[..i+1][..i] == t[..i];
      FullPrefix(t, i + 1);
    } else {
      assert t[..i] == t;
    }
  }

  /** `placed` holds exactly the nodes of the first `i` slots of `t`. */
  ghost predicate Gathered(placed: seq<Node<Pkg>>, t: Slots, i: nat) {
    && i <= |t| && |placed| == Full(t[..i])
    && (forall k :: 0 <= k < |placed| ==> placed[k] in t[..i])
    && (forall j :: 0 <= j < i && t[j] != null ==> t[j] in placed)
  }

  lemma GatherNext(placed: seq<Node<Pkg>>, t: Slots, i: nat, s: seq<Node<Pkg>>)
    requires Gathered(placed, t, i) && i < |t| && SameNodes(t, s)
    ensures t[i] == null ==> Gathered(placed, t, i + 1)
    ensures t[i] != null ==> t[i] !in placed && Gathered(placed + [t[i]], t, i + 1)
  {
    FullPrefix(t, i);
    assert t[..i+1] == t[..i] + [t[i]];
    if t[i] != null {
      forall k | 0 <= k < |placed| ensures placed[k] != t[i] {
        var j :| 0 <= j < i && t[..i][j] == placed[k];
        assert t[j] != t[i];
      }
    }
  }

  lemma GatheredAll(placed: seq<Node<Pkg>>, t: Slots, s: seq<Node<Pkg>>, u: Slots)
    requires Gathered(placed, t, |t|) && SameNodes(t, s) && SameNodes(u, placed)
    ensures SameNodes(u, s)
  {
    assert t[..|t|] == t;
    forall p | 0 <= p < |u| && u[p] != null ensures u[p] in s {
      assert u[p] in placed;
      var k :| 0 <= k < |placed| && placed[k] == u[p];
      assert placed[k] in t;
      var j :| 0 <= j < |t| && t[j] == placed[k];
    }
    forall i | 0 <= i < |s| ensures s[i] in u {
      assert s[i] in t;
      var j :| 0 <= j < |t| && t[j] == s[i];
      assert t[j] in placed;
      var k :| 0 <= k < |placed| && placed[k] == t[j];
    }
  }

  /** Moves every node of the old table into the empty new one. */
  method MoveAll(from: array<Node?<Pkg>>, to: array<Node?<Pkg>>, ghost s: seq<Node<Pkg>>)
    requires from != to && SameNodes(from[..], s) && Full(from[..]) < to.Length
    requires forall i :: 0 <= i < to.Length ==> to[i] == null
    modifies from, to
    ensures Probing(to[..], to.Length) && SameNodes(to[..], s) && Full(to[..]) == old(Full(from[..]))
  {
    ghost var t := from[..];
    ghost var placed: seq<Node<Pkg>> := [];
    AllFree(to[..]);
    var i := 0;
    while i < from.Length
      invariant i <= |t| && forall j :: i <= j < |t| ==> from[j] == t[j]
      invariant Gathered(placed, t, i) && SameNodes(to[..], placed)
      invariant Probing(to[..], to.Length) && Full(to[..]) == |placed|
    {
      GatherNext(placed, t, i, s);
      FullPrefix(t, i);
      if from[i] != null {
        Place(to, from[i], placed, placed + [t[i]]);
        placed := placed + [t[i]];
        from[i] := null;
      }
      i := i + 1;
    }
    GatheredAll(placed, t, s, to[..]);
    assert t[..|t|] == t;
  }

  /** Moves every entry into a larger table, which takes over the list; NULL, and nothing changed, when
      the primes have run out. */
  method Rehash(oldhash: PkgHash) returns (newhash: PkgHash?)
    requires oldhash.Valid()
    modifies oldhash, oldhash.hash_table
    ensures newhash == null <==> OutOfPrimes(GrownSize(old(oldhash.buckets)) * 100 / 58 + 1)
    ensures newhash == null ==> oldhash.Valid() && oldhash.nodes == old(oldhash.nodes)
    ensures newhash != null ==> fresh(newhash) && fresh(newhash.hash_table) && newhash.Valid()
    ensures newhash != null ==> newhash.nodes == old(oldhash.nodes) && newhash.entries < newhash.limit
  {
    hide OutOfPrimes, Probing, SameNodes, Full, IsList, DistinctNames;
    newhash := Create(GrownSize(oldhash.buckets));
    if newhash == null { return; }
    ghost var s := oldhash.nodes;
    AllNull(newhash);
    GrowthRaisesLimit(oldhash.buckets, newhash.buckets);
    var list := oldhash.list;
    oldhash.list := null;
    MoveAll(oldhash.hash_table, newhash.hash_table, s);
    Adopt(newhash, list, oldhash.entries, s);
  }

  lemma AllNull(hash: PkgHash)
    requires hash.Valid() && hash.nodes == []
    ensures forall i :: 0 <= i < hash.hash_table.Length ==> hash.hash_table[i] == null
  {
    forall i | 0 <= i < hash.hash_table.Length ensures hash.hash_table[i] == null {
      assert hash.hash_table[i] == hash.hash_table[..][i];
    }
  }

  /** The list after an insertion: at the end, or merged in by name. */
  ghost function Inserted(s: seq<Node<Pkg>>, x: Node<Pkg>, sorted: bool): seq<Node<Pkg>> {
    if sorted then Merge(s, [x], DataOf, PkgCmp) else s + [x]
  }

  /** The names on the list in the order of their characters. */
  ghost predicate InNameOrder(s: seq<Node<Pkg>>) {
    forall i, j :: 0 <= i < j < |s| ==> StrCmp(s[i].data.name, s[j].data.name) <= 0
  }

  /** A sorted insertion keeps the names in order. */
  lemma SortedKeepsOrder(s: seq<Node<Pkg>>, x: Node<Pkg>)
    requires InNameOrder(s)
    ensures InNameOrder(Inserted(s, x, true))
  {
    hide StrCmp;
    DepOrder.PkgCmpCompares();
    assert Sorted(s, DataOf, PkgCmp);
    MergeSorted(s, [x], DataOf, PkgCmp);
    var u := Inserted(s, x, true);
    forall i, j | 0 <= i < j < |u| ensures StrCmp(u[i].data.name, u[j].data.name) <= 0 {
      assert PkgCmp(DataOf(u[i]), DataOf(u[j])) <= 0;
    }
  }

  lemma OrderWithout(s: seq<Node<Pkg>>, t: seq<Node<Pkg>>)
    requires InNameOrder(s) && (t == s || exists k :: 0 <= k < |s| && t == Without(s, k))
    ensures InNameOrder(t)
  {
    hide StrCmp;
    if t != s {
      var k :| 0 <= k < |s| && t == Without(s, k);
      WithoutAt(s, k);
    }
  }

  lemma InsertedPermutes(s: seq<Node<Pkg>>, x: Node<Pkg>, sorted: bool)
    ensures multiset(Inserted(s, x, sorted)) == multiset(s) + multiset{x}
  {
    MergePermutes(s, [x], DataOf, PkgCmp);
  }

  lemma MembersAfterInsertion(s: seq<Node<Pkg>>, x: Node<Pkg>, u: seq<Node<Pkg>>)
    requires multiset(u) == multiset(s) + multiset{x}
    ensures forall i :: 0 <= i < |u| ==> u[i] == x || u[i] in s
    ensures x in u && forall j :: 0 <= j < |s| ==> s[j] in u
  {
    forall i | 0 <= i < |u| ensures u[i] == x || u[i] in s {
      assert u[i] in multiset(u);
    }
    assert x in multiset(u);
    forall j | 0 <= j < |s| ensures s[j] in u {
      assert s[j] in multiset(s) && s[j] in multiset(u);
    }
  }

  lemma DistinctNamesInserted(s: seq<Node<Pkg>>, x: Node<Pkg>, u: seq<Node<Pkg>>)
    requires DistinctNames(s) && multiset(u) == multiset(s) + multiset{x} && Distinct(u)
    requires forall i :: 0 <= i < |s| ==> s[i].data.name != x.data.name
    ensures DistinctNames(u)
  {
    MembersAfterInsertion(s, x, u);
    forall i, j | 0 <= i < j < |u| ensures u[i].data.name != u[j].data.name {
      assert u[i] != u[j];
      if u[i] != x && u[j] != x {
        var a :| 0 <= a < |s| && s[a] == u[i];
        var b :| 0 <= b < |s| && s[b] == u[j];
      }
    }
  }

  lemma ContentsHas(s: seq<Node<Pkg>>, x: Node<Pkg>)
    requires DistinctNames(s) && x in s
    ensures x.data.name in Contents(s) && Contents(s)[x.data.name] == x.data
  {
    var i: nat :| i < |s| && s[i] == x;
    ContentsMember(s, i);
  }

  lemma ContentsFrom(s: seq<Node<Pkg>>, name: string) returns (x: Node<Pkg>)
    requires DistinctNames(s) && name in Contents(s)
    ensures x in s && x.data.name == name && x.data == Contents(s)[name]
  {
    var i: nat :| i < |s| && s[i].data.name == name;
    x := s[i];
    ContentsMember(s, i);
  }

  lemma ContentsInserted(s: seq<Node<Pkg>>, x: Node<Pkg>, u: seq<Node<Pkg>>)
    requires DistinctNames(s) && DistinctNames(u) && multiset(u) == multiset(s) + multiset{x}
    ensures Contents(u) == Contents(s)[x.data.name := x.data]
  {
    MembersAfterInsertion(s, x, u);
    var c, m := Contents(u), Contents(s)[x.data.name := x.data];
    ContentsHas(u, x);
    forall name | name in m ensures name in c && c[name] == m[name] {
      if name != x.data.name {
        var y := ContentsFrom(s, name);
        ContentsHas(u, y);
      }
    }
    forall name | name in c ensures name in m {
      var y := ContentsFrom(u, name);
      if y != x { ContentsHas(s, y); }
    }
  }

  /** Puts the node at the end of the list, or merges it in by name. */
  method LinkNode(list: Node?<Pkg>, node: Node<Pkg>, sorted: bool, ghost s: seq<Node<Pkg>>) returns (newlist: Node?<Pkg>)
    requires IsList(list, s) && IsList(node, [node]) && node !in s
    modifies s, node
    ensures IsList(newlist, Inserted(s, node, sorted))
  {
    if !sorted {
      newlist := Join(list, node, s, [node]);
    } else {
      newlist := Mmerge(list, node, PkgCmp, s, [node]);
    }
  }

  /** Takes a node that is on the list `u` already into the slot its probe ends on. */
  method TakeIn(hash: PkgHash, list: Node?<Pkg>, x: Node<Pkg>, ghost s: seq<Node<Pkg>>, ghost u: seq<Node<Pkg>>)
    requires hash.buckets == hash.hash_table.Length && hash.buckets > 0
    requires hash.limit == hash.buckets * 68 / 100 && hash.entries < hash.limit
    requires SameNodes(hash.hash_table[..], s) && Probing(hash.hash_table[..], hash.buckets)
    requires hash.entries == Full(hash.hash_table[..]) && hash.entries + 1 == |u|
    requires x !in s && multiset(u) == multiset(s) + multiset{x}
    requires IsList(list, u) && DistinctNames(u)
    modifies hash, hash.hash_table
    ensures hash.Valid() && hash.nodes == u && hash.hash_table == old(hash.hash_table)
  {
    MembersAfterInsertion(s, x, u);
    Place(hash.hash_table, x, s, u);
    Adopt(hash, list, hash.entries + 1, u);
  }

  /** Takes a new node into the list and into the slot its probe ends on. */
  method Insert(hash: PkgHash, pkg: Pkg, sorted: bool) returns (ghost ptr: Node<Pkg>)
    requires hash.Valid() && pkg.name !in Contents(hash.nodes) && hash.entries < hash.limit
    modifies hash, hash.hash_table, hash.nodes
    ensures hash.Valid() && hash.hash_table == old(hash.hash_table)
    ensures fresh(ptr) && ptr.data == pkg && hash.nodes == Inserted(old(hash.nodes), ptr, sorted)
  {
    hide Probing, SameNodes, Full, Contents;
    ghost var s := hash.nodes;
    var node := new Node(pkg);
    ptr := node;
    ghost var u := Inserted(s, node, sorted);
    InsertedPermutes(s, node, sorted);
    InsertedSize(s, node, sorted);
    NewName(s, pkg.name);
    var newlist := LinkNode(hash.list, node, sorted, s);
    DistinctNamesInserted(s, node, u);
    TakeIn(hash, newlist, node, s, u);
  }

  lemma InsertedSize(s: seq<Node<Pkg>>, x: Node<Pkg>, sorted: bool)
    ensures |Inserted(s, x, sorted)| == |s| + 1
  {
  }

  lemma NewName(s: seq<Node<Pkg>>, name: string)
    requires DistinctNames(s) && name !in Contents(s)
    ensures forall i :: 0 <= i < |s| ==> s[i].data.name != name
  {
    forall i | 0 <= i < |s| ensures s[i].data.name != name { ContentsMember(s, i); }
  }

  /** At its limit, and with no larger table to move to. */
  ghost predicate CannotTake(entries: nat, limit: nat, buckets: nat) {
    entries == limit && OutOfPrimes(GrownSize(buckets) * 100 / 58 + 1)
  }

  /** `pkghash_add_pkg`: grows the table first when it is at its limit. NULL, and nothing changed, exactly when
      it would have to grow and no prime is large enough. */
  method AddPkg(hashref: PkgHash, pkg: Pkg, sorted: bool) returns (hash: PkgHash?, ghost ptr: Node?<Pkg>)
    requires hashref.Valid() && pkg.name !in Contents(hashref.nodes)
    modifies hashref, hashref.hash_table, hashref.nodes
    ensures hash == null <==> CannotTake(old(hashref.entries), old(hashref.limit), old(hashref.buckets))
    ensures hash == null ==> hashref.Valid() && hashref.nodes == old(hashref.nodes)
    ensures hash != null ==> (hash == hashref || fresh(hash)) && hash.Valid()
    ensures hash != null ==> hash.hash_table == old(hashref.hash_table) || fresh(hash.hash_table)
    ensures hash != null ==> ptr != null && fresh(ptr) && ptr.data == pkg && hash.nodes == Inserted(old(hashref.nodes), ptr, sorted)
    ensures hash != null ==> Contents(hash.nodes) == old(Contents(hashref.nodes))[pkg.name := pkg]
  {
    hide OutOfPrimes, GrownSize, Contents, Inserted, Probing, SameNodes, Full, IsList;
    ghost var s := hashref.nodes;
    hash, ptr := hashref, null;
    if hash.entries >= hash.limit {
      hash := Rehash(hash);
      if hash == null { return; }
    }
    ptr := Insert(hash, pkg, sorted);
    InsertedPermutes(s, ptr, sorted);
    ContentsInserted(s, ptr, hash.nodes);
  }

  // ---- runs ----

  datatype Op = Add(pkg: Pkg, sorted: bool) | Delete(pkg: Pkg) | Lookup(name: string)

  /** The map after an operation, and what the operation answers. */
  function AfterOp(m: map<string, Pkg>, op: Op): map<string, Pkg> {
    match op
    case Add(pkg, _) => m[pkg.name := pkg]
    case Delete(pkg) => m - {pkg.name}
    case Lookup(_) => m
  }

  function AnswerOf(m: map<string, Pkg>, op: Op): Option<Pkg> {
    match op
    case Add(pkg, _) => Some(pkg)
    case Delete(pkg) => if pkg.name in m then Some(m[pkg.name]) else None
    case Lookup(name) => if name in m then Some(m[name]) else None
  }

  function AfterOps(ops: seq<Op>): map<string, Pkg> {
    if ops == [] then map[] else AfterOp(AfterOps(ops[..|ops|-1]), ops[|ops|-1])
  }

  /** Callers add a name only when it is not there. */
  ghost predicate Allowed(ops: seq<Op>) {
    forall i :: 0 <= i < |ops| && ops[i].Add? ==> ops[i].pkg.name !in AfterOps(ops[..i])
  }

  /** The nodes of the list, all among `made`. */
  ghost predicate Owned(nodes: seq<Node<Pkg>>, made: set<object>) {
    forall i :: 0 <= i < |nodes| ==> nodes[i] in made
  }

  lemma OwnedInserted(s: seq<Node<Pkg>>, x: Node<Pkg>, sorted: bool, made: set<object>)
    requires Owned(s, made)
    ensures Owned(Inserted(s, x, sorted), made + {x})
  {
    hide Inserted;
    InsertedPermutes(s, x, sorted);
    MembersAfterInsertion(s, x, Inserted(s, x, sorted));
  }

  lemma OwnedWithout(s: seq<Node<Pkg>>, t: seq<Node<Pkg>>, made: set<object>)
    requires Owned(s, made) && (t == s || exists k :: 0 <= k < |s| && t == Without(s, k))
    ensures Owned(t, made)
  {
    if t != s {
      var k :| 0 <= k < |s| && t == Without(s, k);
      WithoutAt(s, k);
    }
  }

  /** One operation; `hash` is null when the table cannot grow. */
  method Apply(before: PkgHash, op: Op, ghost made: set<object>) returns (hash: PkgHash?, answer: Option<Pkg>, ghost more: set<object>)
    requires before.Valid() && (op.Add? ==> op.pkg.name !in Contents(before.nodes))
    requires before in made && before.hash_table in made && Owned(before.nodes, made)
    modifies before, before.hash_table, before.nodes
    ensures fresh(more - made)
    ensures hash != null ==> hash.Valid() && hash in more && hash.hash_table in more && Owned(hash.nodes, more)
    ensures hash != null ==> Contents(hash.nodes) == AfterOp(old(Contents(before.nodes)), op)
    ensures hash != null ==> answer == AnswerOf(old(Contents(before.nodes)), op)
    ensures hash == null ==> old(|before.nodes|) >= LARGEST_LIMIT
    ensures hash != null ==> |hash.nodes| <= old(|before.nodes|) + 1
    ensures hash != null && old(InNameOrder(before.nodes)) && (op.Add? ==> op.sorted) ==> InNameOrder(hash.nodes)
  {
    hide Contents, Inserted, SameNodes, Probing, Full, IsList, Owned, OutOfPrimes, InNameOrder;
    hash, more := before, made;
    ghost var s := before.nodes;
    match op {
      case Add(pkg, sorted) =>
        ghost var ptr;
        ghost var buckets := before.buckets;
        hash, ptr := AddPkg(before, pkg, sorted);
        if hash == null { FullOnlyWhenLarge(buckets); } else { InsertedSize(s, ptr, sorted); }
        answer := Some(pkg);
        if InNameOrder(s) && sorted && hash != null { SortedKeepsOrder(s, ptr); }
        if hash != null {
          OwnedInserted(s, ptr, sorted, made);
          OwnedMore(hash.nodes, made + {ptr}, made + {ptr, hash, hash.hash_table});
          more := made + {ptr, hash, hash.hash_table};
        }
      case Delete(pkg) =>
        answer := Remove(before, pkg);
        OwnedWithout(s, before.nodes, made);
        if InNameOrder(s) { OrderWithout(s, before.nodes); }
      case Lookup(name) =>
        answer := Find(before, name);
    }
  }

  lemma OwnedMore(s: seq<Node<Pkg>>, made: set<object>, more: set<object>)
    requires Owned(s, made) && made <= more
    ensures Owned(s, more)
  {
  }

  /** The answers so far are those of the map. */
  ghost predicate AnswersRight(ops: seq<Op>, answers: seq<Option<Pkg>>) {
    |answers| <= |ops| && forall i :: 0 <= i < |answers| ==> answers[i] == AnswerOf(AfterOps(ops[..i]), ops[i])
  }

  lemma AnswersNext(ops: seq<Op>, answers: seq<Option<Pkg>>, answer: Option<Pkg>)
    requires AnswersRight(ops, answers) && |answers| < |ops| && answer == AnswerOf(AfterOps(ops[..|answers|]), ops[|answers|])
    ensures AnswersRight(ops, answers + [answer])
  {
    hide AnswerOf, AfterOps;
  }

  /** Over every run of operations the table answers as a map from names to packages would. A run ends early
      only when the table cannot be created, or cannot grow; the latter takes more operations than this. */
  method Run(size: nat, ops: seq<Op>) returns (hash: PkgHash?, answers: seq<Option<Pkg>>)
    requires Allowed(ops)
    ensures AnswersRight(ops, answers)
    ensures !OutOfPrimes(size * 100 / 58 + 1) && |ops| <= LARGEST_LIMIT ==> hash != null
    ensures hash != null ==> hash.Valid() && |answers| == |ops| && Contents(hash.nodes) == AfterOps(ops)
    ensures hash != null && (forall op :: op in ops && op.Add? ==> op.sorted) ==> InNameOrder(hash.nodes)
  {
    hide Contents, AfterOp, AfterOps, AnswerOf, Allowed, SameNodes, Probing, Full, IsList, Owned, OutOfPrimes, InNameOrder;
    answers := [];
    hash := Create(size);
    if hash == null { return; }
    ghost var made: set<object> := {hash, hash.hash_table};
    NothingYet(hash, ops, made);
    var i := 0;
    while i < |ops|
      invariant i == |answers| <= |ops| && hash != null && hash.Valid() && AnswersRight(ops, answers)
      invariant Contents(hash.nodes) == AfterOps(ops[..i])
      invariant (forall op :: op in ops && op.Add? ==> op.sorted) ==> InNameOrder(hash.nodes)
      invariant fresh(made) && hash in made && hash.hash_table in made && Owned(hash.nodes, made)
      invariant |hash.nodes| <= i
      decreases |ops| - i
    {
      NextOp(ops, i);
      OwnedFresh(hash.nodes, made);
      assert ops[i] in ops;
      var answer;
      hash, answer, made := Apply(hash, ops[i], made);
      if hash == null { return; }
      AnswersNext(ops, answers, answer);
      answers := answers + [answer];
      i := i + 1;
    }
    assert ops[..i] == ops;
  }

  lemma OwnedFresh(s: seq<Node<Pkg>>, made: set<object>)
    requires Owned(s, made)
    ensures forall i :: 0 <= i < |s| ==> s[i] in made
  {
  }

  lemma NothingYet(hash: PkgHash, ops: seq<Op>, made: set<object>)
    requires hash.nodes == []
    ensures Contents(hash.nodes) == AfterOps(ops[..0]) && Owned(hash.nodes, made) && InNameOrder(hash.nodes)
  {
  }

  lemma NextOp(ops: seq<Op>, i: nat)
    requires i < |ops| && Allowed(ops)
    ensures AfterOps(ops[..i+1]) == AfterOp(AfterOps(ops[..i]), ops[i])
    ensures ops[i].Add? ==> ops[i].pkg.name !in AfterOps(ops[..i])
  {
    assert ops[..i+1][..i] == ops[..i];
  }
}
