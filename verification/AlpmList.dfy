/** The doubly linked list whose head's `prev` is the tail. Every routine relinks nodes in place;
    a ghost sequence names the nodes in order. */
module AlpmList {
  import opened Common
  import opened ListSpec

  class Node<T> {
    const data: T
    var prev: Node?<T>
    var next: Node?<T>

    constructor (data: T)
      ensures this.data == data && next == null && prev == this
    {
      this.data := data;
      next := null;
      prev := this;
    }
  }

  function DataOf<T>(n: Node<T>): T { n.data }

  ghost function Values<T>(s: seq<Node<T>>): (v: seq<T>)
    ensures |v| == |s| && forall i :: 0 <= i < |s| ==> v[i] == s[i].data
  {
    seq(|s|, i requires 0 <= i < |s| => s[i].data)
  }

  /** `next` and `prev` agree with the order of `s`, except that the first `prev` is free. */
  ghost predicate Linked<T>(s: seq<Node<T>>)
    reads s
  {
    && Distinct(s)
    && (forall i {:trigger s[i].next} :: 0 <= i < |s| - 1 ==> s[i].next == s[i+1])
    && (s != [] ==> Last(s).next == null)
    && (forall i {:trigger s[i].prev} :: 1 <= i < |s| ==> s[i].prev == s[i-1])
  }

  function HeadOf<T>(s: seq<Node<T>>): Node?<T> { if s == [] then null else s[0] }

  function Last<T>(s: seq<T>): T
    requires s != []
  {
    s[|s|-1]
  }

  /** A well-formed list: linked both ways, ended by NULL, with the tail behind the head. */
  ghost predicate IsList<T>(head: Node?<T>, s: seq<Node<T>>)
    reads s
  {
    head == HeadOf(s) && Linked(s) && (s != [] ==> s[0].prev == Last(s))
  }

  ghost predicate Disjoint<T>(s: seq<T>, t: seq<T>) {
    forall i, j :: 0 <= i < |s| && 0 <= j < |t| ==> s[i] != t[j]
  }

  // ---- append, join, remove ----

  method Append<T>(list: Node?<T>, data: T, ghost s: seq<Node<T>>) returns (head: Node<T>, ptr: Node<T>)
    requires IsList(list, s)
    modifies s
    ensures fresh(ptr) && ptr.data == data && IsList(head, s + [ptr])
  {
    ptr := new Node(data);
    if list == null {
      return ptr, ptr;
    }
    var lp := list.prev;
    lp.next := ptr;
    ptr.prev := lp;
    list.prev := ptr;
    head := list;
  }

  method Join<T>(first: Node?<T>, second: Node?<T>, ghost s: seq<Node<T>>, ghost t: seq<Node<T>>) returns (head: Node?<T>)
    requires IsList(first, s) && IsList(second, t) && Disjoint(s, t)
    modifies s, t
    ensures IsList(head, s + t)
  {
    if first == null { assert s + t == t; return second; }
    if second == null { assert s + t == s; return first; }
    var tmp := first.prev;
    tmp.next := second;
    first.prev := second.prev;
    second.prev := tmp;
    head := first;
  }

  ghost function Without<T>(s: seq<T>, k: nat): seq<T>
    requires k < |s|
  {
    s[..k] + s[k+1..]
  }

  /** The links of `s` once its `k`-th node has been unlinked. */
  ghost predicate Unlinked<T>(s: seq<Node<T>>, k: nat)
    requires k < |s|
    reads s
  {
    && Distinct(s)
    && (forall i {:trigger s[i].next} :: 0 <= i < |s| - 1 && i != k && i + 1 != k ==> s[i].next == s[i+1])
    && (forall i {:trigger s[i].prev} :: 1 <= i < |s| && i != k && i - 1 != k ==> s[i].prev == s[i-1])
    && (0 < k < |s| - 1 ==> s[k-1].next == s[k+1] && s[k+1].prev == s[k-1])
    && (0 < k == |s| - 1 ==> s[k-1].next == null && s[0].prev == s[k-1])
    && (k < |s| - 1 ==> Last(s).next == null && (if k == 0 then s[1] else s[0]).prev == Last(s))
  }

  lemma UnlinkedIsList<T>(s: seq<Node<T>>, k: nat)
    requires k < |s| && Unlinked(s, k)
    ensures IsList(HeadOf(Without(s, k)), Without(s, k))
  {
    var t := Without(s, k);
    assert |t| == |s| - 1 && forall i :: 0 <= i < |t| ==> t[i] == if i < k then s[i] else s[i+1];
    forall i | 0 <= i < |t| - 1 ensures t[i].next == t[i+1] {}
    forall i | 1 <= i < |t| ensures t[i].prev == t[i-1] {}
  }

  method RemoveItem<T>(haystack: Node?<T>, item: Node<T>, ghost s: seq<Node<T>>, ghost k: nat) returns (head: Node?<T>)
    requires IsList(haystack, s) && k < |s| && s[k] == item
    modifies s
    ensures IsList(head, Without(s, k))
  {
    head := haystack;
    if item == haystack {
      head := item.next;
      if head != null {
        head.prev := item.prev;
      }
      item.prev := null;
    } else if item == haystack.prev {
      if item.prev != null {
        item.prev.next := item.next;
        haystack.prev := item.prev;
        item.prev := null;
      }
    } else {
      if item.next != null {
        item.next.prev := item.prev;
      }
      if item.prev != null {
        item.prev.next := item.next;
      }
    }
    UnlinkedIsList(s, k);
    assert head == HeadOf(Without(s, k));
  }

  // ---- merge sort in place ----

  ghost predicate Within<T>(s: seq<Node<T>>, all: set<Node<T>>) {
    forall i :: 0 <= i < |s| ==> s[i] in all
  }

  ghost predicate AllApart<T>(a: seq<T>, b: seq<T>, c: seq<T>) {
    Disjoint(a, b) && Disjoint(a, c) && Disjoint(b, c)
  }

  /** Moves the head `x` of the remainder `l` behind `lp`, the end of the nodes merged so far. */
  method TakeNext<T>(lp: Node<T>, x: Node<T>, ghost done: seq<Node<T>>, ghost l: seq<Node<T>>, ghost r: seq<Node<T>>)
    returns (rest: Node?<T>)
    requires done != [] && Last(done) == lp && l != [] && x == l[0]
    requires Linked(done) && Linked(l) && Linked(r) && AllApart(done, l, r)
    modifies lp, x
    ensures Linked(done + [x]) && Linked(l[1..]) && Linked(r) && AllApart(done + [x], l[1..], r)
    ensures rest == HeadOf(l[1..])
  {
    lp.next := x;
    x.prev := lp;
    rest := x.next;
    x.next := null;
  }

  /** Hangs a whole remainder behind `lp`. */
  method TakeRest<T>(lp: Node<T>, x: Node<T>, ghost done: seq<Node<T>>, ghost l: seq<Node<T>>)
    requires done != [] && Last(done) == lp && l != [] && x == l[0]
    requires Linked(done) && Linked(l) && Disjoint(done, l)
    modifies lp, x
    ensures Linked(done + l)
  {
    lp.next := x;
    x.prev := lp;
  }

  lemma MergeTakesHead<T>(done: seq<Node<T>>, l: seq<Node<T>>, r: seq<Node<T>>, fn: (T, T) -> int)
    requires l != [] && r != []
    ensures fn(l[0].data, r[0].data) <= 0 ==>
              done + Merge(l, r, DataOf, fn) == done + [l[0]] + Merge(l[1..], r, DataOf, fn)
    ensures !(fn(l[0].data, r[0].data) <= 0) ==>
              done + Merge(l, r, DataOf, fn) == done + [r[0]] + Merge(l, r[1..], DataOf, fn)
  {
  }

  lemma MergeEnds<T>(l: seq<Node<T>>, r: seq<Node<T>>, fn: (T, T) -> int)
    ensures l == [] ==> Merge(l, r, DataOf, fn) == r
    ensures r == [] ==> Merge(l, r, DataOf, fn) == l
  {
  }

  /** What is left of a remainder, and what is done, when its head moves over. */
  lemma HeadMoves<T>(done: seq<Node<T>>, l: seq<Node<T>>, all: set<Node<T>>)
    requires l != [] && done != [] && Within(done, all) && Within(l, all)
    ensures Last(done) in all && l[0] in all && Within(done + [l[0]], all) && Within(l[1..], all)
    ensures Last(done + [l[0]]) == l[0] && (l[1..] != [] ==> Last(l[1..]) == Last(l))
  {
  }

  lemma ApartSwap<T>(a: seq<T>, b: seq<T>, c: seq<T>)
    requires AllApart(a, b, c)
    ensures AllApart(a, c, b)
  {
  }

  lemma FirstTwoApart<T>(done: seq<T>, l: seq<T>, r: seq<T>)
    requires AllApart(done, l, r)
    ensures Disjoint(done, l) && Disjoint(done, r)
  {
  }

  lemma EndsWithin<T>(done: seq<Node<T>>, l: seq<Node<T>>, r: seq<Node<T>>, all: set<Node<T>>)
    requires done != [] && Within(done, all) && Within(l, all) && Within(r, all)
    ensures Last(done) in all && (l != [] ==> l[0] in all) && (r != [] ==> r[0] in all)
  {
  }

  lemma EndJoins<T>(done: seq<Node<T>>, l: seq<Node<T>>)
    requires l != []
    ensures Last(done + l) == Last(l)
  {
  }

  /** The loop of the merge, from a nonempty merged part on: the tail of the finished list. */
  method MergeTails<T>(lp0: Node<T>, left0: Node?<T>, right0: Node?<T>, leftTail: Node<T>, rightTail: Node<T>,
                       fn: (T, T) -> int, ghost done0: seq<Node<T>>, ghost ls: seq<Node<T>>, ghost rs: seq<Node<T>>,
                       ghost all: set<Node<T>>)
    returns (tail: Node<T>)
    requires done0 != [] && Last(done0) == lp0 && left0 == HeadOf(ls) && right0 == HeadOf(rs)
    requires Linked(done0) && Linked(ls) && Linked(rs) && AllApart(done0, ls, rs)
    requires Within(done0, all) && Within(ls, all) && Within(rs, all)
    requires (ls != [] ==> Last(ls) == leftTail) && (rs != [] ==> Last(rs) == rightTail)
    modifies all
    ensures Linked(done0 + Merge(ls, rs, DataOf, fn)) && tail == Last(done0 + Merge(ls, rs, DataOf, fn))
  {
    hide Merge, Linked, AllApart, Within, Last;
    var lp, left, right := lp0, left0, right0;
    ghost var done, l, r := done0, ls, rs;
    while left != null && right != null
      invariant done != [] && Last(done) == lp && left == HeadOf(l) && right == HeadOf(r)
      invariant Linked(done) && Linked(l) && Linked(r) && AllApart(done, l, r)
      invariant Within(done, all) && Within(l, all) && Within(r, all)
      invariant (l != [] ==> Last(l) == leftTail) && (r != [] ==> Last(r) == rightTail)
      invariant done + Merge(l, r, DataOf, fn) == done0 + Merge(ls, rs, DataOf, fn)
      decreases |l| + |r|
    {
      MergeTakesHead(done, l, r, fn);
      HeadMoves(done, l, all);
      HeadMoves(done, r, all);
      if fn(left.data, right.data) <= 0 {
        var x: Node<T> := left;
        left := TakeNext(lp, x, done, l, r);
        done, l, lp := done + [x], l[1..], x;
      } else {
        var x: Node<T> := right;
        ApartSwap(done, l, r);
        right := TakeNext(lp, x, done, r, l);
        ApartSwap(done + [x], r[1..], l);
        done, r, lp := done + [x], r[1..], x;
      }
    }
    tail := lp;
    MergeEnds(l, r, fn);
    assert done + [] == done;
    if left != null || right != null { FirstTwoApart(done, l, r); EndsWithin(done, l, r, all); }
    if left != null {
      EndJoins(done, l);
      TakeRest(lp, left, done, l);
      tail := leftTail;
    } else if right != null {
      EndJoins(done, r);
      TakeRest(lp, right, done, r);
      tail := rightTail;
    }
  }

  /** Ties the ends of linked nodes together into a list. */
  method CloseList<T>(newlist: Node<T>, tail: Node<T>, ghost s: seq<Node<T>>)
    requires Linked(s) && s != [] && newlist == s[0] && tail == Last(s)
    modifies newlist`prev
    ensures IsList(newlist, s)
  {
    newlist.prev := tail;
  }

  /** The merge once its first node `first`, the head of `fs`, is chosen; `os` is the other list. */
  method StartMerge<T>(first: Node<T>, other: Node<T>, leftFirst: bool, fn: (T, T) -> int,
                       ghost fs: seq<Node<T>>, ghost os: seq<Node<T>>, ghost all: set<Node<T>>)
    requires IsList(first, fs) && IsList(other, os) && fs != [] && os != [] && Disjoint(fs, os)
    requires Within(fs, all) && Within(os, all)
    modifies all
    ensures IsList(first, [first] + if leftFirst then Merge(fs[1..], os, DataOf, fn) else Merge(os, fs[1..], DataOf, fn))
  {
    var firstTail, otherTail := first.prev, other.prev;
    var rest := first.next;
    first.prev := null;
    first.next := null;
    var tail;
    if leftFirst {
      tail := MergeTails(first, rest, other, firstTail, otherTail, fn, [first], fs[1..], os, all);
      CloseList(first, tail, [first] + Merge(fs[1..], os, DataOf, fn));
    } else {
      tail := MergeTails(first, other, rest, otherTail, firstTail, fn, [first], os, fs[1..], all);
      CloseList(first, tail, [first] + Merge(os, fs[1..], DataOf, fn));
    }
  }

  /** `alpm_list_mmerge` */
  method Mmerge<T>(left: Node?<T>, right: Node?<T>, fn: (T, T) -> int, ghost ls: seq<Node<T>>, ghost rs: seq<Node<T>>)
    returns (newlist: Node?<T>)
    requires IsList(left, ls) && IsList(right, rs) && Disjoint(ls, rs)
    modifies ls, rs
    ensures IsList(newlist, Merge(ls, rs, DataOf, fn))
  {
    if left == null { return right; }
    if right == null { return left; }
    ghost var all := (set n | n in ls) + (set n | n in rs);
    if fn(left.data, right.data) <= 0 {
      StartMerge(left, right, true, fn, ls, rs, all);
      newlist := left;
    } else {
      StartMerge(right, left, false, fn, rs, ls, all);
      newlist := right;
    }
  }

  lemma Halves<T>(s: seq<Node<T>>, half: nat, fn: (T, T) -> int)
    requires Distinct(s) && half <= |s|
    ensures Disjoint(s[..half], s[half..])
    ensures Disjoint(MergeSort(s[..half], DataOf, fn), s[half..])
    ensures Disjoint(MergeSort(s[..half], DataOf, fn), MergeSort(s[half..], DataOf, fn))
    ensures forall i :: 0 <= i < half ==> MergeSort(s[..half], DataOf, fn)[i] in s
    ensures forall i :: 0 <= i < |s| - half ==> MergeSort(s[half..], DataOf, fn)[i] in s
  {
    var l, r := MergeSort(s[..half], DataOf, fn), MergeSort(s[half..], DataOf, fn);
    MergeSortMembers(s[..half], fn);
    MergeSortMembers(s[half..], fn);
    forall i, j | 0 <= i < |l| && 0 <= j < |s| - half ensures l[i] != s[half..][j] {
      var a :| 0 <= a < half && s[..half][a] == l[i];
      assert s[a] != s[half+j];
    }
    forall i, j | 0 <= i < |l| && 0 <= j < |r| ensures l[i] != r[j] {
      var a :| 0 <= a < half && s[..half][a] == l[i];
      var b :| 0 <= b < |s| - half && s[half..][b] == r[j];
      assert s[a] != s[half+b];
    }
  }

  lemma ListApart<T>(list: Node?<T>, s: seq<Node<T>>)
    requires IsList(list, s)
    ensures Distinct(s)
  {
  }

  lemma SortedAlone<T>(list: Node?<T>, s: seq<Node<T>>, fn: (T, T) -> int)
    requires IsList(list, s)
    ensures |s| <= 1 ==> IsList(list, MergeSort(s, DataOf, fn))
  {
  }

  /** `alpm_list_msort`: halves the list, sorts both halves and merges them, all by relinking. */
  method Msort<T>(list: Node?<T>, n: nat, fn: (T, T) -> int, ghost s: seq<Node<T>>) returns (sorted: Node?<T>)
    requires IsList(list, s) && n == |s|
    modifies s
    ensures IsList(sorted, MergeSort(s, DataOf, fn))
    decreases n, 1
  {
    hide IsList, Linked, Merge;
    ListApart(list, s);
    sorted := list;
    SortedAlone(list, s, fn);
    if n > 1 {
      var half := n / 2;
      Halves(s, half, fn);
      var left, right := SplitAfter(list, half, s);
      ghost var ls, rs := s[..half], s[half..];
      left, right := SortHalves(left, right, half, n - half, fn, ls, rs);
      sorted := Mmerge(left, right, fn, MergeSort(ls, DataOf, fn), MergeSort(rs, DataOf, fn));
    }
  }

  method SortHalves<T>(left0: Node?<T>, right0: Node?<T>, m: nat, n: nat, fn: (T, T) -> int,
                       ghost ls: seq<Node<T>>, ghost rs: seq<Node<T>>)
    returns (left: Node?<T>, right: Node?<T>)
    requires IsList(left0, ls) && IsList(right0, rs) && m == |ls| && n == |rs| && m > 0 && n > 0
    requires Disjoint(ls, rs) && Disjoint(MergeSort(ls, DataOf, fn), rs)
    modifies ls, rs
    ensures IsList(left, MergeSort(ls, DataOf, fn)) && IsList(right, MergeSort(rs, DataOf, fn))
    decreases m + n, 0
  {
    left := Msort(left0, m, fn, ls);
    MergeSortMembers(ls, fn);
    right := Msort(right0, n, fn, rs);
  }

  /** Cuts a list after its first `half` nodes into two well-formed lists. */
  method SplitAfter<T>(list: Node?<T>, half: nat, ghost s: seq<Node<T>>) returns (left: Node?<T>, right: Node?<T>)
    requires IsList(list, s) && 0 < half < |s|
    modifies s
    ensures IsList(left, s[..half]) && IsList(right, s[half..])
  {
    var i := half - 1;
    left := list;
    var lastleft := list;
    while i > 0
      invariant 0 <= i < half && lastleft == s[half - 1 - i]
    {
      lastleft := lastleft.next;
      i := i - 1;
    }
    right := lastleft.next;
    lastleft.next := null;
    right.prev := left.prev;
    left.prev := lastleft;
  }

  lemma MergeSortMembers<T>(s: seq<Node<T>>, fn: (T, T) -> int)
    ensures forall i :: 0 <= i < |s| ==> MergeSort(s, DataOf, fn)[i] in s
  {
    MergeSortPermutes(s, DataOf, fn);
    var m := MergeSort(s, DataOf, fn);
    forall i | 0 <= i < |s| ensures m[i] in s {
      assert m[i] in multiset(m);
    }
  }

  // ---- copy, count and difference ----

  lemma {:induction false} ValuesSlice<T>(s: seq<Node<T>>, k: nat)
    requires k <= |s|
    ensures Values(s[..k]) == Values(s)[..k] && Values(s[k..]) == Values(s)[k..]
  {
  }

  lemma ValuesAppend<T>(s: seq<Node<T>>, n: Node<T>)
    ensures Values(s + [n]) == Values(s) + [n.data]
  {
  }

  lemma {:induction false} ValuesMerge<T>(l: seq<Node<T>>, r: seq<Node<T>>, fn: (T, T) -> int)
    ensures Values(Merge(l, r, DataOf, fn)) == Merge(Values(l), Values(r), Identity, fn)
  {
    if l != [] && r != [] {
      if fn(l[0].data, r[0].data) <= 0 {
        ValuesMerge(l[1..], r, fn);
        ValuesSlice(l, 1);
      } else {
        ValuesMerge(l, r[1..], fn);
        ValuesSlice(r, 1);
      }
    }
  }

  /** Sorting nodes by their data is sorting the data. */
  lemma {:induction false} ValuesMergeSort<T>(s: seq<Node<T>>, fn: (T, T) -> int)
    ensures Values(MergeSort(s, DataOf, fn)) == MergeSort(Values(s), Identity, fn)
    decreases |s|
  {
    if |s| > 1 {
      var half := |s| / 2;
      ValuesMergeSort(s[..half], fn);
      ValuesMergeSort(s[half..], fn);
      ValuesSlice(s, half);
      ValuesMerge(MergeSort(s[..half], DataOf, fn), MergeSort(s[half..], DataOf, fn), fn);
    }
  }

  function NodeAt<T>(s: seq<Node<T>>, k: nat): Node?<T> { if k < |s| then s[k] else null }

  lemma Following<T>(s: seq<Node<T>>, k: nat)
    requires Linked(s) && k < |s|
    ensures s[k].next == NodeAt(s, k + 1)
  {
  }

  /** No node of `s` belongs to `made`. */
  ghost predicate Outside<T>(s: seq<Node<T>>, made: set<Node<T>>) {
    forall i :: 0 <= i < |s| ==> s[i] !in made
  }

  /** `alpm_list_append` to a list of nodes from `made`, which leaves the lists `ls`, `rs` and `us` alone. */
  method AppendMade<T>(list: Node?<T>, data: T, ghost t: seq<Node<T>>, ghost made: set<Node<T>>,
                       ghost ls: seq<Node<T>>, ghost rs: seq<Node<T>>, ghost other: Node?<T>, ghost us: seq<Node<T>>)
    returns (head: Node<T>, ghost u: seq<Node<T>>, ghost made': set<Node<T>>)
    requires IsList(list, t) && Within(t, made)
    requires Linked(ls) && Outside(ls, made) && Linked(rs) && Outside(rs, made) && IsList(other, us) && Outside(us, made)
    modifies made
    ensures IsList(head, u) && Within(u, made') && Values(u) == Values(t) + [data]
    ensures Linked(ls) && Outside(ls, made') && Linked(rs) && Outside(rs, made') && IsList(other, us) && Outside(us, made')
    ensures made <= made' && fresh(made' - made)
  {
    var ptr;
    head, ptr := Append(list, data, t);
    u, made' := t + [ptr], made + {ptr};
    ValuesAppend(t, ptr);
  }

  lemma SliceSnoc<T>(pre: seq<T>, v: seq<T>, a: nat, b: nat)
    requires a <= b < |v|
    ensures (pre + v[a..b]) + [v[b]] == pre + v[a..b+1]
  {
  }

  /** Appends the data from `l0`, the node at `a0`, on. */
  method AppendAll<T>(list: Node?<T>, l0: Node?<T>, ghost t0: seq<Node<T>>, ghost made0: set<Node<T>>,
                      ghost ls: seq<Node<T>>, ghost a0: nat, ghost rs: seq<Node<T>>, ghost other: Node?<T>, ghost us: seq<Node<T>>)
    returns (newlist: Node?<T>, ghost t: seq<Node<T>>, ghost made: set<Node<T>>)
    requires IsList(list, t0) && Within(t0, made0)
    requires a0 <= |ls| && Linked(ls) && l0 == NodeAt(ls, a0) && Outside(ls, made0)
    requires Linked(rs) && Outside(rs, made0) && IsList(other, us) && Outside(us, made0)
    modifies made0
    ensures IsList(newlist, t) && Within(t, made) && Values(t) == Values(t0) + Values(ls)[a0..]
    ensures Linked(rs) && Outside(rs, made) && IsList(other, us) && Outside(us, made)
    ensures made0 <= made && fresh(made - made0)
  {
    hide Linked, IsList, Within, Outside, Values;
    newlist, t, made := list, t0, made0;
    var l := l0;
    ghost var a := a0;
    assert Values(t0) + Values(ls)[a0..a0] == Values(t0);
    while l != null
      invariant a0 <= a <= |ls| && l == NodeAt(ls, a) && Linked(ls) && Outside(ls, made)
      invariant Linked(rs) && Outside(rs, made) && IsList(other, us) && Outside(us, made)
      invariant IsList(newlist, t) && Within(t, made) && Values(t) == Values(t0) + Values(ls)[a0..a]
      invariant made0 <= made && fresh(made - made0)
      decreases |ls| - a
    {
      newlist, t, made := AppendMade(newlist, l.data, t, made, ls, rs, other, us);
      SliceSnoc(Values(t0), Values(ls), a0, a);
      Following(ls, a);
      l := l.next;
      a := a + 1;
    }
  }

  /** A fresh list with the same data. */
  method Copy<T>(list: Node?<T>, ghost s: seq<Node<T>>) returns (newlist: Node?<T>, ghost t: seq<Node<T>>, ghost made: set<Node<T>>)
    requires IsList(list, s)
    ensures IsList(newlist, t) && Within(t, made) && Values(t) == Values(s) && fresh(made)
  {
    newlist, t, made := AppendAll(null, list, [], {}, s, 0, [], null, []);
  }

  method Count<T>(list: Node?<T>, ghost s: seq<Node<T>>) returns (n: nat)
    requires IsList(list, s)
    ensures n == |s|
  {
    n := 0;
    var lp := list;
    while lp != null
      invariant n <= |s| && lp == NodeAt(s, n)
      decreases |s| - n
    {
      lp := lp.next;
      n := n + 1;
    }
  }

  function Asked<T>(wanted: bool, v: seq<T>): seq<T> { if wanted then v else [] }

  /** One output of `alpm_list_diff_sorted`, if it is asked for, gets the data of one more node. */
  method AddAsked<T>(wanted: bool, list: Node?<T>, data: T, ghost t: seq<Node<T>>, ghost made: set<Node<T>>,
                     ghost ls: seq<Node<T>>, ghost rs: seq<Node<T>>, ghost other: Node?<T>, ghost us: seq<Node<T>>, ghost taken: set<Node<T>>)
    returns (head: Node?<T>, ghost u: seq<Node<T>>, ghost made': set<Node<T>>)
    requires IsList(list, t) && Within(t, made) && IsList(other, us) && Within(us, taken) && made !! taken
    requires Linked(ls) && Outside(ls, made) && Linked(rs) && Outside(rs, made)
    modifies made
    ensures IsList(head, u) && Within(u, made') && Values(u) == Values(t) + Asked(wanted, [data])
    ensures Linked(ls) && Outside(ls, made') && Linked(rs) && Outside(rs, made') && IsList(other, us) && made' !! taken
    ensures made <= made' && fresh(made' - made)
  {
    hide Linked, IsList, Within, Outside, Values;
    head, u, made' := list, t, made;
    if wanted {
      WithinOutside(us, taken, made);
      head, u, made' := AppendMade(list, data, t, made, ls, rs, other, us);
    }
  }

  lemma WithinOutside<T>(s: seq<Node<T>>, all: set<Node<T>>, made: set<Node<T>>)
    requires Within(s, all) && all !! made
    ensures Outside(s, made)
  {
  }

  /** What is left of one side goes to its output, if that is asked for. */
  method AddRest<T>(wanted: bool, list: Node?<T>, l: Node?<T>, ghost t: seq<Node<T>>, ghost made: set<Node<T>>,
                    ghost ls: seq<Node<T>>, ghost a: nat, ghost rs: seq<Node<T>>, ghost other: Node?<T>, ghost us: seq<Node<T>>,
                    ghost taken: set<Node<T>>)
    returns (head: Node?<T>, ghost u: seq<Node<T>>, ghost made': set<Node<T>>)
    requires IsList(list, t) && Within(t, made) && IsList(other, us) && Within(us, taken) && made !! taken
    requires a <= |ls| && l == NodeAt(ls, a) && Linked(ls) && Outside(ls, made) && Linked(rs) && Outside(rs, made)
    modifies made
    ensures IsList(head, u) && Within(u, made') && Values(u) == Values(t) + Asked(wanted, Values(ls)[a..])
    ensures Linked(rs) && IsList(other, us) && made' !! taken
  {
    hide Linked, IsList, Within, Outside, Values;
    head, u, made' := list, t, made;
    if wanted {
      WithinOutside(us, taken, made);
      head, u, made' := AppendAll(list, l, t, made, ls, a, rs, other, us);
    }
  }

  /** `alpm_list_diff_sorted`: each of the two outputs is filled only if it is asked for. */
  method DiffSorted<T>(left: Node?<T>, right: Node?<T>, fn: (T, T) -> int, wantLeft: bool, wantRight: bool,
                       ghost ls: seq<Node<T>>, ghost rs: seq<Node<T>>)
    returns (onlyleft: Node?<T>, onlyright: Node?<T>, ghost os: seq<Node<T>>, ghost us: seq<Node<T>>)
    requires IsList(left, ls) && IsList(right, rs)
    ensures IsList(onlyleft, os) && Values(os) == Asked(wantLeft, OnlyLeft(Values(ls), Values(rs), fn))
    ensures IsList(onlyright, us) && Values(us) == Asked(wantRight, OnlyLeft(Values(rs), Values(ls), Swapped(fn)))
  {
    hide Linked, IsList, Within, Outside, Values, OnlyLeft;
    onlyleft, onlyright, os, us := null, null, [], [];
    ghost var made, taken := {}, {};
    var l, r := left, right;
    ghost var a, b := 0, 0;
    ghost var vl, vr := Values(ls), Values(rs);
    DiffStart(left, right, ls, rs);
    while l != null && r != null
      invariant a <= |ls| && l == NodeAt(ls, a) && b <= |rs| && r == NodeAt(rs, b)
      invariant Linked(ls) && Linked(rs) && Outside(ls, made) && Outside(rs, made) && Outside(ls, taken) && Outside(rs, taken)
      invariant IsList(onlyleft, os) && Within(os, made) && IsList(onlyright, us) && Within(us, taken)
      invariant fresh(made) && fresh(taken) && made !! taken
      invariant Values(os) + Asked(wantLeft, OnlyLeft(vl[a..], vr[b..], fn)) == Asked(wantLeft, OnlyLeft(vl, vr, fn))
      invariant Values(us) + Asked(wantRight, OnlyLeft(vr[b..], vl[a..], Swapped(fn))) == Asked(wantRight, OnlyLeft(vr, vl, Swapped(fn)))
      decreases |ls| - a + |rs| - b
    {
      var cmp := fn(l.data, r.data);
      OnlyLeftStep(Values(os), vl, a, vr, b, fn);
      OnlyLeftStep(Values(us), vr, b, vl, a, Swapped(fn));
      if cmp < 0 {
        onlyleft, os, made := AddAsked(wantLeft, onlyleft, l.data, os, made, ls, rs, onlyright, us, taken);
        Following(ls, a);
        l := l.next;
        a := a + 1;
      } else if cmp > 0 {
        onlyright, us, taken := AddAsked(wantRight, onlyright, r.data, us, taken, ls, rs, onlyleft, os, made);
        Following(rs, b);
        r := r.next;
        b := b + 1;
      } else {
        Following(ls, a);
        Following(rs, b);
        l := l.next;
        r := r.next;
        a, b := a + 1, b + 1;
      }
    }
    OnlyLeftEnds(vl, a, vr, b, fn);
    onlyleft, os, made := AddRest(wantLeft, onlyleft, l, os, made, ls, a, rs, onlyright, us, taken);
    onlyright, us, taken := AddRest(wantRight, onlyright, r, us, taken, rs, b, rs, onlyleft, os, made);
  }

  lemma DiffStart<T>(left: Node?<T>, right: Node?<T>, ls: seq<Node<T>>, rs: seq<Node<T>>)
    requires IsList(left, ls) && IsList(right, rs)
    ensures left == NodeAt(ls, 0) && right == NodeAt(rs, 0) && Linked(ls) && Linked(rs) && Outside(ls, {}) && Outside(rs, {})
    ensures IsList<T>(null, []) && Within<T>([], {}) && Values<T>([]) == []
    ensures Values(ls)[0..] == Values(ls) && Values(rs)[0..] == Values(rs)
  {
  }

  lemma OnlyLeftEnds<T>(l: seq<T>, a: nat, r: seq<T>, b: nat, fn: (T, T) -> int)
    requires a <= |l| && b <= |r| && (a == |l| || b == |r|)
    ensures OnlyLeft(l[a..], r[b..], fn) == l[a..] && OnlyLeft(r[b..], l[a..], Swapped(fn)) == r[b..]
  {
  }

  lemma OnlyLeftStep<T>(pre: seq<T>, l: seq<T>, a: nat, r: seq<T>, b: nat, fn: (T, T) -> int)
    requires a < |l| && b < |r|
    ensures pre + OnlyLeft(l[a..], r[b..], fn) ==
            if fn(l[a], r[b]) < 0 then (pre + [l[a]]) + OnlyLeft(l[a+1..], r[b..], fn)
            else if fn(l[a], r[b]) > 0 then pre + OnlyLeft(l[a..], r[b+1..], fn)
            else pre + OnlyLeft(l[a+1..], r[b+1..], fn)
  {
    assert l[a..][1..] == l[a+1..] && r[b..][1..] == r[b+1..];
  }

  /** A sorted copy, as `alpm_list_diff` makes of each side. */
  method SortedCopy<T>(list: Node?<T>, fn: (T, T) -> int, ghost s: seq<Node<T>>)
    returns (sorted: Node?<T>, ghost t: seq<Node<T>>)
    requires IsList(list, s)
    ensures IsList(sorted, t) && Values(t) == MergeSort(Values(s), Identity, fn)
  {
    ghost var c;
    ghost var made;
    sorted, c, made := Copy(list, s);
    var n := Count(sorted, c);
    sorted := Msort(sorted, n, fn, c);
    t := MergeSort(c, DataOf, fn);
    ValuesMergeSort(c, fn);
  }

  /** `alpm_list_diff`: sorts copies of both lists and walks them side by side. */
  method Diff<T>(lhs: Node?<T>, rhs: Node?<T>, fn: (T, T) -> int, ghost ls: seq<Node<T>>, ghost rs: seq<Node<T>>)
    returns (ret: Node?<T>, ghost ds: seq<Node<T>>)
    requires IsList(lhs, ls) && IsList(rhs, rs)
    ensures IsList(ret, ds) && Values(ds) == Difference(Values(ls), Values(rs), fn)
  {
    var left, right;
    ghost var t, u;
    left, t := SortedCopy(lhs, fn, ls);
    right, u := SortedCopy(rhs, fn, rs);
    ghost var none;
    var unasked;
    ret, unasked, ds, none := DiffSorted(left, right, fn, true, false, t, u);
  }
}
