/** Merging, sorting and subtracting sequences, as plain functions: what the in-place list
    routines compute, and what is known about the results. Elements are compared by a key. */
module ListSpec {
  function Merge<E, T>(l: seq<E>, r: seq<E>, key: E -> T, fn: (T, T) -> int): (m: seq<E>)
    ensures |m| == |l| + |r|
  {
    if l == [] then r
    else if r == [] then l
    else if fn(key(l[0]), key(r[0])) <= 0 then [l[0]] + Merge(l[1..], r, key, fn)
    else [r[0]] + Merge(l, r[1..], key, fn)
  }

  function MergeSort<E, T>(s: seq<E>, key: E -> T, fn: (T, T) -> int): (m: seq<E>)
    ensures |m| == |s|
    decreases |s|
  {
    if |s| <= 1 then s
    else
      var half := |s| / 2;
      Merge(MergeSort(s[..half], key, fn), MergeSort(s[half..], key, fn), key, fn)
  }

  ghost predicate TotalPreorder<T(!new)>(fn: (T, T) -> int) {
    (forall x, y :: fn(x, y) <= 0 || fn(y, x) <= 0) &&
    (forall x, y, z :: fn(x, y) <= 0 && fn(y, z) <= 0 ==> fn(x, z) <= 0)
  }

  ghost predicate Sorted<E, T>(s: seq<E>, key: E -> T, fn: (T, T) -> int) {
    forall i, j :: 0 <= i < j < |s| ==> fn(key(s[i]), key(s[j])) <= 0
  }

  ghost predicate Every<E>(s: seq<E>, p: E -> bool) {
    forall i :: 0 <= i < |s| ==> p(s[i])
  }

  lemma {:induction false} MergeEvery<E, T>(l: seq<E>, r: seq<E>, key: E -> T, fn: (T, T) -> int, p: E -> bool)
    requires Every(l, p) && Every(r, p)
    ensures Every(Merge(l, r, key, fn), p)
  {
    if l != [] && r != [] {
      if fn(key(l[0]), key(r[0])) <= 0 {
        MergeEvery(l[1..], r, key, fn, p);
      } else {
        MergeEvery(l, r[1..], key, fn, p);
      }
    }
  }

  lemma {:induction false} MergeSortEvery<E, T>(s: seq<E>, key: E -> T, fn: (T, T) -> int, p: E -> bool)
    requires Every(s, p)
    ensures Every(MergeSort(s, key, fn), p)
    decreases |s|
  {
    if |s| > 1 {
      var half := |s| / 2;
      MergeSortEvery(s[..half], key, fn, p);
      MergeSortEvery(s[half..], key, fn, p);
      MergeEvery(MergeSort(s[..half], key, fn), MergeSort(s[half..], key, fn), key, fn, p);
    }
  }

  // ---- permutation ----

  lemma ConsMultiset<E>(s: seq<E>)
    requires s != []
    ensures multiset(s) == multiset{s[0]} + multiset(s[1..])
  {
    assert s == [s[0]] + s[1..];
  }

  lemma {:induction false} MergePermutes<E, T>(l: seq<E>, r: seq<E>, key: E -> T, fn: (T, T) -> int)
    ensures multiset(Merge(l, r, key, fn)) == multiset(l) + multiset(r)
  {
    if l != [] && r != [] {
      if fn(key(l[0]), key(r[0])) <= 0 {
        MergePermutes(l[1..], r, key, fn);
        ConsMultiset(l);
        ConsMultiset(Merge(l, r, key, fn));
      } else {
        MergePermutes(l, r[1..], key, fn);
        ConsMultiset(r);
        ConsMultiset(Merge(l, r, key, fn));
      }
    }
  }

  /** Sorting keeps the elements, each as often as before. */
  lemma {:induction false} MergeSortPermutes<E, T>(s: seq<E>, key: E -> T, fn: (T, T) -> int)
    ensures multiset(MergeSort(s, key, fn)) == multiset(s)
    decreases |s|
  {
    if |s| <= 1 {
      assert MergeSort(s, key, fn) == s;
    } else {
      hide Merge, MergeSort;
      var half := |s| / 2;
      MergeSortPermutes(s[..half], key, fn);
      MergeSortPermutes(s[half..], key, fn);
      MergePermutes(MergeSort(s[..half], key, fn), MergeSort(s[half..], key, fn), key, fn);
      MergeSortSplits(s, key, fn);
      HalvesMultiset(s, half);
    }
  }

  lemma MergeSortSplits<E, T>(s: seq<E>, key: E -> T, fn: (T, T) -> int)
    requires |s| > 1
    ensures MergeSort(s, key, fn) == Merge(MergeSort(s[..|s|/2], key, fn), MergeSort(s[|s|/2..], key, fn), key, fn)
  {
    hide Merge;
  }

  lemma HalvesMultiset<E>(s: seq<E>, half: nat)
    requires half <= |s|
    ensures multiset(s) == multiset(s[..half]) + multiset(s[half..])
  {
    assert s == s[..half] + s[half..];
  }

  lemma MembersOfPermutation<E>(s: seq<E>, t: seq<E>)
    requires multiset(s) == multiset(t)
    ensures forall x :: x in s <==> x in t
  {
    assert forall x :: x in s <==> x in multiset(s);
    assert forall x :: x in t <==> x in multiset(t);
  }

  // ---- order ----

  lemma HeadFirst<E, T>(x: E, s: seq<E>, key: E -> T, fn: (T, T) -> int)
    requires Every(s, y => fn(key(x), key(y)) <= 0) && Sorted(s, key, fn)
    ensures Sorted([x] + s, key, fn)
  {
    var p := y => fn(key(x), key(y)) <= 0;
    forall i, j | 0 <= i < j < |s| + 1 ensures fn(key(([x] + s)[i]), key(([x] + s)[j])) <= 0 {
      assert p(s[j-1]);
    }
  }

  lemma BelowSorted<E, T(!new)>(x: E, s: seq<E>, key: E -> T, fn: (T, T) -> int)
    requires TotalPreorder(fn) && Sorted(s, key, fn) && (s != [] ==> fn(key(x), key(s[0])) <= 0)
    ensures Every(s, y => fn(key(x), key(y)) <= 0)
  {
    forall i | 0 <= i < |s| ensures fn(key(x), key(s[i])) <= 0 {
      if i > 0 { assert fn(key(s[0]), key(s[i])) <= 0; }
    }
  }

  lemma {:induction false} MergeSorted<E, T(!new)>(l: seq<E>, r: seq<E>, key: E -> T, fn: (T, T) -> int)
    requires TotalPreorder(fn) && Sorted(l, key, fn) && Sorted(r, key, fn)
    ensures Sorted(Merge(l, r, key, fn), key, fn)
  {
    if l != [] && r != [] {
      if fn(key(l[0]), key(r[0])) <= 0 {
        MergeSorted(l[1..], r, key, fn);
        BelowSorted(l[0], l[1..], key, fn);
        BelowSorted(l[0], r, key, fn);
        MergeEvery(l[1..], r, key, fn, y => fn(key(l[0]), key(y)) <= 0);
        HeadFirst(l[0], Merge(l[1..], r, key, fn), key, fn);
      } else {
        MergeSorted(l, r[1..], key, fn);
        BelowSorted(r[0], l, key, fn);
        BelowSorted(r[0], r[1..], key, fn);
        MergeEvery(l, r[1..], key, fn, y => fn(key(r[0]), key(y)) <= 0);
        HeadFirst(r[0], Merge(l, r[1..], key, fn), key, fn);
      }
    }
  }

  lemma {:induction false} MergeSortSorts<E, T(!new)>(s: seq<E>, key: E -> T, fn: (T, T) -> int)
    requires TotalPreorder(fn)
    ensures Sorted(MergeSort(s, key, fn), key, fn)
    decreases |s|
  {
    if |s| > 1 {
      var half := |s| / 2;
      MergeSortSorts(s[..half], key, fn);
      MergeSortSorts(s[half..], key, fn);
      MergeSorted(MergeSort(s[..half], key, fn), MergeSort(s[half..], key, fn), key, fn);
    }
  }

  // ---- stability ----

  predicate Tie<T>(x: T, y: T, fn: (T, T) -> int) { fn(x, y) <= 0 && fn(y, x) <= 0 }

  /** The elements of `s` that tie with `x`, in order. */
  function Ties<E, T>(s: seq<E>, x: T, key: E -> T, fn: (T, T) -> int): seq<E> {
    if s == [] then []
    else (if Tie(x, key(s[0]), fn) then [s[0]] else []) + Ties(s[1..], x, key, fn)
  }

  lemma {:induction false} TiesConcat<E, T>(s: seq<E>, t: seq<E>, x: T, key: E -> T, fn: (T, T) -> int)
    ensures Ties(s + t, x, key, fn) == Ties(s, x, key, fn) + Ties(t, x, key, fn)
  {
    if s == [] {
      assert s + t == t;
    } else {
      TiesConcat(s[1..], t, x, key, fn);
      assert (s + t)[1..] == s[1..] + t;
      var h := if Tie(x, key(s[0]), fn) then [s[0]] else [];
      var a, b := Ties(s[1..], x, key, fn), Ties(t, x, key, fn);
      assert h + (a + b) == (h + a) + b;
    }
  }

  /** Nothing above `y` ties with what ties with `y`. */
  lemma {:induction false} NoTies<E, T(!new)>(s: seq<E>, x: T, y: T, key: E -> T, fn: (T, T) -> int)
    requires TotalPreorder(fn) && Tie(x, y, fn)
    requires Every(s, z => fn(key(z), y) > 0)
    ensures Ties(s, x, key, fn) == []
  {
    if s != [] {
      var p := z => fn(key(z), y) > 0;
      assert p(s[0]);
      assert Every(s[1..], p);
      NoTies(s[1..], x, y, key, fn);
    }
  }

  lemma AboveSorted<E, T(!new)>(s: seq<E>, y: T, key: E -> T, fn: (T, T) -> int)
    requires TotalPreorder(fn) && Sorted(s, key, fn) && (s != [] ==> fn(key(s[0]), y) > 0)
    ensures Every(s, z => fn(key(z), y) > 0)
  {
    forall i | 0 <= i < |s| ensures fn(key(s[i]), y) > 0 {
      if i > 0 { assert fn(key(s[0]), key(s[i])) <= 0; }
    }
  }

  lemma TiesCons<E, T>(e: E, s: seq<E>, x: T, key: E -> T, fn: (T, T) -> int)
    ensures Ties([e] + s, x, key, fn) == (if Tie(x, key(e), fn) then [e] else []) + Ties(s, x, key, fn)
  {
    hide Tie;
    assert ([e] + s)[1..] == s;
  }

  lemma Associates<E>(a: seq<E>, b: seq<E>, c: seq<E>)
    ensures a + (b + c) == (a + b) + c
  {
  }

  lemma TiesTakeLeft<E, T>(l: seq<E>, r: seq<E>, m: seq<E>, x: T, key: E -> T, fn: (T, T) -> int)
    requires l != [] && Ties(m, x, key, fn) == Ties(l[1..], x, key, fn) + Ties(r, x, key, fn)
    ensures Ties([l[0]] + m, x, key, fn) == Ties(l, x, key, fn) + Ties(r, x, key, fn)
  {
    hide Ties, Tie;
    TiesCons(l[0], m, x, key, fn);
    TiesCons(l[0], l[1..], x, key, fn);
    assert l == [l[0]] + l[1..];
    Associates(if Tie(x, key(l[0]), fn) then [l[0]] else [], Ties(l[1..], x, key, fn), Ties(r, x, key, fn));
  }

  lemma TiesTakeRight<E, T>(l: seq<E>, r: seq<E>, m: seq<E>, x: T, key: E -> T, fn: (T, T) -> int)
    requires r != [] && Ties(m, x, key, fn) == Ties(l, x, key, fn) + Ties(r[1..], x, key, fn)
    requires Tie(x, key(r[0]), fn) ==> Ties(l, x, key, fn) == []
    ensures Ties([r[0]] + m, x, key, fn) == Ties(l, x, key, fn) + Ties(r, x, key, fn)
  {
    hide Ties, Tie;
    var h := if Tie(x, key(r[0]), fn) then [r[0]] else [];
    var a, b := Ties(l, x, key, fn), Ties(r[1..], x, key, fn);
    TiesCons(r[0], m, x, key, fn);
    TiesCons(r[0], r[1..], x, key, fn);
    assert r == [r[0]] + r[1..];
    assert h != [] ==> a + b == b && a + (h + b) == h + b;
    assert h == [] ==> h + (a + b) == a + b && h + b == b;
  }

  lemma TailSorted<E, T>(s: seq<E>, key: E -> T, fn: (T, T) -> int)
    requires s != [] && Sorted(s, key, fn)
    ensures Sorted(s[1..], key, fn)
  {
  }

  lemma {:induction false} MergeStable<E, T(!new)>(l: seq<E>, r: seq<E>, x: T, key: E -> T, fn: (T, T) -> int)
    requires TotalPreorder(fn) && Sorted(l, key, fn) && Sorted(r, key, fn)
    ensures Ties(Merge(l, r, key, fn), x, key, fn) == Ties(l, x, key, fn) + Ties(r, x, key, fn)
  {
    if l != [] && r != [] {
      if fn(key(l[0]), key(r[0])) <= 0 {
        TailSorted(l, key, fn);
        MergeStable(l[1..], r, x, key, fn);
        TiesTakeLeft(l, r, Merge(l[1..], r, key, fn), x, key, fn);
      } else {
        TailSorted(r, key, fn);
        MergeStable(l, r[1..], x, key, fn);
        if Tie(x, key(r[0]), fn) {
          AboveSorted(l, key(r[0]), key, fn);
          NoTies(l, x, key(r[0]), key, fn);
        }
        TiesTakeRight(l, r, Merge(l, r[1..], key, fn), x, key, fn);
      }
    }
  }

  /** Elements that tie keep their order. */
  lemma {:induction false} MergeSortStable<E, T(!new)>(s: seq<E>, x: T, key: E -> T, fn: (T, T) -> int)
    requires TotalPreorder(fn)
    ensures Ties(MergeSort(s, key, fn), x, key, fn) == Ties(s, x, key, fn)
    decreases |s|
  {
    hide Ties, Merge, TotalPreorder, Sorted;
    if |s| > 1 {
      var half := |s| / 2;
      MergeSortStable(s[..half], x, key, fn);
      MergeSortStable(s[half..], x, key, fn);
      MergeSortSorts(s[..half], key, fn);
      MergeSortSorts(s[half..], key, fn);
      MergeStable(MergeSort(s[..half], key, fn), MergeSort(s[half..], key, fn), x, key, fn);
      TiesConcat(s[..half], s[half..], x, key, fn);
      assert s == s[..half] + s[half..];
    }
  }

  // ---- subtraction ----

  /** What the merge-like walk over two sorted lists leaves of the left one. */
  function OnlyLeft<T>(l: seq<T>, r: seq<T>, fn: (T, T) -> int): seq<T> {
    if l == [] || r == [] then l
    else if fn(l[0], r[0]) < 0 then [l[0]] + OnlyLeft(l[1..], r, fn)
    else if fn(l[0], r[0]) > 0 then OnlyLeft(l, r[1..], fn)
    else OnlyLeft(l[1..], r[1..], fn)
  }

  /** The comparison seen from the right, so that what is left of the right list is `OnlyLeft` of it. */
  function Swapped<T>(fn: (T, T) -> int): (T, T) -> int { (x, y) => -fn(y, x) }

  function Identity<T>(x: T): T { x }

  function Difference<T>(lhs: seq<T>, rhs: seq<T>, fn: (T, T) -> int): seq<T> {
    OnlyLeft(MergeSort(lhs, Identity, fn), MergeSort(rhs, Identity, fn), fn)
  }

  /** A comparator whose zeros are its ties. */
  ghost predicate Comparator<T(!new)>(fn: (T, T) -> int) {
    TotalPreorder(fn) && forall x, y :: fn(x, y) == 0 <==> Tie(x, y, fn)
  }

  ghost predicate Apart<T>(s: seq<T>, fn: (T, T) -> int) {
    forall i, j :: 0 <= i < j < |s| ==> fn(s[i], s[j]) != 0
  }

  /** `x` compares equal to nothing in `r`. */
  ghost predicate Avoids<T>(x: T, r: seq<T>, fn: (T, T) -> int) {
    forall i :: 0 <= i < |r| ==> fn(x, r[i]) != 0
  }

  lemma {:induction false} OnlyLeftMembers<T(!new)>(l: seq<T>, r: seq<T>, fn: (T, T) -> int)
    requires Comparator(fn) && Sorted(l, Identity, fn) && Sorted(r, Identity, fn) && Apart(l, fn)
    ensures forall x :: x in OnlyLeft(l, r, fn) <==> x in l && Avoids(x, r, fn)
  {
    if l != [] && r != [] {
      var c := fn(l[0], r[0]);
      SplitMember(l);
      if c < 0 {
        OnlyLeftMembers(l[1..], r, fn);
        assert !Tie(l[0], r[0], fn);
        HeadAvoids(l[0], r, fn);
      } else if c > 0 {
        OnlyLeftMembers(l, r[1..], fn);
        forall x | x in l ensures Avoids(x, r, fn) <==> Avoids(x, r[1..], fn) {
          LaterApart(l, x, r[0], fn);
          AvoidsSplit(x, r, fn);
        }
      } else {
        OnlyLeftMembers(l[1..], r[1..], fn);
        forall x | x in l[1..] ensures Avoids(x, r, fn) <==> Avoids(x, r[1..], fn) {
          TailApart(l, x, r[0], fn);
          AvoidsSplit(x, r, fn);
        }
      }
    }
  }

  lemma SplitMember<T>(l: seq<T>)
    requires l != []
    ensures forall x :: x in l <==> x == l[0] || x in l[1..]
  {
    assert l == [l[0]] + l[1..];
  }

  lemma HeadAvoids<T(!new)>(x: T, r: seq<T>, fn: (T, T) -> int)
    requires Comparator(fn) && Sorted(r, Identity, fn) && r != [] && fn(x, r[0]) < 0
    ensures Avoids(x, r, fn)
  {
    forall i | 0 <= i < |r| ensures fn(x, r[i]) != 0 {
      var y, z := r[0], r[i];
      assert fn(x, y) != 0 && !Tie(x, y, fn);
      if i > 0 { assert fn(Identity(y), Identity(z)) <= 0; }
      assert Tie(x, z, fn) ==> fn(y, x) <= 0;
    }
  }

  lemma AvoidsSplit<T>(x: T, r: seq<T>, fn: (T, T) -> int)
    requires r != []
    ensures Avoids(x, r, fn) <==> fn(x, r[0]) != 0 && Avoids(x, r[1..], fn)
  {
    if fn(x, r[0]) != 0 && Avoids(x, r[1..], fn) {
      forall i | 0 <= i < |r| ensures fn(x, r[i]) != 0 {
        if i > 0 { assert fn(x, r[1..][i-1]) != 0; }
      }
    }
  }

  lemma LaterApart<T(!new)>(l: seq<T>, x: T, y: T, fn: (T, T) -> int)
    requires Comparator(fn) && Sorted(l, Identity, fn) && x in l && fn(l[0], y) > 0
    ensures fn(x, y) != 0
  {
    var k :| 0 <= k < |l| && l[k] == x;
    if k > 0 { assert fn(Identity(l[0]), Identity(l[k])) <= 0; }
    assert fn(x, y) == 0 ==> Tie(x, y, fn);
  }

  lemma TailApart<T(!new)>(l: seq<T>, x: T, y: T, fn: (T, T) -> int)
    requires Comparator(fn) && Apart(l, fn) && l != [] && x in l[1..] && fn(l[0], y) == 0
    ensures fn(x, y) != 0 && x != l[0]
  {
    var k :| 0 <= k < |l[1..]| && l[1..][k] == x;
    assert fn(l[0], l[k+1]) != 0;
    assert !Tie(l[0], x, fn);
    assert Tie(l[0], y, fn);
    assert fn(x, y) == 0 ==> Tie(x, y, fn);
    assert Tie(l[0], l[0], fn);
  }

  /** `alpm_list_diff` keeps exactly the left elements that compare equal to nothing on the right. */
  lemma DifferenceMembers<T(!new)>(lhs: seq<T>, rhs: seq<T>, fn: (T, T) -> int)
    requires Comparator(fn) && Apart(lhs, fn)
    ensures forall x :: x in Difference(lhs, rhs, fn) <==> x in lhs && Avoids(x, rhs, fn)
  {
    var l, r := MergeSort(lhs, Identity, fn), MergeSort(rhs, Identity, fn);
    MergeSortSorts(lhs, Identity, fn);
    MergeSortSorts(rhs, Identity, fn);
    MergeSortPermutes(lhs, Identity, fn);
    MergeSortPermutes(rhs, Identity, fn);
    MembersOfPermutation(l, lhs);
    MembersOfPermutation(r, rhs);
    MergeSortApart(lhs, fn);
    OnlyLeftMembers(l, r, fn);
    forall x | x in lhs ensures Avoids(x, r, fn) <==> Avoids(x, rhs, fn) {
      AvoidsMember(x, r, fn);
      AvoidsMember(x, rhs, fn);
    }
  }

  lemma AvoidsMember<T>(x: T, r: seq<T>, fn: (T, T) -> int)
    ensures Avoids(x, r, fn) <==> forall y :: y in r ==> fn(x, y) != 0
  {
  }

  lemma {:induction false} MergeApart<T(!new)>(l: seq<T>, r: seq<T>, fn: (T, T) -> int)
    requires Comparator(fn) && Apart(l, fn) && Apart(r, fn)
    requires forall i, j :: 0 <= i < |l| && 0 <= j < |r| ==> fn(l[i], r[j]) != 0
    ensures Apart(Merge(l, r, Identity, fn), fn)
  {
    if l != [] && r != [] {
      if fn(l[0], r[0]) <= 0 {
        MergeApart(l[1..], r, fn);
        MergeEvery(l[1..], r, Identity, fn, y => fn(l[0], y) != 0);
        ApartCons(l[0], Merge(l[1..], r, Identity, fn), fn);
      } else {
        MergeApart(l, r[1..], fn);
        forall i | 0 <= i < |l| ensures fn(r[0], l[i]) != 0 {
          assert fn(l[i], r[0]) != 0;
          assert !Tie(l[i], r[0], fn);
        }
        MergeEvery(l, r[1..], Identity, fn, y => fn(r[0], y) != 0);
        ApartCons(r[0], Merge(l, r[1..], Identity, fn), fn);
      }
    }
  }

  lemma ApartCons<T>(x: T, s: seq<T>, fn: (T, T) -> int)
    requires Apart(s, fn) && Every(s, y => fn(x, y) != 0)
    ensures Apart([x] + s, fn)
  {
    var p := y => fn(x, y) != 0;
    forall i, j | 0 <= i < j < |s| + 1 ensures fn(([x] + s)[i], ([x] + s)[j]) != 0 {
      assert p(s[j-1]);
    }
  }

  lemma {:induction false} MergeSortApart<T(!new)>(s: seq<T>, fn: (T, T) -> int)
    requires Comparator(fn) && Apart(s, fn)
    ensures Apart(MergeSort(s, Identity, fn), fn)
    decreases |s|
  {
    if |s| > 1 {
      var half := |s| / 2;
      var a, b := s[..half], s[half..];
      var l, r := MergeSort(a, Identity, fn), MergeSort(b, Identity, fn);
      MergeSortApart(a, fn);
      MergeSortApart(b, fn);
      forall j | 0 <= j < |r| ensures Every(l, x => fn(x, r[j]) != 0) {
        forall i | 0 <= i < |a| ensures fn(a[i], r[j]) != 0 {
          forall k | 0 <= k < |b| ensures fn(a[i], b[k]) != 0 { assert fn(s[i], s[half+k]) != 0; }
          var p := y => fn(a[i], y) != 0;
          MergeSortEvery(b, Identity, fn, p);
          assert p(r[j]);
        }
        MergeSortEvery(a, Identity, fn, x => fn(x, r[j]) != 0);
      }
      forall i, j | 0 <= i < |l| && 0 <= j < |r| ensures fn(l[i], r[j]) != 0 {
        var q := x => fn(x, r[j]) != 0;
        assert Every(l, q) && q(l[i]);
      }
      MergeApart(l, r, fn);
    }
  }

  lemma {:induction false} OnlyLeftEvery<T>(l: seq<T>, r: seq<T>, fn: (T, T) -> int, p: T -> bool)
    requires Every(l, p)
    ensures Every(OnlyLeft(l, r, fn), p)
  {
    if l != [] && r != [] {
      if fn(l[0], r[0]) < 0 {
        OnlyLeftEvery(l[1..], r, fn, p);
      } else if fn(l[0], r[0]) > 0 {
        OnlyLeftEvery(l, r[1..], fn, p);
      } else {
        OnlyLeftEvery(l[1..], r[1..], fn, p);
      }
    }
  }

  lemma {:induction false} OnlyLeftApart<T>(l: seq<T>, r: seq<T>, fn: (T, T) -> int)
    requires Apart(l, fn)
    ensures Apart(OnlyLeft(l, r, fn), fn)
  {
    if l != [] && r != [] {
      if fn(l[0], r[0]) < 0 {
        OnlyLeftApart(l[1..], r, fn);
        OnlyLeftEvery(l[1..], r, fn, y => fn(l[0], y) != 0);
        ApartCons(l[0], OnlyLeft(l[1..], r, fn), fn);
      } else if fn(l[0], r[0]) > 0 {
        OnlyLeftApart(l, r[1..], fn);
      } else {
        OnlyLeftApart(l[1..], r[1..], fn);
      }
    }
  }

  lemma DifferenceApart<T(!new)>(lhs: seq<T>, rhs: seq<T>, fn: (T, T) -> int)
    requires Comparator(fn) && Apart(lhs, fn)
    ensures Apart(Difference(lhs, rhs, fn), fn)
  {
    MergeSortApart(lhs, fn);
    OnlyLeftApart(MergeSort(lhs, Identity, fn), MergeSort(rhs, Identity, fn), fn);
  }
}
