/** Vocabulary shared by the models: optional values, the byte order of C strings, and copying into arrays. */
module Common {

  datatype Option<+T> = None | Some(value: T)

  function Sign(x: int): int {
    if x < 0 then -1 else if x > 0 then 1 else 0
  }

  /** `strcmp`: the sign of the first difference, a proper prefix being smaller. */
  function StrCmp(a: string, b: string): int {
    if a == [] && b == [] then 0
    else if a == [] then -1
    else if b == [] then 1
    else if a[0] < b[0] then -1
    else if a[0] > b[0] then 1
    else StrCmp(a[1..], b[1..])
  }

  lemma {:induction false} StrCmpEqual(a: string, b: string)
    ensures StrCmp(a, b) == 0 <==> a == b
  {
    if a != [] && b != [] && a[0] == b[0] {
      StrCmpEqual(a[1..], b[1..]);
      assert a == [a[0]] + a[1..] && b == [b[0]] + b[1..];
    }
  }

  lemma {:induction false} StrCmpAntisymmetric(a: string, b: string)
    ensures StrCmp(a, b) == -StrCmp(b, a)
  {
    if a != [] && b != [] && a[0] == b[0] {
      StrCmpAntisymmetric(a[1..], b[1..]);
    }
  }

  lemma {:induction false} StrCmpTransitive(a: string, b: string, c: string)
    requires StrCmp(a, b) <= 0 && StrCmp(b, c) <= 0
    ensures StrCmp(a, c) <= 0
    ensures StrCmp(a, b) < 0 || StrCmp(b, c) < 0 ==> StrCmp(a, c) < 0
  {
    if a != [] && b != [] && c != [] && a[0] == b[0] == c[0] {
      StrCmpTransitive(a[1..], b[1..], c[1..]);
    }
  }

  /** Comparing past a common prefix is comparing what follows it. */
  lemma {:induction false} StrCmpSkip(a: string, b: string, k: nat)
    requires k <= |a| && k <= |b| && a[..k] == b[..k]
    ensures StrCmp(a, b) == StrCmp(a[k..], b[k..])
  {
    if k == 0 {
      assert a[0..] == a && b[0..] == b;
    } else {
      assert a[0] == a[..k][0] == b[..k][0] == b[0];
      assert a[1..][..k-1] == a[..k][1..] && b[1..][..k-1] == b[..k][1..];
      StrCmpSkip(a[1..], b[1..], k - 1);
      assert a[1..][k-1..] == a[k..] && b[1..][k-1..] == b[k..];
    }
  }

  /** After a common prefix the smaller character is before the greater one, and the end before every character. */
  lemma FirstDifference(p: string, x: string, y: string)
    requires y != [] && (x != [] ==> x[0] < y[0])
    ensures StrCmp(p + x, p + y) == -1
  {
    StrCmpSkip(p + x, p + y, |p|);
    assert (p + x)[|p|..] == x && (p + y)[|p|..] == y;
  }

  predicate Distinct<T(==)>(s: seq<T>) {
    forall i, j :: 0 <= i < j < |s| ==> s[i] != s[j]
  }

  function Reverse<T>(s: seq<T>): (r: seq<T>)
    ensures |r| == |s|
    ensures forall i :: 0 <= i < |s| ==> r[i] == s[|s| - 1 - i]
  {
    if s == [] then [] else Reverse(s[1..]) + [s[0]]
  }

  /** No newline in `s`. */
  predicate OneLine(s: string) { forall k :: 0 <= k < |s| ==> s[k] != '\n' }

  /** `memcpy` of `src` into the array. */
  method CopyInto(dst: array<char>, at: nat, src: string)
    requires at + |src| <= dst.Length
    modifies dst
    ensures dst[..at] == old(dst[..at]) && dst[at..at+|src|] == src && dst[at+|src|..] == old(dst[at+|src|..])
  {
    forall k | 0 <= k < |src| { dst[at+k] := src[k]; }
  }

  /** The length of the longest prefix of `s` whose characters satisfy `p`. */
  function Span(s: string, p: char -> bool): (n: nat)
    ensures n <= |s|
    ensures forall i :: 0 <= i < n ==> p(s[i])
    ensures n < |s| ==> !p(s[n])
  {
    if s == [] || !p(s[0]) then 0 else 1 + Span(s[1..], p)
  }

  lemma {:induction false} SpanIs(s: string, p: char -> bool, n: nat)
    requires n <= |s| && (forall i :: 0 <= i < n ==> p(s[i])) && (n < |s| ==> !p(s[n]))
    ensures Span(s, p) == n
  {
    if n > 0 { SpanIs(s[1..], p, n - 1); }
  }

  /** `memchr`: the first `c` from `lo` on and before `hi`, or `hi`. */
  function IndexOf(s: string, c: char, lo: nat, hi: nat): (i: nat)
    requires lo <= hi <= |s|
    ensures lo <= i <= hi
    ensures forall k :: lo <= k < i ==> s[k] != c
    ensures i < hi ==> s[i] == c
    decreases hi - lo
  {
    if lo == hi || s[lo] == c then lo else IndexOf(s, c, lo + 1, hi)
  }
}
