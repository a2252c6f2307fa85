/** Version comparison: the splitting of `[epoch:]version[-release]`, the pointer walk of
    `rpmvercmp`, and the order it induces. */
module Version {
  import opened Common
  import opened Digits

  predicate IsAlpha(c: char) { 'a' <= c <= 'z' || 'A' <= c <= 'Z' }
  predicate IsAlnum(c: char) { IsDigit(c) || IsAlpha(c) }
  predicate IsSeparator(c: char) { !IsAlnum(c) }

  const NUL := '\0'

  predicate NulFree(s: string) { forall i :: 0 <= i < |s| ==> s[i] != NUL }

  function StripZeros(s: string): string { s[Span(s, c => c == '0')..] }

  // ---- what rpmvercmp computes ----

  /** Two segments of the same kind: numbers by digit count and then digits, words by `strcmp`. */
  function SegmentCmp(isnum: bool, x: string, y: string): int {
    if isnum then
      var x1, y1 := StripZeros(x), StripZeros(y);
      if |x1| != |y1| then (if |x1| < |y1| then -1 else 1) else StrCmp(x1, y1)
    else StrCmp(x, y)
  }

  /** The decision once one string is used up: an ended string beats only a directly following word. */
  function Showdown(a: string, b: string): int
    requires a == [] || b == []
  {
    if a == [] && b == [] then 0
    else if (a == [] && !IsAlpha(b[0])) || (a != [] && IsAlpha(a[0])) then -1
    else 1
  }

  function Kind(c: char): char -> bool {
    if IsDigit(c) then IsDigit else IsAlpha
  }

  function RpmCmp(a: string, b: string): int
    decreases |a|
  {
    if a == [] || b == [] then Showdown(a, b) else
    var m, n := Span(a, IsSeparator), Span(b, IsSeparator);
    var a1, b1 := a[m..], b[n..];
    if a1 == [] || b1 == [] then Showdown(a1, b1) else
    if m != n then (if m < n then -1 else 1) else
    var isnum := IsDigit(a1[0]);
    var i, j := Span(a1, Kind(a1[0])), Span(b1, Kind(a1[0]));
    if j == 0 then (if isnum then 1 else -1) else
    var c := SegmentCmp(isnum, a1[..i], b1[..j]);
    if c != 0 then c else RpmCmp(a1[i..], b1[j..])
  }

  // ---- the pointer walk over duplicated, NUL-terminated buffers ----

  ghost predicate Holds(buf: array<char>, s: string)
    reads buf
  {
    NulFree(s) && buf[..] == s + [NUL]
  }

  method Strdup(s: string) returns (buf: array<char>)
    requires NulFree(s)
    ensures fresh(buf) && Holds(buf, s)
  {
    buf := new char[|s| + 1](i => if 0 <= i < |s| then s[i] else NUL);
    assert buf[..] == s + [NUL];
  }

  ghost function At(s: string, i: nat): char
    requires i <= |s|
  {
    if i < |s| then s[i] else NUL
  }

  lemma WalkIsSpan(s: string, start: nat, stop: nat, p: char -> bool)
    requires start <= stop <= |s|
    requires forall k :: start <= k < stop ==> p(s[k])
    requires stop < |s| ==> !p(s[stop])
    ensures Span(s[start..], p) == stop - start
    ensures s[start..][..stop - start] == s[start..stop]
    ensures s[start..][stop - start..] == s[stop..]
  {
    SpanIs(s[start..], p, stop - start);
  }

  /** The index of the first character from `start` on that fails `p` or ends the string. */
  method Walk(buf: array<char>, start: nat, p: char -> bool, ghost s: string) returns (stop: nat)
    requires Holds(buf, s) && start <= |s|
    ensures start <= stop <= |s| && stop - start == Span(s[start..], p)
    ensures buf[stop] == At(s, stop)
    ensures s[start..][..stop - start] == s[start..stop]
    ensures s[start..][stop - start..] == s[stop..]
  {
    stop := start;
    assert forall k :: 0 <= k <= |s| ==> buf[k] == At(s, k);
    while buf[stop] != NUL && p(buf[stop])
      invariant start <= stop <= |s|
      invariant forall k :: start <= k < stop ==> p(s[k])
      decreases buf.Length - stop
    {
      stop := stop + 1;
    }
    WalkIsSpan(s, start, stop, p);
  }

  /** `strcmp` on the strings that start at `i` and `j` and run to the first NUL. */
  method StrcmpAt(x: array<char>, i: nat, y: array<char>, j: nat, ghost s: string, ghost t: string)
    returns (rc: int)
    requires NulFree(s) && i + |s| < x.Length && x[i..i+|s|] == s && x[i+|s|] == NUL
    requires NulFree(t) && j + |t| < y.Length && y[j..j+|t|] == t && y[j+|t|] == NUL
    ensures rc == StrCmp(s, t)
  {
    var k := 0;
    while x[i+k] != NUL && x[i+k] == y[j+k]
      invariant k <= |s| && k <= |t| && s[..k] == t[..k]
      invariant forall m :: 0 <= m < |s| ==> x[i+m] == s[m]
      invariant forall m :: 0 <= m < |t| ==> y[j+m] == t[m]
      decreases |s| - k
    {
      assert k < |s| && k < |t| && s[k] == t[k];
      assert s[..k+1] == s[..k] + [s[k]] && t[..k+1] == t[..k] + [t[k]];
      k := k + 1;
    }
    StrCmpSkip(s, t, k);
    assert k < |s| ==> x[i+k] == s[k];
    assert k < |t| ==> y[j+k] == t[k];
    rc := if x[i+k] == y[j+k] then 0 else if x[i+k] < y[j+k] then -1 else 1;
  }

  /** One pass of the loop from `one` and `two`, both on alphanumeric characters: the ends of the two
      segments, or the verdict when the segments already differ. Each buffer is cut short at its
      segment's end while the segments are compared, and put back unless the walk is over. */
  method CompareSegments(str1: array<char>, str2: array<char>, one: nat, two: nat, ghost a: string, ghost b: string)
    returns (ret: int, ptr1: nat, ptr2: nat)
    requires str1 != str2 && Holds(str1, a) && Holds(str2, b)
    requires one < |a| && two < |b| && IsAlnum(a[one]) && IsAlnum(b[two])
    modifies str1, str2
    ensures one < ptr1 <= |a| && two <= ptr2 <= |b|
    ensures ptr1 - one == Span(a[one..], Kind(a[one])) && ptr2 - two == Span(b[two..], Kind(a[one]))
    ensures a[one..][..ptr1-one] == a[one..ptr1] && b[two..][..ptr2-two] == b[two..ptr2]
    ensures a[one..][ptr1-one..] == a[ptr1..] && b[two..][ptr2-two..] == b[ptr2..]
    ensures ret == if ptr2 == two then (if IsDigit(a[one]) then 1 else -1)
                   else SegmentCmp(IsDigit(a[one]), a[one..ptr1], b[two..ptr2])
    ensures ret == 0 ==> Holds(str1, a) && Holds(str2, b)
  {
    assert str1[one] == str1[..][one] == a[one];
    var isnum := IsDigit(str1[one]);
    var kind := Kind(str1[one]);
    ptr1 := Walk(str1, one, kind, a);
    ptr2 := Walk(str2, two, kind, b);
    assert ptr1 != one by { assert a[one..][0] == a[one]; }
    var oldch1 := Cut(str1, ptr1, a);
    var oldch2 := Cut(str2, ptr2, b);
    CutSlice(str1, a, one, ptr1);
    CutSlice(str2, b, two, ptr2);
    if two == ptr2 {
      return (if isnum then 1 else -1), ptr1, ptr2;
    }
    ret := CompareCut(str1, str2, one, two, ptr1, ptr2, isnum, a[one..ptr1], b[two..ptr2]);
    if ret == 0 {
      Restore(str1, ptr1, oldch1, a);
      Restore(str2, ptr2, oldch2, b);
    }
  }

  ghost predicate HoldsCut(buf: array<char>, s: string, at: nat)
    reads buf
  {
    NulFree(s) && at <= |s| && buf[..] == (s + [NUL])[at := NUL]
  }

  lemma CutSlice(buf: array<char>, s: string, start: nat, at: nat)
    requires HoldsCut(buf, s, at) && start <= at
    ensures at < buf.Length && buf[at] == NUL && buf[start..at] == s[start..at] && NulFree(s[start..at])
  {
    assert buf[at] == buf[..][at] && buf[start..at] == buf[..][start..at];
  }

  method Cut(buf: array<char>, at: nat, ghost s: string) returns (oldch: char)
    requires Holds(buf, s) && at <= |s|
    modifies buf
    ensures HoldsCut(buf, s, at) && oldch == At(s, at)
  {
    assert buf[..][at] == (s + [NUL])[at];
    oldch := buf[at];
    buf[at] := NUL;
  }

  method Restore(buf: array<char>, at: nat, oldch: char, ghost s: string)
    requires HoldsCut(buf, s, at) && oldch == At(s, at)
    modifies buf
    ensures Holds(buf, s)
  {
    buf[at] := oldch;
    assert buf[..] == (s + [NUL])[at := NUL][at := oldch] == s + [NUL];
  }

  /** The comparison of the two cut-out segments. */
  method CompareCut(str1: array<char>, str2: array<char>, one: nat, two: nat, ptr1: nat, ptr2: nat, isnum: bool,
                    ghost x: string, ghost y: string) returns (ret: int)
    requires one <= ptr1 && two <= ptr2
    requires ptr1 < str1.Length && ptr2 < str2.Length && str1[ptr1] == NUL && str2[ptr2] == NUL
    requires x == str1[one..ptr1] && y == str2[two..ptr2] && NulFree(x) && NulFree(y)
    ensures ret == SegmentCmp(isnum, x, y)
  {
    hide Span, StrCmp;
    var i, j := one, two;
    ghost var x1, y1 := x, y;
    if isnum {
      i := WalkZeros(str1, one, ptr1, x);
      j := WalkZeros(str2, two, ptr2, y);
      x1, y1 := StripZeros(x), StripZeros(y);
      assert x1 == str1[i..ptr1] && y1 == str2[j..ptr2];
      if ptr1 - i > ptr2 - j { return 1; }
      if ptr2 - j > ptr1 - i { return -1; }
    }
    ret := StrcmpAt(str1, i, str2, j, x1, y1);
  }

  method WalkZeros(buf: array<char>, start: nat, end: nat, ghost x: string) returns (stop: nat)
    requires start <= end < buf.Length && buf[end] == NUL && x == buf[start..end]
    ensures start <= stop <= end && StripZeros(x) == buf[stop..end]
  {
    stop := start;
    while buf[stop] == '0'
      invariant start <= stop <= end
      invariant forall k :: start <= k < stop ==> buf[k] == '0'
      decreases end - stop
    {
      stop := stop + 1;
    }
    assert forall k :: 0 <= k < |x| ==> x[k] == buf[start+k];
    SpanIs(x, c => c == '0', stop - start);
    assert x[stop - start..] == buf[stop..end];
  }

  lemma {:induction false} RpmCmpReflexive(a: string)
    ensures RpmCmp(a, a) == 0
    decreases |a|
  {
    var a1 := a[Span(a, IsSeparator)..];
    if a != [] && a1 != [] {
      var i := Span(a1, Kind(a1[0]));
      StrCmpEqual(a1[..i], a1[..i]);
      StrCmpEqual(StripZeros(a1[..i]), StripZeros(a1[..i]));
      RpmCmpReflexive(a1[i..]);
    }
  }

  /** What one pass of the loop means for the comparison of the two remainders. */
  lemma RpmCmpStep(s: string, t: string, m: nat, n: nat)
    requires s != [] && t != [] && m == Span(s, IsSeparator) && n == Span(t, IsSeparator)
    ensures s[m..] == [] || t[n..] == [] ==> RpmCmp(s, t) == Showdown(s[m..], t[n..])
    ensures s[m..] != [] && t[n..] != [] ==>
              IsAlnum(s[m]) && IsAlnum(t[n]) &&
              RpmCmp(s, t) == if m != n then (if m < n then -1 else 1) else RpmCmpSegments(s[m..], t[n..])
  {
  }

  ghost function RpmCmpSegments(a: string, b: string): int
    requires a != [] && b != [] && IsAlnum(a[0])
  {
    var i, j := Span(a, Kind(a[0])), Span(b, Kind(a[0]));
    var c := if j == 0 then (if IsDigit(a[0]) then 1 else -1) else SegmentCmp(IsDigit(a[0]), a[..i], b[..j]);
    if c != 0 then c else RpmCmp(a[i..], b[j..])
  }

  /** One pass after the separators were skipped: either the verdict, or the two new positions. */
  method NextSegments(str1: array<char>, str2: array<char>, one: nat, two: nat, ghost a: string, ghost b: string)
    returns (ret: int, ptr1: nat, ptr2: nat)
    requires str1 != str2 && Holds(str1, a) && Holds(str2, b)
    requires one < |a| && two < |b| && IsAlnum(a[one]) && IsAlnum(b[two])
    modifies str1, str2
    ensures ret != 0 ==> ret == RpmCmpSegments(a[one..], b[two..])
    ensures ret == 0 ==> Holds(str1, a) && Holds(str2, b) && one < ptr1 <= |a| && two <= ptr2 <= |b|
    ensures ret == 0 ==> RpmCmp(a[ptr1..], b[ptr2..]) == RpmCmpSegments(a[one..], b[two..])
  {
    hide RpmCmp, SegmentCmp, Span, Holds, IsDigit, IsAlnum, Kind;
    ret, ptr1, ptr2 := CompareSegments(str1, str2, one, two, a, b);
    assert a[one..][0] == a[one];
  }

  method RpmVerCmp(a: string, b: string) returns (ret: int)
    requires NulFree(a) && NulFree(b)
    ensures ret == RpmCmp(a, b)
  {
    hide RpmCmp, RpmCmpSegments, Showdown, Span;
    if a == b {
      RpmCmpReflexive(a);
      return 0;
    }
    var str1 := Strdup(a);
    var str2 := Strdup(b);
    var one: nat, two: nat, ptr1: nat, ptr2: nat := 0, 0, 0, 0;
    assert a[0..] == a && b[0..] == b;
    while str1[one] != NUL && str2[two] != NUL
      invariant Holds(str1, a) && Holds(str2, b) && str1 != str2 && fresh(str1) && fresh(str2)
      invariant one == ptr1 <= |a| && two == ptr2 <= |b|
      invariant RpmCmp(a, b) == RpmCmp(a[one..], b[two..])
      decreases |a| - one
    {
      HeldChar(str1, a, one);
      HeldChar(str2, b, two);
      one := Walk(str1, one, IsSeparator, a);
      two := Walk(str2, two, IsSeparator, b);
      RpmCmpStep(a[ptr1..], b[ptr2..], one - ptr1, two - ptr2);
      if str1[one] == NUL || str2[two] == NUL {
        break;
      }
      if one - ptr1 != two - ptr2 {
        return if one - ptr1 < two - ptr2 then -1 else 1;
      }
      var rc;
      rc, ptr1, ptr2 := NextSegments(str1, str2, one, two, a, b);
      if rc != 0 { return rc; }
      one, two := ptr1, ptr2;
    }
    HeldChar(str1, a, one);
    HeldChar(str2, b, two);
    RpmCmpEnded(a[one..], b[two..]);
    ret := Decide(str1, str2, one, two, a, b);
  }

  lemma RpmCmpEnded(s: string, t: string)
    requires s == [] || t == []
    ensures RpmCmp(s, t) == Showdown(s, t)
  {
  }

  /** The decision at the end of the walk. */
  method Decide(str1: array<char>, str2: array<char>, one: nat, two: nat, ghost a: string, ghost b: string) returns (ret: int)
    requires Holds(str1, a) && Holds(str2, b) && one <= |a| && two <= |b| && (one == |a| || two == |b|)
    ensures ret == Showdown(a[one..], b[two..])
  {
    HeldChar(str1, a, one);
    HeldChar(str2, b, two);
    if str1[one] == NUL && str2[two] == NUL {
      return 0;
    }
    ret := if (str1[one] == NUL && !IsAlpha(str2[two])) || IsAlpha(str1[one]) then -1 else 1;
  }

  lemma HeldChar(buf: array<char>, s: string, i: nat)
    requires Holds(buf, s) && i <= |s|
    ensures i < buf.Length && buf[i] == At(s, i) && (buf[i] == NUL <==> i == |s|)
  {
    assert buf[..][i] == (s + [NUL])[i];
  }

  // ---- [epoch:]version[-release] ----

  datatype Evr = Evr(epoch: string, version: string, release: Option<string>)

  /** `strrchr`: the last index of a dash from `lo` on and before `hi`, or -1. */
  function LastDash(s: string, lo: nat, hi: nat): (i: int)
    requires hi <= |s|
    ensures i == -1 || (lo <= i < hi && s[i] == '-')
    ensures forall k :: lo <= k < hi && i < k ==> s[k] != '-'
  {
    if hi <= lo then -1 else if s[hi-1] == '-' then hi - 1 else LastDash(s, lo, hi - 1)
  }

  function EpochOf(s: string): string {
    var d := Span(s, IsDigit);
    if 0 < d < |s| && s[d] == ':' then s[..d] else "0"
  }

  /** Where the version begins. */
  function StartOf(s: string): (start: nat)
    ensures start <= |s|
  {
    var d := Span(s, IsDigit);
    if d < |s| && s[d] == ':' then d + 1 else 0
  }

  function ParseEvr(s: string): Evr {
    var dash := LastDash(s, Span(s, IsDigit), |s|);
    if dash < 0 then Evr(EpochOf(s), s[StartOf(s)..], None)
    else Evr(EpochOf(s), s[StartOf(s)..dash], Some(s[dash+1..]))
  }

  function VerCmp(a: string, b: string): int {
    var x, y := ParseEvr(a), ParseEvr(b);
    var e := RpmCmp(x.epoch, y.epoch);
    if e != 0 then e else
    var v := RpmCmp(x.version, y.version);
    if v != 0 || x.release.None? || y.release.None? then v
    else RpmCmp(x.release.value, y.release.value)
  }

  /** `alpm_pkg_vercmp` with its NULL arguments. */
  function PkgVerCmp(a: Option<string>, b: Option<string>): int {
    if a.None? && b.None? then 0
    else if a.None? then -1
    else if b.None? then 1
    else VerCmp(a.value, b.value)
  }

  method SplitEvr(evr: string) returns (ep: string, vp: string, rp: Option<string>)
    ensures Evr(ep, vp, rp) == ParseEvr(evr)
  {
    hide Span;
    var s := 0;
    while s < |evr| && IsDigit(evr[s])
      invariant s <= |evr| && forall k :: 0 <= k < s ==> IsDigit(evr[k])
    {
      s := s + 1;
    }
    SpanIs(evr, IsDigit, s);
    var se := |evr|;
    while se > s && evr[se-1] != '-'
      invariant s <= se <= |evr|
      invariant LastDash(evr, s, |evr|) == LastDash(evr, s, se)
    {
      se := se - 1;
    }
    var start := 0;
    ep := "0";
    if s < |evr| && evr[s] == ':' {
      if s > 0 { ep := evr[..s]; }
      start := s + 1;
    }
    if se > s {
      vp, rp := evr[start..se-1], Some(evr[se..]);
    } else {
      vp, rp := evr[start..], None;
    }
  }

  method AlpmPkgVerCmp(a: Option<string>, b: Option<string>) returns (ret: int)
    requires (a.Some? ==> NulFree(a.value)) && (b.Some? ==> NulFree(b.value))
    ensures ret == PkgVerCmp(a, b)
  {
    if a.None? && b.None? { return 0; }
    if a.None? { return -1; }
    if b.None? { return 1; }
    ret := VercmpStrings(a.value, b.value);
  }

  lemma PartsNulFree(s: string)
    requires NulFree(s)
    ensures var x := ParseEvr(s);
            NulFree(x.epoch) && NulFree(x.version) && (x.release.Some? ==> NulFree(x.release.value))
  {
    hide Span, LastDash;
  }

  method VercmpStrings(a: string, b: string) returns (ret: int)
    requires NulFree(a) && NulFree(b)
    ensures ret == VerCmp(a, b)
  {
    if a == b {
      VerCmpReflexive(a);
      return 0;
    }
    PartsNulFree(a);
    PartsNulFree(b);
    var epoch1, ver1, rel1 := SplitEvr(a);
    var epoch2, ver2, rel2 := SplitEvr(b);
    ret := RpmVerCmp(epoch1, epoch2);
    if ret == 0 {
      ret := RpmVerCmp(ver1, ver2);
      if ret == 0 && rel1.Some? && rel2.Some? {
        ret := RpmVerCmp(rel1.value, rel2.value);
      }
    }
  }

  lemma VerCmpReflexive(a: string)
    ensures VerCmp(a, a) == 0
  {
    var x := ParseEvr(a);
    RpmCmpReflexive(x.epoch);
    RpmCmpReflexive(x.version);
    if x.release.Some? { RpmCmpReflexive(x.release.value); }
  }
}
