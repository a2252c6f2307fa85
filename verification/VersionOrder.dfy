/** What kind of order version comparison is, and on which versions. */
module VersionOrder {
  import opened Common
  import opened Digits
  import opened Version

  // ---- antisymmetry, on all strings ----

  lemma {:induction false} RpmCmpAntisymmetric(a: string, b: string)
    ensures RpmCmp(a, b) == -RpmCmp(b, a)
    decreases |a|
  {
    if a == [] || b == [] { return; }
    var m, n := Span(a, IsSeparator), Span(b, IsSeparator);
    RpmCmpStep(a, b, m, n);
    RpmCmpStep(b, a, n, m);
    var a1, b1 := a[m..], b[n..];
    if a1 == [] || b1 == [] || m != n { return; }
    if IsDigit(a1[0]) == IsDigit(b1[0]) {
      var i, j := Span(a1, Kind(a1[0])), Span(b1, Kind(b1[0]));
      StrCmpAntisymmetric(a1[..i], b1[..j]);
      StrCmpAntisymmetric(StripZeros(a1[..i]), StripZeros(b1[..j]));
      RpmCmpAntisymmetric(a1[i..], b1[j..]);
    }
  }

  lemma VerCmpAntisymmetric(a: Option<string>, b: Option<string>)
    ensures PkgVerCmp(a, b) == -PkgVerCmp(b, a)
  {
    if a.Some? && b.Some? {
      var x, y := ParseEvr(a.value), ParseEvr(b.value);
      RpmCmpAntisymmetric(x.epoch, y.epoch);
      RpmCmpAntisymmetric(x.version, y.version);
      if x.release.Some? && y.release.Some? {
        RpmCmpAntisymmetric(x.release.value, y.release.value);
      }
    }
  }

  // ---- the walk as a lexicographic order on segments ----

  datatype Segment = Word(sep: nat, text: string) | Number(sep: nat, value: nat)

  function Segments(s: string): seq<Segment>
    decreases |s|
  {
    var m := Span(s, IsSeparator);
    var t := s[m..];
    if t == [] then [] else
    var i := Span(t, Kind(t[0]));
    [if IsDigit(t[0]) then Number(m, Value(t[..i])) else Word(m, t[..i])] + Segments(t[i..])
  }

  /** Fewer separators first, then words before numbers, then the text or the number itself. */
  function SegmentOrder(x: Segment, y: Segment): int {
    if x.sep != y.sep then Sign(x.sep - y.sep)
    else if x.Word? && y.Number? then -1
    else if x.Number? && y.Word? then 1
    else if x.Word? then StrCmp(x.text, y.text)
    else Sign(x.value - y.value)
  }

  /** The end ranks after a word that follows directly and before everything else. */
  function EndOrder(y: Segment): int {
    if y.Word? && y.sep == 0 then 1 else -1
  }

  function LexOrder(xs: seq<Segment>, ys: seq<Segment>): int {
    if xs == [] && ys == [] then 0
    else if xs == [] then EndOrder(ys[0])
    else if ys == [] then -EndOrder(xs[0])
    else
      var c := SegmentOrder(xs[0], ys[0]);
      if c != 0 then c else LexOrder(xs[1..], ys[1..])
  }

  /** Not ending in a separator. */
  predicate EndsClean(s: string) { s == [] || IsAlnum(s[|s|-1]) }

  lemma {:induction false} MulMonotone(a: nat, b: nat, p: nat)
    requires a < b
    ensures a * p + p <= b * p
  {
    if p > 0 {
      MulMonotone(a, b, p - 1);
      assert a * p == a * (p - 1) + a && b * p == b * (p - 1) + b;
    }
  }

  lemma {:induction false} ValueBounds(s: string)
    requires AllDigits(s)
    ensures Value(s) < Pow10(|s|)
    ensures s != [] && s[0] != '0' ==> Value(s) >= Pow10(|s| - 1)
  {
    if s != [] {
      ValueBounds(s[1..]);
      MulMonotone(Digit(s[0]), 10, Pow10(|s| - 1));
      if s[0] != '0' { MulMonotone(0, Digit(s[0]), Pow10(|s| - 1)); }
    }
  }

  lemma {:induction false} Pow10Monotone(m: nat, n: nat)
    requires m <= n
    ensures Pow10(m) <= Pow10(n)
  {
    if m < n { Pow10Monotone(m, n - 1); }
  }

  lemma {:induction false} ValueOfStripped(s: string)
    requires AllDigits(s)
    ensures AllDigits(StripZeros(s)) && Value(StripZeros(s)) == Value(s)
    ensures StripZeros(s) != [] ==> StripZeros(s)[0] != '0'
  {
    if s != [] && s[0] == '0' {
      ValueOfStripped(s[1..]);
      assert StripZeros(s) == StripZeros(s[1..]);
      assert Digit(s[0]) * Pow10(|s| - 1) == 0;
    } else {
      assert StripZeros(s) == s;
    }
  }

  lemma {:induction false} EqualLengthValues(x: string, y: string)
    requires AllDigits(x) && AllDigits(y) && |x| == |y|
    ensures StrCmp(x, y) == Sign(Value(x) - Value(y))
  {
    if x != [] {
      var p := Pow10(|x| - 1);
      ValueBounds(x[1..]);
      ValueBounds(y[1..]);
      if x[0] < y[0] {
        MulMonotone(Digit(x[0]), Digit(y[0]), p);
      } else if x[0] > y[0] {
        MulMonotone(Digit(y[0]), Digit(x[0]), p);
      } else {
        EqualLengthValues(x[1..], y[1..]);
      }
    }
  }

  /** Digit strings of any length compare as the numbers they denote. */
  lemma NumbersCompareByValue(x: string, y: string)
    requires AllDigits(x) && AllDigits(y)
    ensures SegmentCmp(true, x, y) == Sign(Value(x) - Value(y))
  {
    hide Span, StripZeros, Value, Pow10, StrCmp;
    ValueOfStripped(x);
    ValueOfStripped(y);
    var x1, y1 := StripZeros(x), StripZeros(y);
    ValueBounds(x1);
    ValueBounds(y1);
    if |x1| < |y1| {
      Pow10Monotone(|x1|, |y1| - 1);
    } else if |y1| < |x1| {
      Pow10Monotone(|y1|, |x1| - 1);
    } else {
      EqualLengthValues(x1, y1);
    }
  }

  lemma CleanRest(s: string, k: nat)
    requires EndsClean(s) && k <= |s|
    ensures EndsClean(s[k..])
  {
    if k < |s| { assert s[k..][|s|-k-1] == s[|s|-1]; }
  }

  lemma CleanReachesSegment(s: string)
    requires EndsClean(s) && s != []
    ensures Span(s, IsSeparator) < |s|
  {
  }

  lemma {:induction false} RpmIsLexicographic(a: string, b: string)
    requires EndsClean(a) && EndsClean(b)
    ensures RpmCmp(a, b) == LexOrder(Segments(a), Segments(b))
    decreases |a|
  {
    hide RpmCmp, LexOrder, Segments, SegmentOrder, FirstSegment, Span, EndsClean;
    if a != [] { CleanReachesSegment(a); }
    if b != [] { CleanReachesSegment(b); }
    if a == [] || b == [] {
      EndAgainst(a, b);
      return;
    }
    var m, n := Span(a, IsSeparator), Span(b, IsSeparator);
    var a1, b1 := a[m..], b[n..];
    var i, j := Span(a1, Kind(a1[0])), Span(b1, Kind(b1[0]));
    CleanRest(a, m + i);
    CleanRest(b, n + j);
    assert a1[i..] == a[m+i..] && b1[j..] == b[n+j..];
    LexOrderStep(a, b);
    RpmOrderStep(a, b);
    SegmentTaken(a, m);
    RpmIsLexicographic(a1[i..], b1[j..]);
  }

  lemma SegmentTaken(a: string, m: nat)
    requires m == Span(a, IsSeparator) < |a|
    ensures Span(a[m..], Kind(a[m])) > 0
  {
    assert a[m..][0] == a[m];
  }

  /** The first segments decide, or what follows them. */
  lemma RpmOrderStep(a: string, b: string)
    requires Span(a, IsSeparator) < |a| && Span(b, IsSeparator) < |b|
    ensures var m, n := Span(a, IsSeparator), Span(b, IsSeparator);
            var a1, b1 := a[m..], b[n..];
            var c := SegmentOrder(FirstSegment(a1, m), FirstSegment(b1, n));
            RpmCmp(a, b) == if c != 0 then c else RpmCmp(a1[Span(a1, Kind(a1[0]))..], b1[Span(b1, Kind(b1[0]))..])
  {
    hide RpmCmp, RpmCmpSegments, SegmentCmp, Span, Value;
    var m, n := Span(a, IsSeparator), Span(b, IsSeparator);
    RpmCmpStep(a, b, m, n);
    assert a[m..][0] == a[m] && b[n..][0] == b[n];
    SegmentsDecide(a[m..], b[n..]);
    if m == n && IsDigit(a[m]) == IsDigit(b[n]) { FirstSegments(a[m..], b[n..], m); }
  }

  lemma SegmentsDecide(a: string, b: string)
    requires a != [] && b != [] && IsAlnum(a[0]) && IsAlnum(b[0])
    ensures var i, j := Span(a, Kind(a[0])), Span(b, Kind(b[0]));
            RpmCmpSegments(a, b) ==
              if IsDigit(a[0]) != IsDigit(b[0]) then (if IsDigit(a[0]) then 1 else -1)
              else var c := SegmentCmp(IsDigit(a[0]), a[..i], b[..j]); if c != 0 then c else RpmCmp(a[i..], b[j..])
  {
    hide RpmCmp, SegmentCmp;
  }

  function FirstSegment(t: string, m: nat): Segment
    requires t != []
  {
    var i := Span(t, Kind(t[0]));
    if IsDigit(t[0]) then Number(m, Value(t[..i])) else Word(m, t[..i])
  }

  lemma LexOrderStep(a: string, b: string)
    requires Span(a, IsSeparator) < |a| && Span(b, IsSeparator) < |b|
    ensures var m, n := Span(a, IsSeparator), Span(b, IsSeparator);
            var a1, b1 := a[m..], b[n..];
            var c := SegmentOrder(FirstSegment(a1, m), FirstSegment(b1, n));
            LexOrder(Segments(a), Segments(b)) ==
            if c != 0 then c else LexOrder(Segments(a1[Span(a1, Kind(a1[0]))..]), Segments(b1[Span(b1, Kind(b1[0]))..]))
  {
    var m, n := Span(a, IsSeparator), Span(b, IsSeparator);
    SegmentsStep(a);
    SegmentsStep(b);
  }

  lemma SegmentsStep(a: string)
    requires Span(a, IsSeparator) < |a|
    ensures var m := Span(a, IsSeparator);
            var a1 := a[m..];
            Segments(a) == [FirstSegment(a1, m)] + Segments(a1[Span(a1, Kind(a1[0]))..])
  {
  }

  lemma FirstSegments(a: string, b: string, m: nat)
    requires a != [] && b != [] && IsAlnum(a[0]) && IsAlnum(b[0]) && IsDigit(a[0]) == IsDigit(b[0])
    ensures var i, j := Span(a, Kind(a[0])), Span(b, Kind(b[0]));
            SegmentOrder(FirstSegment(a, m), FirstSegment(b, m)) == SegmentCmp(IsDigit(a[0]), a[..i], b[..j])
  {
    if IsDigit(a[0]) {
      NumbersCompareByValue(a[..Span(a, Kind(a[0]))], b[..Span(b, Kind(b[0]))]);
    }
  }

  lemma EndAgainst(a: string, b: string)
    requires EndsClean(a) && EndsClean(b) && (a == [] || b == [])
    ensures RpmCmp(a, b) == LexOrder(Segments(a), Segments(b))
  {
    assert Segments([]) == [];
    var s := if a == [] then b else a;
    if s != [] {
      CleanReachesSegment(s);
      var m := Span(s, IsSeparator);
      assert m == 0 <==> IsAlnum(s[0]);
      assert s[m..][0] == s[m];
    }
  }

  lemma SegmentOrderTransitive(x: Segment, y: Segment, z: Segment)
    requires SegmentOrder(x, y) <= 0 && SegmentOrder(y, z) <= 0
    ensures SegmentOrder(x, z) <= 0
    ensures SegmentOrder(x, z) == 0 ==> x == y == z
  {
    if x.Word? && y.Word? { StrCmpEqual(x.text, y.text); }
    if y.Word? && z.Word? { StrCmpEqual(y.text, z.text); }
    if x.Word? && y.Word? && z.Word? && x.sep == y.sep == z.sep { StrCmpTransitive(x.text, y.text, z.text); }
  }

  lemma SegmentOrderZero(x: Segment, y: Segment)
    ensures SegmentOrder(x, y) == 0 <==> x == y
  {
    if x.Word? && y.Word? { StrCmpEqual(x.text, y.text); }
  }

  lemma {:induction false} LexOrderTransitive(xs: seq<Segment>, ys: seq<Segment>, zs: seq<Segment>)
    requires LexOrder(xs, ys) <= 0 && LexOrder(ys, zs) <= 0
    ensures LexOrder(xs, zs) <= 0
    ensures LexOrder(xs, zs) == 0 ==> LexOrder(xs, ys) == 0 && LexOrder(ys, zs) == 0
  {
    if xs != [] && ys != [] { SegmentOrderZero(xs[0], ys[0]); }
    if ys != [] && zs != [] { SegmentOrderZero(ys[0], zs[0]); }
    if xs != [] && ys != [] && zs != [] {
      SegmentOrderTransitive(xs[0], ys[0], zs[0]);
      if xs[0] == ys[0] == zs[0] {
        LexOrderTransitive(xs[1..], ys[1..], zs[1..]);
      }
    }
  }

  lemma RpmCmpTransitive(a: string, b: string, c: string)
    requires EndsClean(a) && EndsClean(b) && EndsClean(c)
    requires RpmCmp(a, b) <= 0 && RpmCmp(b, c) <= 0
    ensures RpmCmp(a, c) <= 0
    ensures RpmCmp(a, c) == 0 ==> RpmCmp(a, b) == 0 && RpmCmp(b, c) == 0
  {
    RpmIsLexicographic(a, b);
    RpmIsLexicographic(b, c);
    RpmIsLexicographic(a, c);
    LexOrderTransitive(Segments(a), Segments(b), Segments(c));
  }

  // ---- which versions can be ordered ----

  /** A version that carries a release and whose version and release do not end in a separator. */
  predicate Comparable(s: string) {
    var x := ParseEvr(s);
    x.release.Some? && EndsClean(x.version) && EndsClean(x.release.value)
  }

  predicate TransitiveOn(a: string, b: string, c: string) {
    VerCmp(a, b) <= 0 && VerCmp(b, c) <= 0 ==> VerCmp(a, c) <= 0
  }

  lemma EpochClean(s: string)
    ensures EndsClean(ParseEvr(s).epoch)
  {
  }

  lemma VerCmpTransitive(a: string, b: string, c: string)
    requires Comparable(a) && Comparable(b) && Comparable(c)
    ensures TransitiveOn(a, b, c)
  {
    EpochClean(a);
    EpochClean(b);
    EpochClean(c);
    var x, y, z := ParseEvr(a), ParseEvr(b), ParseEvr(c);
    if VerCmp(a, b) <= 0 && VerCmp(b, c) <= 0 {
      RpmCmpTransitive(x.epoch, y.epoch, z.epoch);
      if RpmCmp(x.epoch, z.epoch) == 0 {
        RpmCmpTransitive(x.version, y.version, z.version);
        if RpmCmp(x.version, z.version) == 0 {
          RpmCmpTransitive(x.release.value, y.release.value, z.release.value);
        }
      }
    }
  }

  /** The separators a string ends in, found the way the comparison finds them. */
  function Trail(v: string): (q: string)
    requires !EndsClean(v)
    ensures q != [] && forall i :: 0 <= i < |q| ==> IsSeparator(q[i])
    decreases |v|
  {
    var m := Span(v, IsSeparator);
    if m == |v| then v else
    TrailShrinks(v, m);
    Trail(v[m..][Span(v[m..], Kind(v[m]))..])
  }

  lemma TrailShrinks(v: string, m: nat)
    requires !EndsClean(v) && m == Span(v, IsSeparator) < |v|
    ensures var t := v[m..]; var i := Span(t, Kind(v[m])); 0 < i < |t| && !EndsClean(t[i..])
  {
    hide Span;
    var t := v[m..];
    SegmentTaken(v, m);
    var i := Span(t, Kind(v[m]));
    assert t[|t|-1] == v[|v|-1];
    assert i < |t|;
    assert t[i..][|t|-i-1] == v[|v|-1];
  }

  lemma {:induction false} CommonPrefix(v: string, x: string, y: string)
    requires !EndsClean(v)
    ensures RpmCmp(v + x, v + y) == RpmCmp(Trail(v) + x, Trail(v) + y)
    decreases |v|
  {
    var m := Span(v, IsSeparator);
    if m < |v| {
      hide RpmCmp, Span, EndsClean;
      var i := Span(v[m..], Kind(v[m]));
      TrailShrinks(v, m);
      SharedSegment(v, x, y, m, i);
      CommonPrefix(v[m..][i..], x, y);
    } else {
      assert Trail(v) == v;
    }
  }

  lemma SpanAppended(v: string, x: string, p: char -> bool, m: nat)
    requires m == Span(v, p) < |v|
    ensures Span(v + x, p) == m && (v + x)[..m] == v[..m] && (v + x)[m..] == v[m..] + x
  {
    hide Span;
    SpanIs(v + x, p, m);
  }

  /** A first segment that both strings share decides nothing. */
  lemma SharedSegment(v: string, x: string, y: string, m: nat, i: nat)
    requires m == Span(v, IsSeparator) < |v| && 0 < i == Span(v[m..], Kind(v[m])) < |v[m..]|
    ensures RpmCmp(v + x, v + y) == RpmCmp(v[m..][i..] + x, v[m..][i..] + y)
  {
    hide RpmCmp, Span, StrCmp;
    var t := v[m..];
    SpanAppended(v, x, IsSeparator, m);
    SpanAppended(v, y, IsSeparator, m);
    assert t[0] == v[m];
    SpanAppended(t, x, Kind(v[m]), i);
    SpanAppended(t, y, Kind(v[m]), i);
    RpmCmpStep(v + x, v + y, m, m);
    StrCmpEqual(t[..i], t[..i]);
    StrCmpEqual(StripZeros(t[..i]), StripZeros(t[..i]));
  }

  /** A component ending in a separator sits inside a cycle of two that do not. */
  lemma TrailingSeparatorCycle(v: string)
    requires !EndsClean(v)
    ensures RpmCmp(v + ".a", v) == -1 && RpmCmp(v, v + "1") == -1 && RpmCmp(v + "1", v + ".a") == -1
  {
    var q := Trail(v);
    CommonPrefix(v, ".a", []);
    CommonPrefix(v, [], "1");
    CommonPrefix(v, "1", ".a");
    assert v + [] == v && q + [] == q;
    SpanIs(q, IsSeparator, |q|);
    SpanIs(q + "1", IsSeparator, |q|);
    SpanIs(q + ".a", IsSeparator, |q| + 1);
    assert (q + "1")[|q|..] == "1" && (q + ".a")[|q|+1..] == "a" && q[|q|..] == [];
    RpmCmpStep(q + ".a", q, |q| + 1, |q|);
    RpmCmpStep(q, q + "1", |q|, |q|);
    RpmCmpStep(q + "1", q + ".a", |q|, |q| + 1);
  }

  /** Reading a string whose last dash is at `k`. */
  lemma ParseAt(u: string, d: nat, k: nat)
    requires d == Span(u, IsDigit) <= k < |u| && u[k] == '-' && forall i :: k < i < |u| ==> u[i] != '-'
    ensures StartOf(u) <= k && ParseEvr(u) == Evr(EpochOf(u), u[StartOf(u)..k], Some(u[k+1..]))
  {
    hide LastDash, Span, EpochOf;
    LastDashIs(u, d, k);
  }

  lemma LastDashIs(s: string, lo: nat, k: nat)
    requires lo <= k < |s| && s[k] == '-' && forall i :: k < i < |s| ==> s[i] != '-'
    ensures LastDash(s, lo, |s|) == k
  {
    hide *;
    var i := LastDash(s, lo, |s|);
    assert i != -1 && !(i < k) && !(k < i);
  }

  lemma SameHead(u: string, p: string, d: nat)
    requires |p| <= |u| && u[..|p|] == p && d == Span(p, IsDigit)
    requires d < |p| || (d < |u| && !IsDigit(u[d]) && u[d] != ':')
    ensures Span(u, IsDigit) == d && EpochOf(u) == EpochOf(p) && StartOf(u) == StartOf(p)
  {
    forall i | 0 <= i < |p| ensures u[i] == p[i] { assert u[..|p|][i] == p[i]; }
    SpanIs(u, IsDigit, d);
    assert u[..d] == p[..d];
  }

  lemma Layout(p: string, w: string, r: string, u: string)
    requires u == p + w + ("-" + r) && forall i :: 0 <= i < |r| ==> r[i] != '-'
    ensures |u| == |p| + |w| + 1 + |r| && u[..|p|] == p && u[|p|+|w|] == '-' && u[|p|+|w|+1..] == r
    ensures forall i :: |p| + |w| < i < |u| ==> u[i] != '-'
    ensures forall start: nat :: start <= |p| ==> u[start..|p|+|w|] == p[start..] + w
  {
  }

  /** `p`, then `w`, then a dash and a release: the epoch and the start of the version are those of `p`. */
  lemma ParseExtended(p: string, w: string, r: string, u: string)
    requires Span(p, IsDigit) < |p| || w == []
    requires forall i :: 0 <= i < |r| ==> r[i] != '-'
    requires u == p + w + ("-" + r)
    ensures ParseEvr(u) == Evr(EpochOf(p), p[StartOf(p)..] + w, Some(r))
  {
    hide Span, LastDash, ParseEvr, EpochOf, StartOf;
    Layout(p, w, r, u);
    SameHead(u, p, Span(p, IsDigit));
    ParseAt(u, Span(p, IsDigit), |p| + |w|);
  }

  ghost predicate Misordered(t: string, u: string, v: string) {
    Comparable(u) && Comparable(v) && !(TransitiveOn(t, u, v) && TransitiveOn(u, t, v) && TransitiveOn(u, v, t))
  }

  /** Two comparable versions on either side of `t` that are themselves in the other order. */
  lemma CycleMisorders(t: string, u: string, v: string)
    requires Comparable(u) && Comparable(v)
    requires VerCmp(u, t) <= 0 && VerCmp(t, v) <= 0 && VerCmp(u, v) > 0
    ensures exists u, v :: Misordered(t, u, v)
  {
    assert Misordered(t, u, v);
  }

  lemma VersionHead(t: string) returns (p: string)
    requires !EndsClean(ParseEvr(t).version)
    ensures Span(p, IsDigit) < |p| && EpochOf(p) == ParseEvr(t).epoch && p[StartOf(p)..] == ParseEvr(t).version
  {
    var start, v := StartOf(t), ParseEvr(t).version;
    var end := start + |v|;
    assert v == t[start..end];
    p := t[..end];
    assert p[start..] == v;
    assert !IsDigit(t[end-1]) by { assert v[|v|-1] == t[end-1]; }
    SpanOfPrefix(t, end);
  }

  lemma SpanOfPrefix(t: string, end: nat)
    requires 0 < end <= |t| && !IsDigit(t[end-1]) && StartOf(t) < end
    ensures Span(t[..end], IsDigit) < end
    ensures EpochOf(t[..end]) == EpochOf(t) && StartOf(t[..end]) == StartOf(t)
  {
    var d := Span(t, IsDigit);
    assert d <= end - 1;
    SpanIs(t[..end], IsDigit, d);
    assert t[..end][..d] == t[..d];
  }

  /** With the same epoch, versions that differ decide, and equal ones leave it to the releases, if both have one. */
  lemma SameEpoch(a: string, b: string)
    requires ParseEvr(a).epoch == ParseEvr(b).epoch
    ensures var x, y := ParseEvr(a), ParseEvr(b);
            var v := RpmCmp(x.version, y.version);
            (v != 0 ==> VerCmp(a, b) == v) &&
            (x.version == y.version ==>
               VerCmp(a, b) == if x.release.None? || y.release.None? then 0 else RpmCmp(x.release.value, y.release.value))
  {
    hide RpmCmp, ParseEvr;
    RpmCmpReflexive(ParseEvr(a).epoch);
    RpmCmpReflexive(ParseEvr(a).version);
  }

  lemma DirtyVersionMisorders(t: string)
    requires !EndsClean(ParseEvr(t).version)
    ensures exists u, v :: Misordered(t, u, v)
  {
    hide RpmCmp, ParseEvr, VerCmp, Span, EpochOf, StartOf;
    var x := ParseEvr(t);
    var p := VersionHead(t);
    var u, v := p + ".a" + ("-" + "1"), p + "1" + ("-" + "1");
    ParseExtended(p, ".a", "1", u);
    ParseExtended(p, "1", "1", v);
    TrailingSeparatorCycle(x.version);
    RpmCmpAntisymmetric(x.version + ".a", x.version + "1");
    SameEpoch(u, t);
    SameEpoch(t, v);
    SameEpoch(u, v);
    CycleMisorders(t, u, v);
  }

  lemma ParseUnreleased(t: string)
    requires ParseEvr(t).release.None?
    ensures ParseEvr(t) == Evr(EpochOf(t), t[StartOf(t)..], None)
  {
    hide EpochOf, StartOf, Span, LastDash;
  }

  lemma NoReleaseMisorders(t: string)
    requires ParseEvr(t).release.None? && EndsClean(ParseEvr(t).version)
    ensures exists u, v :: Misordered(t, u, v)
  {
    hide RpmCmp, ParseEvr, VerCmp, Span, EpochOf, StartOf;
    ParseUnreleased(t);
    var u, v := t + [] + ("-" + "2"), t + [] + ("-" + "1");
    ParseExtended(t, [], "2", u);
    ParseExtended(t, [], "1", v);
    assert t[StartOf(t)..] + [] == t[StartOf(t)..];
    TwoAfterOne();
    SameEpoch(u, t);
    SameEpoch(t, v);
    SameEpoch(u, v);
    CycleMisorders(t, u, v);
  }

  lemma TwoAfterOne()
    ensures RpmCmp("2", "1") == 1
  {
    OneDigit('1');
    OneDigit('2');
    NumbersCompareByValue("2", "1");
  }

  /** A string of one digit is one segment. */
  lemma OneDigit(c: char)
    requires IsDigit(c)
    ensures Span([c], IsSeparator) == 0 && Span([c], IsDigit) == 1 && [c][0..] == [c] && [c][..1] == [c] && [c][1..] == []
    ensures Value([c]) == Digit(c)
  {
    assert Value([]) == 0 && Pow10(0) == 1;
  }

  lemma DirtyReleaseMisorders(t: string)
    requires ParseEvr(t).release.Some? && EndsClean(ParseEvr(t).version) && !EndsClean(ParseEvr(t).release.value)
    ensures exists u, v :: Misordered(t, u, v)
  {
    hide ParseEvr, RpmCmp, VerCmp;
    var r := ParseEvr(t).release.value;
    ParseWithRelease(t, ".a");
    ParseWithRelease(t, "1");
    TrailingSeparatorCycle(r);
    RpmCmpAntisymmetric(r + ".a", r + "1");
    SameEpoch(t + ".a", t);
    SameEpoch(t, t + "1");
    SameEpoch(t + ".a", t + "1");
    CycleMisorders(t, t + ".a", t + "1");
  }

  lemma ParseWithRelease(t: string, w: string)
    requires ParseEvr(t).release.Some? && forall i :: 0 <= i < |w| ==> w[i] != '-'
    ensures ParseEvr(t + w) == ParseEvr(t).(release := Some(ParseEvr(t).release.value + w))
  {
    var d := Span(t, IsDigit);
    var k := LastDash(t, d, |t|);
    Appended(t, w, k);
    SameHead(t + w, t, d);
    ParseAt(t, d, k);
    ParseAt(t + w, d, k);
  }

  lemma Appended(t: string, w: string, k: nat)
    requires k < |t| && t[k] == '-'
    requires forall i :: k < i < |t| ==> t[i] != '-'
    requires forall i :: 0 <= i < |w| ==> w[i] != '-'
    ensures (t + w)[k] == '-' && (t + w)[..|t|] == t && (t + w)[k+1..] == t[k+1..] + w
    ensures forall i :: k < i < |t + w| ==> (t + w)[i] != '-'
    ensures forall start: nat :: start <= k ==> (t + w)[start..k] == t[start..k]
  {
  }

  /** Exactly the comparable versions can be ordered: on them comparison is a total preorder
      (with `VerCmpAntisymmetric`), and any other version breaks transitivity with two of them. */
  lemma OrderableIff(t: string)
    ensures Comparable(t) <==> forall u, v :: !Misordered(t, u, v)
  {
    if Comparable(t) {
      forall u, v ensures !Misordered(t, u, v) {
        if Comparable(u) && Comparable(v) {
          VerCmpTransitive(t, u, v);
          VerCmpTransitive(u, t, v);
          VerCmpTransitive(u, v, t);
        }
      }
    } else if !EndsClean(ParseEvr(t).version) {
      DirtyVersionMisorders(t);
    } else if ParseEvr(t).release.None? {
      NoReleaseMisorders(t);
    } else {
      DirtyReleaseMisorders(t);
    }
  }
}
