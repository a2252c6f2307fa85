/** What version comparison means for the versions that packagers write: numbers, words, separators, epochs, releases. */
module VersionLaws {
  import opened Common
  import opened Digits
  import opened Version
  import opened VersionOrder

  // ---- components, segment by segment ----

  predicate AllLetters(s: string) { forall i :: 0 <= i < |s| ==> 'a' <= s[i] <= 'z' || 'A' <= s[i] <= 'Z' }

  predicate AllSeparators(s: string) {
    forall i :: 0 <= i < |s| ==> !('a' <= s[i] <= 'z') && !('A' <= s[i] <= 'Z') && !('0' <= s[i] <= '9')
  }

  /** Not continuing a segment of characters that satisfy `p`. */
  predicate StopsAt(s: string, p: char -> bool) { s == [] || !p(s[0]) }

  lemma SpanOfFirst(d: string, x: string, p: char -> bool)
    requires (forall i :: 0 <= i < |d| ==> p(d[i])) && StopsAt(x, p)
    ensures Span(d + x, p) == |d| && (d + x)[..|d|] == d && (d + x)[|d|..] == x
  {
    SpanIs(d + x, p, |d|);
  }

  /** Where both strings begin with a segment, the comparison is that of the segments first. */
  lemma SegmentsFirst(a: string, b: string)
    requires a != [] && b != [] && IsAlnum(a[0]) && IsAlnum(b[0])
    ensures RpmCmp(a, b) == RpmCmpSegments(a, b)
  {
    hide RpmCmp, RpmCmpSegments;
    assert a[0..] == a && b[0..] == b;
    RpmCmpStep(a, b, 0, 0);
  }

  /** Leading numbers decide by their values, whatever follows; equal ones leave the decision to what follows. */
  lemma NumbersLead(d: string, x: string, e: string, y: string)
    requires d != [] && e != [] && AllDigits(d) && AllDigits(e) && StopsAt(x, IsDigit) && StopsAt(y, IsDigit)
    ensures RpmCmp(d + x, e + y) == if Value(d) != Value(e) then Sign(Value(d) - Value(e)) else RpmCmp(x, y)
  {
    hide RpmCmp, SegmentCmp, Span, Value;
    SpanOfFirst(d, x, IsDigit);
    SpanOfFirst(e, y, IsDigit);
    SegmentsFirst(d + x, e + y);
    NumbersCompareByValue(d, e);
  }

  /** Leading words decide by `strcmp`. */
  lemma WordsLead(d: string, x: string, e: string, y: string)
    requires d != [] && e != [] && AllLetters(d) && AllLetters(e) && StopsAt(x, IsAlpha) && StopsAt(y, IsAlpha)
    ensures RpmCmp(d + x, e + y) == if d != e then StrCmp(d, e) else RpmCmp(x, y)
  {
    hide RpmCmp, Span;
    SpanOfFirst(d, x, IsAlpha);
    SpanOfFirst(e, y, IsAlpha);
    SegmentsFirst(d + x, e + y);
    StrCmpEqual(d, e);
  }

  /** A number beats a word. */
  lemma NumberBeatsWord(a: string, b: string)
    requires a != [] && b != [] && IsDigit(a[0]) && IsAlpha(b[0])
    ensures RpmCmp(a, b) == 1 && RpmCmp(b, a) == -1
  {
    hide RpmCmp;
    SegmentsFirst(a, b);
    SpanIs(b, IsDigit, 0);
    RpmCmpAntisymmetric(a, b);
  }

  /** Of separators before a segment more beat fewer; as many leave the decision to what follows. */
  lemma SeparatorsLead(s: string, x: string, t: string, y: string)
    requires AllSeparators(s) && AllSeparators(t) && x != [] && y != [] && IsAlnum(x[0]) && IsAlnum(y[0])
    ensures RpmCmp(s + x, t + y) == if |s| != |t| then Sign(|s| - |t|) else RpmCmp(x, y)
  {
    hide RpmCmp, RpmCmpSegments, Span;
    SpanOfFirst(s, x, IsSeparator);
    SpanOfFirst(t, y, IsSeparator);
    RpmCmpStep(s + x, t + y, |s|, |t|);
    SegmentsFirst(x, y);
  }

  /** The end of a string beats a word that follows directly, and nothing else. */
  lemma EndRanks(y: string)
    requires y != []
    ensures RpmCmp([], y) == (if IsAlpha(y[0]) then 1 else -1) && RpmCmp(y, []) == -RpmCmp([], y)
  {
    RpmCmpAntisymmetric(y, []);
  }

  /** So does the end after separators; of two strings of separators neither is before the other. */
  lemma TrailingRanks(s: string, t: string, y: string)
    requires s != [] && AllSeparators(s) && AllSeparators(t) && y != [] && IsAlnum(y[0])
    ensures RpmCmp(s, t + y) == if IsAlpha(y[0]) then 1 else -1
    ensures t != [] ==> RpmCmp(s, t) == 0
  {
    hide Span;
    SpanIs(s, IsSeparator, |s|);
    SpanIs(t, IsSeparator, |t|);
    SpanOfFirst(t, y, IsSeparator);
  }

  /** The comparison after a first number, a dot and another number that are the same in both. */
  lemma AfterOneZero(x: string, y: string, a: string, b: string)
    requires StopsAt(x, IsDigit) && StopsAt(y, IsDigit) && a == "1.0" + x && b == "1.0" + y
    ensures RpmCmp(a, b) == RpmCmp(x, y)
  {
    hide RpmCmp, Value, Span;
    NumbersLead("0", x, "0", y);
    SeparatorsLead(".", "0" + x, ".", "0" + y);
    NumbersLead("1", "." + ("0" + x), "1", "." + ("0" + y));
    assert "1" + ("." + ("0" + x)) == a && "1" + ("." + ("0" + y)) == b;
  }

  /** The order that the manual gives for suffixes. */
  lemma SuffixesInOrder()
    ensures RpmCmp("1.0a", "1.0b") == -1 && RpmCmp("1.0b", "1.0beta") == -1 && RpmCmp("1.0beta", "1.0p") == -1
    ensures RpmCmp("1.0p", "1.0pre") == -1 && RpmCmp("1.0pre", "1.0rc") == -1 && RpmCmp("1.0rc", "1.0") == -1
    ensures RpmCmp("1.0", "1.0.a") == -1 && RpmCmp("1.0.a", "1.0.1") == -1
  {
    hide RpmCmp, Span;
    WordPair([], "a", "b", "1.0a", "1.0b");
    WordPair("b", [], "eta", "1.0b", "1.0beta");
    WordPair([], "beta", "p", "1.0beta", "1.0p");
    WordPair("p", [], "re", "1.0p", "1.0pre");
    WordPair([], "pre", "rc", "1.0pre", "1.0rc");
    AfterOneZero("rc", [], "1.0rc", "1.0");
    EndRanks("rc");
    AfterOneZero([], ".a", "1.0", "1.0.a");
    EndRanks(".a");
    AfterOneZero("." + "a", "." + "1", "1.0.a", "1.0.1");
    SeparatorsLead(".", "a", ".", "1");
    NumberBeatsWord("1", "a");
  }

  lemma WordPair(p: string, x: string, y: string, a: string, b: string)
    requires AllLetters(p) && AllLetters(x) && AllLetters(y) && y != [] && p + x != [] && (x != [] ==> x[0] < y[0])
    requires a == "1.0" + (p + x) && b == "1.0" + (p + y)
    ensures RpmCmp(a, b) == -1
  {
    hide RpmCmp, Span, StrCmp;
    AfterOneZero(p + x, p + y, a, b);
    FirstDifference(p, x, y);
    StrCmpEqual(p + x, p + y);
    WordsLead(p + x, [], p + y, []);
    assert p + x + [] == p + x && p + y + [] == p + y;
  }

  // ---- epochs ----

  /** Not beginning with digits, if any, and a colon. */
  predicate NoEpoch(v: string) { forall k :: 0 <= k < |v| && AllDigits(v[..k]) ==> v[k] != ':' }

  predicate NoDash(v: string) { '-' !in v }

  /** Version and release of what comes after the epoch. */
  function Rest(x: string): (string, Option<string>) {
    var dash := LastDash(x, 0, |x|);
    if dash < 0 then (x, None) else (x[..dash], Some(x[dash+1..]))
  }

  lemma ParsedEpoch(e: string, x: string)
    requires AllDigits(e)
    ensures ParseEvr(e + ":" + x) == Evr(if e == [] then "0" else e, Rest(x).0, Rest(x).1)
  {
    hide Span, LastDash;
    var u := e + ":" + x;
    var n := |e| + 1;
    SpanIs(u, IsDigit, |e|);
    assert u[..|e|] == e && u[n..] == x;
    var k := LastDash(x, 0, |x|);
    if k < 0 {
      assert forall i :: n <= i < |u| ==> u[i] == x[i-n];
      assert LastDash(u, |e|, |u|) < 0;
    } else {
      assert u[n+k] == x[k] && forall i :: n + k < i < |u| ==> u[i] == x[i-n];
      LastDashIs(u, |e|, n + k);
      assert u[n..n+k] == x[..k] && u[n+k+1..] == x[k+1..];
    }
  }

  lemma ParsedWithout(v: string)
    requires NoEpoch(v)
    ensures ParseEvr(v) == Evr("0", Rest(v).0, Rest(v).1)
  {
    hide Span, LastDash;
    var d := Span(v, IsDigit);
    assert AllDigits(v[..d]);
    var k := LastDash(v, 0, |v|);
    if k < 0 {
      assert LastDash(v, d, |v|) < 0;
    } else {
      assert d <= k;
      LastDashIs(v, d, k);
    }
    assert v[0..] == v;
  }

  lemma EpochsLead(e: string, f: string)
    requires e != [] && f != [] && AllDigits(e) && AllDigits(f)
    ensures RpmCmp(e, f) == Sign(Value(e) - Value(f))
  {
    hide RpmCmp, Value;
    NumbersLead(e, [], f, []);
    assert e + [] == e && f + [] == f && RpmCmp([], []) == 0 by { RpmCmpReflexive([]); }
  }

  lemma SameParts(a: string, b: string, w: string)
    requires ParseEvr(a) == ParseEvr(b)
    ensures VerCmp(a, w) == VerCmp(b, w)
  {
    hide ParseEvr, RpmCmp;
  }

  /** A missing epoch, and an empty one, is epoch 0. */
  lemma MissingEpochIsZero(v: string, w: string)
    requires NoEpoch(v)
    ensures VerCmp("0:" + v, w) == VerCmp(v, w) && VerCmp(":" + v, w) == VerCmp(v, w)
    ensures VerCmp("0:" + v, v) == 0 && VerCmp(":" + v, v) == 0
  {
    hide VerCmp, Rest, ParseEvr, NoEpoch;
    ParsedWithout(v);
    ParsedEpoch("0", v);
    ParsedEpoch([], v);
    assert "0" + ":" + v == "0:" + v && [] + ":" + v == ":" + v;
    SameParts("0:" + v, v, w);
    SameParts(":" + v, v, w);
    SameParts("0:" + v, v, v);
    SameParts(":" + v, v, v);
    VerCmpReflexive(v);
  }

  /** A positive epoch beats every version without one. */
  lemma EpochBeatsNone(e: string, w: string, v: string)
    requires AllDigits(e) && e != [] && Value(e) > 0 && NoEpoch(v)
    ensures VerCmp(e + ":" + w, v) == 1
  {
    hide RpmCmp, Rest, Value;
    ParsedEpoch(e, w);
    ParsedWithout(v);
    EpochsLead(e, "0");
    assert Value("0") == 0 by { ValueOfZero(); }
  }

  lemma ValueOfZero()
    ensures Value("0") == 0
  {
  }

  /** Versions that agree in all but their epochs. */
  lemma EpochsDecide(a: string, b: string, a': string, b': string)
    requires ParseEvr(a') == ParseEvr(a).(epoch := "0") && ParseEvr(b') == ParseEvr(b).(epoch := "0")
    ensures VerCmp(a, b) == var c := RpmCmp(ParseEvr(a).epoch, ParseEvr(b).epoch); if c != 0 then c else VerCmp(a', b')
  {
    hide RpmCmp, ParseEvr;
    RpmCmpReflexive("0");
  }

  /** Of two epochs the greater wins, whatever follows; equal ones leave the decision to what follows. */
  lemma GreaterEpochWins(e: string, x: string, f: string, y: string)
    requires e != [] && f != [] && AllDigits(e) && AllDigits(f)
    ensures VerCmp(e + ":" + x, f + ":" + y) ==
              if Value(e) != Value(f) then Sign(Value(e) - Value(f)) else VerCmp(":" + x, ":" + y)
  {
    hide RpmCmp, Rest, Value, VerCmp, ParseEvr;
    ParsedEpoch(e, x);
    ParsedEpoch(f, y);
    ParsedEpoch([], x);
    ParsedEpoch([], y);
    assert [] + ":" + x == ":" + x && [] + ":" + y == ":" + y;
    EpochsLead(e, f);
    EpochsDecide(e + ":" + x, f + ":" + y, ":" + x, ":" + y);
  }

  // ---- versions and releases ----

  lemma RestOfReleased(v: string, r: string)
    requires NoDash(r)
    ensures Rest(v + "-" + r) == (v, Some(r))
  {
    var u := v + "-" + r;
    assert forall i :: |v| < i < |u| ==> u[i] == r[i-|v|-1];
    LastDashIs(u, 0, |v|);
    assert u[..|v|] == v && u[|v|+1..] == r;
  }

  lemma RestOfUnreleased(v: string)
    requires NoDash(v)
    ensures Rest(v) == (v, None)
  {
    assert forall i :: 0 <= i < |v| ==> v[i] in v;
  }

  lemma StillNoEpoch(v: string, r: string)
    requires NoEpoch(v)
    ensures NoEpoch(v + "-" + r)
  {
    var u := v + "-" + r;
    forall k | 0 <= k < |u| && AllDigits(u[..k]) ensures u[k] != ':' {
      if k < |v| { assert u[..k] == v[..k]; }
      assert k > |v| ==> !IsDigit(u[..k][|v|]);
    }
  }

  lemma Unreleased(v: string)
    requires NoEpoch(v) && NoDash(v)
    ensures ParseEvr(v) == Evr("0", v, None)
  {
    hide Rest, NoDash, NoEpoch, ParseEvr;
    ParsedWithout(v);
    RestOfUnreleased(v);
  }

  lemma Released(v: string, r: string)
    requires NoEpoch(v) && NoDash(r)
    ensures ParseEvr(v + "-" + r) == Evr("0", v, Some(r))
  {
    hide Rest, NoDash, NoEpoch, ParseEvr;
    StillNoEpoch(v, r);
    ParsedWithout(v + "-" + r);
    RestOfReleased(v, r);
  }

  /** Versions decide, and then releases; a release is what follows the last dash. */
  lemma ReleasesLast(v: string, r: string, w: string, t: string)
    requires NoEpoch(v) && NoEpoch(w) && NoDash(r) && NoDash(t)
    ensures VerCmp(v + "-" + r, w + "-" + t) == if RpmCmp(v, w) != 0 then RpmCmp(v, w) else RpmCmp(r, t)
  {
    hide RpmCmp, NoDash, NoEpoch, ParseEvr;
    Released(v, r);
    Released(w, t);
    RpmCmpReflexive("0");
  }

  /** The releases are compared only if both versions have one. */
  lemma ReleaseNeedsRelease(v: string, r: string, w: string)
    requires NoEpoch(v) && NoEpoch(w) && NoDash(r) && NoDash(w)
    ensures VerCmp(v + "-" + r, w) == RpmCmp(v, w) && VerCmp(w, v + "-" + r) == RpmCmp(w, v)
    ensures NoDash(v) ==> VerCmp(v, w) == RpmCmp(v, w)
  {
    hide RpmCmp, NoDash, NoEpoch, ParseEvr;
    Released(v, r);
    Unreleased(w);
    if NoDash(v) { Unreleased(v); }
    RpmCmpReflexive("0");
  }

  /** No version is before every version. */
  lemma NoneIsLeast(a: Option<string>)
    ensures PkgVerCmp(None, a) <= 0 && (PkgVerCmp(None, a) == 0 <==> a.None?)
  {
  }
}
