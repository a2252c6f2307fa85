/** Dependency specifications as text: `name[op version][: description]`. */
module DepString {
  import opened Common

  datatype Mod = Any | Eq | Ge | Le | Gt | Lt

  datatype Depend = Depend(name: string, mod: Mod, version: Option<string>, desc: Option<string>)

  // ---- printing ----

  function Operator(mod: Mod): string {
    match mod
    case Any => ""
    case Ge => ">="
    case Le => "<="
    case Eq => "="
    case Lt => "<"
    case Gt => ">"
  }

  function VersionText(d: Depend): string {
    if d.mod != Any && d.version.Some? then d.version.value else ""
  }

  function Tail(desc: Option<string>): string {
    if desc.Some? then ": " + desc.value else ""
  }

  /** The part before the description. */
  function Head(d: Depend): string { d.name + Operator(d.mod) + VersionText(d) }

  function ComputeString(d: Depend): string { Head(d) + Tail(d.desc) }

  // ---- parsing ----

  predicate DelimiterAt(s: string, i: nat) {
    i + 1 < |s| && s[i] == ':' && s[i+1] == ' '
  }

  /** `strstr` for ": ": the first index from `lo` on, or the end. */
  function DelimiterIndex(s: string, lo: nat): (i: nat)
    requires lo <= |s|
    ensures lo <= i <= |s|
    ensures forall k :: lo <= k < i ==> !DelimiterAt(s, k)
    ensures i < |s| ==> DelimiterAt(s, i)
    decreases |s| - lo
  {
    if lo == |s| || DelimiterAt(s, lo) then lo else DelimiterIndex(s, lo + 1)
  }

  function Follows(s: string, ptr: nat, c: char): bool { ptr + 1 < |s| && s[ptr+1] == c }

  /** The operator that starts at `ptr`. */
  function OperatorAt(s: string, ptr: nat, end: nat): Mod
    requires ptr <= end <= |s|
  {
    if ptr == end then Any
    else if s[ptr] == '<' then (if Follows(s, ptr, '=') then Le else Lt)
    else if s[ptr] == '>' then (if Follows(s, ptr, '=') then Ge else Gt)
    else Eq
  }

  /** Where the operator starts: the first `<`, else the first `>`, else the first `=`, else the end. */
  function OperatorIndex(s: string, end: nat): (ptr: nat)
    requires end <= |s|
    ensures ptr <= end
    ensures ptr < end ==> s[ptr] in "<>="
  {
    if IndexOf(s, '<', 0, end) < end then IndexOf(s, '<', 0, end)
    else if IndexOf(s, '>', 0, end) < end then IndexOf(s, '>', 0, end)
    else IndexOf(s, '=', 0, end)
  }

  function FromString(s: string): Depend {
    var end := DelimiterIndex(s, 0);
    var desc := if end < |s| then Some(s[end+2..]) else None;
    var ptr := OperatorIndex(s, end);
    var mod := OperatorAt(s, ptr, end);
    var start := ptr + |Operator(mod)|;
    assert end < |s| ==> s[end] == ':';
    Depend(s[..ptr], mod, if mod == Any then None else Some(s[start..end]), desc)
  }

  method Memchr(s: string, c: char, n: nat) returns (ptr: nat)
    requires n <= |s|
    ensures ptr == IndexOf(s, c, 0, n)
  {
    ptr := 0;
    while ptr < n && s[ptr] != c
      invariant ptr <= n && IndexOf(s, c, 0, n) == IndexOf(s, c, ptr, n)
    {
      ptr := ptr + 1;
    }
  }

  method Strstr(s: string) returns (i: nat)
    ensures i == DelimiterIndex(s, 0)
  {
    i := 0;
    while i < |s| && !DelimiterAt(s, i)
      invariant i <= |s| && DelimiterIndex(s, 0) == DelimiterIndex(s, i)
    {
      i := i + 1;
    }
  }

  /** The searches for the operator, and where the version after it begins. */
  method FindOperator(depstring: string, end: nat) returns (ptr: nat, mod: Mod, version: Option<nat>)
    requires end <= |depstring|
    ensures ptr == OperatorIndex(depstring, end) && mod == OperatorAt(depstring, ptr, end)
    ensures version == if mod == Any then None else Some(ptr + |Operator(mod)|)
  {
    hide IndexOf;
    mod, version := Any, None;
    ptr := Memchr(depstring, '<', end);
    if ptr < end {
      if ptr + 1 < |depstring| && depstring[ptr+1] == '=' {
        mod, version := Le, Some(ptr + 2);
      } else {
        mod, version := Lt, Some(ptr + 1);
      }
      return;
    }
    ptr := Memchr(depstring, '>', end);
    if ptr < end {
      if ptr + 1 < |depstring| && depstring[ptr+1] == '=' {
        mod, version := Ge, Some(ptr + 2);
      } else {
        mod, version := Gt, Some(ptr + 1);
      }
      return;
    }
    ptr := Memchr(depstring, '=', end);
    if ptr < end {
      mod, version := Eq, Some(ptr + 1);
    }
  }

  method AlpmDepFromString(depstring: string) returns (depend: Depend)
    ensures depend == FromString(depstring)
  {
    hide DelimiterIndex, OperatorIndex, OperatorAt, Operator;
    depend := Depend("", Any, None, None);
    var end := Strstr(depstring);
    if end < |depstring| {
      depend := depend.(desc := Some(depstring[end+2..]));
    }
    var ptr, mod, version := FindOperator(depstring, end);
    OperatorText(depstring, end);
    depend := depend.(mod := mod, name := depstring[..ptr]);
    if version.Some? {
      depend := depend.(version := Some(depstring[version.value..end]));
    }
  }

  // ---- round trips ----

  /** The operator is what stands where it was found, before the description. */
  lemma OperatorText(s: string, end: nat)
    requires end == DelimiterIndex(s, 0)
    ensures var ptr := OperatorIndex(s, end); var mod := OperatorAt(s, ptr, end);
            && (mod == Any <==> ptr == end) && ptr + |Operator(mod)| <= end && Operator(mod) == s[ptr..ptr+|Operator(mod)|]
  {
    hide DelimiterIndex, OperatorIndex;
  }

  lemma HeadOfParsed(s: string)
    ensures Head(FromString(s)) == s[..DelimiterIndex(s, 0)]
  {
    hide DelimiterIndex, OperatorIndex, OperatorAt, Operator;
    var end := DelimiterIndex(s, 0);
    var ptr := OperatorIndex(s, end);
    var start := ptr + |Operator(OperatorAt(s, ptr, end))|;
    OperatorText(s, end);
    ThreeParts(s, ptr, start, end);
  }

  lemma ThreeParts(s: string, a: nat, b: nat, c: nat)
    requires a <= b <= c <= |s|
    ensures s[..c] == s[..a] + s[a..b] + s[b..c]
  {
  }

  /** Printing a parsed specification gives back the text, whatever the text. */
  lemma PrintParsed(s: string)
    ensures ComputeString(FromString(s)) == s
  {
    HeadOfParsed(s);
    var end := DelimiterIndex(s, 0);
    if end < |s| {
      assert s == s[..end] + ": " + s[end+2..];
    }
  }

  predicate Without(s: string, c: char) { forall i :: 0 <= i < |s| ==> s[i] != c }

  predicate VersionAvoidsEquals(d: Depend) { VersionText(d) == "" || VersionText(d)[0] != '=' }

  /** The parts avoid what the parser would take for something else. */
  predicate Printable(d: Depend) {
    && (d.version.None? <==> d.mod == Any)
    && (forall i :: 0 <= i < |Head(d)| ==> !DelimiterAt(Head(d), i))
    && match d.mod
       case Any => Without(d.name, '<') && Without(d.name, '>') && Without(d.name, '=')
       case Lt => Without(d.name, '<') && VersionAvoidsEquals(d)
       case Le => Without(d.name, '<')
       case Gt => Without(Head(d), '<') && Without(d.name, '>') && VersionAvoidsEquals(d)
       case Ge => Without(Head(d), '<') && Without(d.name, '>')
       case Eq => Without(Head(d), '<') && Without(Head(d), '>') && Without(d.name, '=')
  }

  lemma DelimiterOfPrinted(d: Depend)
    requires forall i :: 0 <= i < |Head(d)| ==> !DelimiterAt(Head(d), i)
    ensures DelimiterIndex(ComputeString(d), 0) == |Head(d)|
  {
    var s, h := ComputeString(d), Head(d);
    forall i | 0 <= i < |h| ensures !DelimiterAt(s, i) {
      assert s[i] == h[i];
      if i + 1 < |h| { assert s[i+1] == h[i+1] && !DelimiterAt(h, i); }
    }
    if d.desc.Some? {
      assert s[|h|] == ':' && s[|h|+1] == ' ';
      assert DelimiterAt(s, |h|);
    }
  }

  lemma PrintedLayout(d: Depend)
    ensures var s, h, n, m := ComputeString(d), Head(d), |d.name|, |d.name| + |Operator(d.mod)|;
            && |h| == m + |VersionText(d)| && s[..|h|] == h && s[..n] == d.name
            && s[m..|h|] == VersionText(d) && s[n..m] == Operator(d.mod)
            && (d.desc.Some? ==> |s| == |h| + 2 + |d.desc.value| && s[|h|] == ':' && s[|h|+2..] == d.desc.value)
            && (d.desc.None? ==> s == h)
  {
  }

  lemma AvoidedBefore(s: string, c: char, hi: nat, part: string)
    requires |part| <= hi <= |s| && s[..|part|] == part && Without(part, c)
    ensures |part| < hi && s[|part|] == c ==> IndexOf(s, c, 0, hi) == |part|
    ensures |part| == hi ==> IndexOf(s, c, 0, hi) == hi
  {
    forall k | 0 <= k < |part| ensures s[k] != c { assert s[k] == part[k]; }
  }

  lemma OperatorOfPrinted(d: Depend)
    requires Printable(d)
    ensures OperatorIndex(ComputeString(d), |Head(d)|) == |d.name|
  {
    var s, h, n := ComputeString(d), Head(d), |d.name|;
    PrintedLayout(d);
    assert d.mod != Any ==> s[n] == s[n..n+|Operator(d.mod)|][0] == Operator(d.mod)[0];
    match d.mod {
      case Any => AvoidedBefore(s, '<', n, d.name); AvoidedBefore(s, '>', n, d.name); AvoidedBefore(s, '=', n, d.name);
      case Lt => AvoidedBefore(s, '<', |h|, d.name);
      case Le => AvoidedBefore(s, '<', |h|, d.name);
      case Gt => AvoidedBefore(s, '<', |h|, h); AvoidedBefore(s, '>', |h|, d.name);
      case Ge => AvoidedBefore(s, '<', |h|, h); AvoidedBefore(s, '>', |h|, d.name);
      case Eq => AvoidedBefore(s, '<', |h|, h); AvoidedBefore(s, '>', |h|, h); AvoidedBefore(s, '=', |h|, d.name);
    }
  }

  lemma SecondOperatorCharacter(d: Depend)
    requires Printable(d) && d.mod != Any
    ensures var s, n, o := ComputeString(d), |d.name|, Operator(d.mod);
            n < |Head(d)| && s[n] == o[0] && (d.mod != Eq ==> (Follows(s, n, '=') <==> |o| == 2))
  {
    var s, h, n, o := ComputeString(d), Head(d), |d.name|, Operator(d.mod);
    PrintedLayout(d);
    assert s[n] == s[n..n+|o|][0];
    if |o| == 2 {
      assert s[n+1] == s[n..n+|o|][1];
    } else if VersionText(d) != "" {
      assert s[n+1] == s[n+1..|h|][0];
    }
  }

  lemma ParsePrinted(d: Depend)
    requires Printable(d)
    ensures FromString(ComputeString(d)) == d
  {
    DelimiterOfPrinted(d);
    PrintedLayout(d);
    OperatorOfPrinted(d);
    if d.mod != Any { SecondOperatorCharacter(d); }
  }

  /** What the search for the operator has passed over. */
  lemma PassedOver(s: string, end: nat)
    requires end <= |s|
    ensures var ptr := OperatorIndex(s, end);
            && (ptr == end || s[ptr] == '<' ==> Without(s[..ptr], '<'))
            && (ptr == end || s[ptr] == '>' ==> Without(s[..end], '<') && Without(s[..ptr], '>'))
            && (ptr == end || s[ptr] == '=' ==> Without(s[..end], '<') && Without(s[..end], '>') && Without(s[..ptr], '='))
  {
    hide IndexOf;
  }

  /** The character after the operator is not part of it. */
  lemma VersionAfter(s: string, d: Depend)
    requires s == ComputeString(d) && d == FromString(s) && (d.mod == Lt || d.mod == Gt)
    ensures VersionAvoidsEquals(d)
  {
    hide DelimiterIndex, OperatorIndex;
    var end := DelimiterIndex(s, 0);
    var ptr := OperatorIndex(s, end);
    if VersionText(d) != "" { assert s[ptr+1] == VersionText(d)[0]; }
  }

  lemma ParsedIsPrintable(s: string, d: Depend)
    requires s == ComputeString(d) && d == FromString(s)
    ensures Printable(d)
  {
    hide DelimiterIndex, OperatorIndex, VersionAvoidsEquals, Without;
    HeadOfParsed(s);
    var end := DelimiterIndex(s, 0);
    forall i | 0 <= i < |Head(d)| ensures !DelimiterAt(Head(d), i) { assert !DelimiterAt(s, i); }
    PassedOver(s, end);
    if d.mod == Lt || d.mod == Gt { VersionAfter(s, d); }
  }

  /** Parsing after printing is the identity exactly on the printable dependencies. */
  lemma ParsePrintedIff(d: Depend)
    ensures FromString(ComputeString(d)) == d <==> Printable(d)
  {
    hide FromString, ComputeString, Printable;
    if Printable(d) {
      ParsePrinted(d);
    }
    if FromString(ComputeString(d)) == d {
      ParsedIsPrintable(ComputeString(d), d);
    }
  }
}
