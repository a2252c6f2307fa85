/** The text files of the local database: `_alpm_local_db_write` as a printer and `local_db_read` as a parser. */
module LocalDb {
  import opened Common
  import opened DepString
  import opened ListSpec
  import opened Digits

  // ---- lines of a file ----

  /** `sizeof(line)`, of which one is for the NUL. */
  const LINE_SIZE: nat := 1024

  /** Fits into the line buffer together with its newline. */
  predicate Fits(s: string) { OneLine(s) && |s| + 2 <= LINE_SIZE }

  function Unlines(lines: seq<string>): string {
    if lines == [] then "" else lines[0] + "\n" + Unlines(lines[1..])
  }

  /** How much of the text one `fgets` takes: up to a newline, the end, or the size of the buffer. */
  function ChunkLength(s: string, n: nat): (k: nat)
    requires n <= |s|
    ensures n <= k <= |s|
    decreases |s| - n
  {
    if n == |s| || n + 1 >= LINE_SIZE then n
    else if s[n] == '\n' then n + 1
    else ChunkLength(s, n + 1)
  }

  /** `_alpm_strip_newline` */
  function StripNewline(s: string): string {
    if s != "" && s[|s|-1] == '\n' then StripNewline(s[..|s|-1]) else s
  }

  /** The lines that successive calls of `fgets` deliver, without their newlines. */
  function Chunks(s: string): seq<string>
    decreases |s|
  {
    if s == "" then []
    else
      var n := ChunkLength(s, 0);
      if n == 0 then [] else [StripNewline(s[..n])] + Chunks(s[n..])
  }

  /** The last of these calls runs into the end of the file. */
  predicate Ragged(s: string)
    decreases |s|
  {
    if s == "" then false
    else
      var n := ChunkLength(s, 0);
      if n == 0 then false
      else if n == |s| then s[n-1] != '\n' && n + 1 < LINE_SIZE
      else Ragged(s[n..])
  }

  /** A line that does not fit is delivered in pieces of 1023 characters. */
  lemma LongLineIsCut(s: string)
    requires |s| >= 1023 && OneLine(s[..1023])
    ensures Chunks(s) == [s[..1023]] + Chunks(s[1023..])
  {
    hide ChunkLength, StripNewline;
    CutAtBuffer(s, 0);
    assert s[..1023][1022] != '\n';
    StripNothing(s[..1023]);
  }

  lemma {:induction false} CutAtBuffer(s: string, n: nat)
    requires |s| >= 1023 && OneLine(s[..1023]) && n <= 1023
    ensures ChunkLength(s, n) == 1023
    decreases 1023 - n
  {
    if n < 1023 {
      assert s[..1023][n] == s[n];
      CutAtBuffer(s, n + 1);
    }
  }

  lemma StripNothing(s: string)
    requires s == "" || s[|s|-1] != '\n'
    ensures StripNewline(s) == s
  {
  }

  lemma ChunkSome(s: string)
    requires s != ""
    ensures ChunkLength(s, 0) > 0
  {
  }

  lemma {:induction false} ChunkUpTo(s: string, line: string, rest: string, n: nat)
    requires Fits(line) && s == line + "\n" + rest && n <= |line|
    ensures ChunkLength(s, n) == |line| + 1
    decreases |line| - n
  {
    if n < |line| {
      assert s[n] == line[n];
      ChunkUpTo(s, line, rest, n + 1);
    }
  }

  lemma StripOne(line: string)
    requires OneLine(line)
    ensures StripNewline(line + "\n") == line && StripNewline(line) == line
  {
    assert (line + "\n")[..|line|] == line;
  }

  /** Lines that fit are read back one by one, and the end is met only after the last. */
  lemma {:induction false} ChunksOfLines(lines: seq<string>)
    requires forall k :: 0 <= k < |lines| ==> Fits(lines[k])
    ensures Chunks(Unlines(lines)) == lines && !Ragged(Unlines(lines))
  {
    if lines != [] {
      var line, rest := lines[0], Unlines(lines[1..]);
      var s := line + "\n" + rest;
      ChunkUpTo(s, line, rest, 0);
      assert s[..|line|+1] == line + "\n" && s[|line|+1..] == rest;
      StripOne(line);
      ChunksOfLines(lines[1..]);
      assert s[|line|] == '\n';
    }
  }

  /** A file being read: the lines to come, the buffer, and the end-of-file indicator. */
  datatype Tape = Tape(lines: seq<string>, ragged: bool, line: string, eof: bool)

  /** One `fgets` and stripping: at the end of the file the buffer keeps what it held. */
  function Next(t: Tape): Tape {
    if t.lines == [] then t.(eof := true)
    else Tape(t.lines[1..], t.ragged && |t.lines| > 1, t.lines[0], t.eof || (t.ragged && |t.lines| == 1))
  }

  /** The file and the line buffer of `local_db_read`. */
  class Stream {
    const text: string
    var pos: nat
    var eof: bool
    var line: string

    constructor (text: string)
      ensures Valid() && this.text == text && View() == Tape(Chunks(text), Ragged(text), "", false)
    {
      this.text, pos, eof, line := text, 0, false, "";
      new;
      assert text[0..] == text;
    }

    ghost predicate Valid()
      reads this
    {
      pos <= |text| && StripNewline(line) == line
    }

    ghost function View(): Tape
      requires Valid()
      reads this
    {
      Tape(Chunks(text[pos..]), Ragged(text[pos..]), line, eof)
    }

    /** `safe_fgets` followed by `_alpm_strip_newline`; false at the end of the file. */
    method ReadLine() returns (ok: bool)
      requires Valid()
      modifies this
      ensures Valid() && View() == Next(old(View())) && ok == (old(View()).lines != [])
    {
      hide Chunks, Ragged, StripNewline, ChunkLength;
      ghost var rest := text[pos..];
      NoChunks(rest);
      if pos == |text| {
        assert rest == "";
        eof := true;
        return false;
      }
      var n := ChunkLength(text[pos..], 0);
      FirstChunk(rest);
      line := StripNewline(text[pos..pos+n]);
      StripTwice(text[pos..pos+n]);
      assert rest[..n] == text[pos..pos+n] && rest[n..] == text[pos+n..] && rest[n-1] == text[pos+n-1];
      assert n == |rest| ==> rest[n..] == "";
      if pos + n == |text| && text[pos+n-1] != '\n' && n + 1 < LINE_SIZE { eof := true; }
      pos := pos + n;
      ok := true;
    }
  }

  lemma FirstChunk(s: string)
    requires s != ""
    ensures var n := ChunkLength(s, 0);
            0 < n <= |s| && Chunks(s) == [StripNewline(s[..n])] + Chunks(s[n..]) && (Chunks(s[n..]) == [] <==> n == |s|) &&
            (Ragged(s) == if n == |s| then s[n-1] != '\n' && n + 1 < LINE_SIZE else Ragged(s[n..])) && !Ragged("")
  {
    ChunkSome(s);
    NoChunks(s[ChunkLength(s, 0)..]);
  }

  lemma NoChunks(s: string)
    ensures Chunks(s) == [] <==> s == ""
  {
    if s != "" { ChunkSome(s); }
  }

  lemma {:induction false} StripTwice(s: string)
    ensures StripNewline(StripNewline(s)) == StripNewline(s)
  {
    if s != "" && s[|s|-1] == '\n' { StripTwice(s[..|s|-1]); }
  }

  // ---- numbers ----

  function DigitOf(n: nat): char
    requires n < 10
  {
    '0' + n as char
  }

  function Dec(n: nat): string {
    if n < 10 then [DigitOf(n)] else Dec(n / 10) + [DigitOf(n % 10)]
  }

  /** "%jd" */
  function Jd(n: int): string { if n < 0 then "-" + Dec(-n) else Dec(n) }

  function SkipSpaces(s: string): string {
    if s != "" && s[0] in " \t\n\r\U{000b}\U{000c}" then SkipSpaces(s[1..]) else s
  }

  /** The number that `strtol` and its kin find, and what they leave; none if there are no digits. */
  function Strtol(line: string): (r: Option<(int, string)>) {
    var s := SkipSpaces(line);
    var u := if s != "" && (s[0] == '+' || s[0] == '-') then s[1..] else s;
    var n := Span(u, IsDigit);
    if n == 0 then None
    else
      var v: int := Value(u[..n]);
      Some((if s[0] == '-' then -v else v, u[n..]))
  }

  const TWO63: int := 0x8000_0000_0000_0000

  /** `_alpm_parsedate`: 0 for anything but a number that fits in 64 bits. */
  function ParseDate(line: string): int {
    match Strtol(line)
    case None => 0
    case Some((v, rest)) => if v < -TWO63 || v >= TWO63 || rest != "" then 0 else v
  }

  /** `_alpm_strtoofft`: -1 for anything but digits; the result is a signed 64-bit word. */
  function StrToOffT(line: string): int {
    var n := Span(line, IsDigit);
    if n == 0 || n < |line| then -1
    else
      var v := Value(line[..n]);
      if v >= 2 * TWO63 then -1 else if v >= TWO63 then v - 2 * TWO63 else v
  }

  /** `atoi`, through a 64-bit long. */
  function Atoi(line: string): int {
    match Strtol(line)
    case None => 0
    case Some((v, _)) =>
      var long := if v < -TWO63 then -TWO63 else if v >= TWO63 then TWO63 - 1 else v;
      var low := long % 0x1_0000_0000;
      if low >= 0x8000_0000 then low - 0x1_0000_0000 else low
  }

  lemma {:induction false} DecDigits(n: nat)
    ensures Dec(n) != "" && AllDigits(Dec(n)) && Value(Dec(n)) == n
  {
    if n >= 10 {
      DecDigits(n / 10);
      ValueSnoc(Dec(n / 10), DigitOf(n % 10));
    } else {
      assert Dec(n) == [] + [DigitOf(n)];
      ValueSnoc([], DigitOf(n));
    }
  }

  lemma RunOfDec(m: nat)
    ensures Span(Dec(m), IsDigit) == |Dec(m)| > 0 && Dec(m)[..Span(Dec(m), IsDigit)] == Dec(m) && Dec(m)[Span(Dec(m), IsDigit)..] == ""
    ensures IsDigit(Dec(m)[0]) && Value(Dec(m)) == m
  {
    hide Dec, Value;
    DecDigits(m);
    SpanIs(Dec(m), IsDigit, |Dec(m)|);
    assert IsDigit(Dec(m)[0]);
  }

  lemma StrtolPrinted(n: int)
    ensures Strtol(Jd(n)) == Some((n, ""))
  {
    hide Dec, Span, Value;
    var m: nat := if n < 0 then -n else n;
    RunOfDec(m);
    if n < 0 { assert Jd(n)[1..] == Dec(m); }
  }

  /** Dates that fit in 64 bits are read back. */
  lemma DateBack(n: int)
    requires -TWO63 <= n < TWO63
    ensures ParseDate(Jd(n)) == n
  {
    StrtolPrinted(n);
  }

  lemma ReasonBack(n: int)
    requires 0 <= n < 0x8000_0000
    ensures Atoi(Jd(n)) == n
  {
    StrtolPrinted(n);
  }

  /** What a size is read back as: a printed minus sign is no digit, and gives -1. */
  function SizeRead(n: int): int { if n < -1 then -1 else n }

  /** A size that fits in 64 bits is read back exactly if it is not below -1. */
  lemma SizeBack(n: int)
    requires -TWO63 <= n < TWO63
    ensures StrToOffT(Jd(n)) == SizeRead(n) && (StrToOffT(Jd(n)) == n <==> n >= -1)
  {
    if n >= 0 {
      DecDigits(n);
      SpanIs(Dec(n), IsDigit, |Dec(n)|);
      assert Dec(n)[..|Dec(n)|] == Dec(n);
    }
  }

  lemma {:induction false} DecLength(n: nat, k: nat)
    requires n < Pow10(k) && k > 0
    ensures |Dec(n)| <= k
    decreases k
  {
    if n >= 10 { DecLength(n / 10, k - 1); }
  }

  lemma JdFits(n: int)
    requires -TWO63 <= n <= TWO63
    ensures Fits(Jd(n)) && Jd(n) != ""
  {
    var m: nat := if n < 0 then -n else n;
    DecDigits(m);
    assert Pow10(20) == 100_000_000_000_000_000_000 by { TwentyDigits(); }
    DecLength(m, 20);
    forall k | 0 <= k < |Jd(n)| ensures Jd(n)[k] != '\n' {
      assert n >= 0 ==> IsDigit(Dec(m)[k]);
      assert n < 0 && k > 0 ==> Jd(n)[k] == Dec(m)[k-1] && IsDigit(Dec(m)[k-1]);
    }
  }

  lemma TwentyDigits()
    ensures Pow10(20) == 100_000_000_000_000_000_000
  {
    assert Pow10(4) == 10_000;
    assert Pow10(8) == 100_000_000;
    assert Pow10(12) == 1_000_000_000_000;
    assert Pow10(16) == 10_000_000_000_000_000;
  }

  // ---- the fields of a package ----

  datatype Backup = Backup(name: string, hash: Option<string>)

  datatype Validation = Validation(none: bool, md5: bool, sha256: bool, signature: bool)

  datatype Desc = Desc(
    base: Option<string>, desc: Option<string>, url: Option<string>, arch: Option<string>, packager: Option<string>,
    builddate: int, installdate: int, isize: int, reason: int,
    groups: seq<string>, licenses: seq<string>, validation: Validation,
    replacing: seq<Depend>, depends: seq<Depend>, optdepends: seq<Depend>, makedepends: seq<Depend>,
    checkdepends: seq<Depend>, conflicts: seq<Depend>, provisions: seq<Depend>)

  const NO_DESC: Desc :=
    Desc(None, None, None, None, None, 0, 0, 0, 0, [], [], Validation(false, false, false, false), [], [], [], [], [], [], [])

  datatype Header = NameH | VersionH | BaseH | DescH | GroupsH | UrlH | LicenseH | ArchH | BuilddateH | InstalldateH
                  | PackagerH | ReasonH | ValidationH | SizeH | ReplacesH | DependsH | OptdependsH | MakedependsH
                  | CheckdependsH | ConflictsH | ProvidesH | NoHeader

  function HeaderText(h: Header): string {
    match h
    case NameH => "%NAME%"
    case VersionH => "%VERSION%"
    case BaseH => "%BASE%"
    case DescH => "%DESC%"
    case GroupsH => "%GROUPS%"
    case UrlH => "%URL%"
    case LicenseH => "%LICENSE%"
    case ArchH => "%ARCH%"
    case BuilddateH => "%BUILDDATE%"
    case InstalldateH => "%INSTALLDATE%"
    case PackagerH => "%PACKAGER%"
    case ReasonH => "%REASON%"
    case ValidationH => "%VALIDATION%"
    case SizeH => "%SIZE%"
    case ReplacesH => "%REPLACES%"
    case DependsH => "%DEPENDS%"
    case OptdependsH => "%OPTDEPENDS%"
    case MakedependsH => "%MAKEDEPENDS%"
    case CheckdependsH => "%CHECKDEPENDS%"
    case ConflictsH => "%CONFLICTS%"
    case ProvidesH => "%PROVIDES%"
    case NoHeader => ""
  }

  /** The chain of comparisons of the reader. */
  function HeaderOf(line: string): Header {
    if line == HeaderText(NameH) then NameH
    else if line == HeaderText(VersionH) then VersionH
    else if line == HeaderText(BaseH) then BaseH
    else if line == HeaderText(DescH) then DescH
    else if line == HeaderText(GroupsH) then GroupsH
    else if line == HeaderText(UrlH) then UrlH
    else if line == HeaderText(LicenseH) then LicenseH
    else if line == HeaderText(ArchH) then ArchH
    else if line == HeaderText(BuilddateH) then BuilddateH
    else if line == HeaderText(InstalldateH) then InstalldateH
    else if line == HeaderText(PackagerH) then PackagerH
    else if line == HeaderText(ReasonH) then ReasonH
    else if line == HeaderText(ValidationH) then ValidationH
    else if line == HeaderText(SizeH) then SizeH
    else if line == HeaderText(ReplacesH) then ReplacesH
    else if line == HeaderText(DependsH) then DependsH
    else if line == HeaderText(OptdependsH) then OptdependsH
    else if line == HeaderText(MakedependsH) then MakedependsH
    else if line == HeaderText(CheckdependsH) then CheckdependsH
    else if line == HeaderText(ConflictsH) then ConflictsH
    else if line == HeaderText(ProvidesH) then ProvidesH
    else NoHeader
  }

  /** The length and the first two letters of a header, which tell the headers apart. */
  function Mark(h: Header): (nat, char, char) {
    match h
    case NameH => (6, 'N', 'A')
    case VersionH => (9, 'V', 'E')
    case BaseH => (6, 'B', 'A')
    case DescH => (6, 'D', 'E')
    case GroupsH => (8, 'G', 'R')
    case UrlH => (5, 'U', 'R')
    case LicenseH => (9, 'L', 'I')
    case ArchH => (6, 'A', 'R')
    case BuilddateH => (11, 'B', 'U')
    case InstalldateH => (13, 'I', 'N')
    case PackagerH => (10, 'P', 'A')
    case ReasonH => (8, 'R', 'E')
    case ValidationH => (12, 'V', 'A')
    case SizeH => (6, 'S', 'I')
    case ReplacesH => (10, 'R', 'E')
    case DependsH => (9, 'D', 'E')
    case OptdependsH => (12, 'O', 'P')
    case MakedependsH => (13, 'M', 'A')
    case CheckdependsH => (14, 'C', 'H')
    case ConflictsH => (11, 'C', 'O')
    case ProvidesH => (10, 'P', 'R')
    case NoHeader => (0, ' ', ' ')
  }

  lemma HeaderMarked(h: Header)
    ensures |HeaderText(h)| == Mark(h).0 && (h != NoHeader ==> HeaderText(h)[1] == Mark(h).1 && HeaderText(h)[2] == Mark(h).2)
  {
    hide OneLine;
  }

  lemma ShortPlain(h: Header)
    requires Mark(h).0 < 10
    ensures OneLine(HeaderText(h))
  {
  }

  lemma MiddlePlain(h: Header)
    requires 10 <= Mark(h).0 < 12
    ensures OneLine(HeaderText(h))
  {
  }

  lemma LongPlain(h: Header)
    requires Mark(h).0 >= 12
    ensures OneLine(HeaderText(h))
  {
  }

  lemma MarksDiffer(h: Header, g: Header)
    requires Mark(h) == Mark(g)
    ensures h == g
  {
  }

  lemma HeadersDiffer(h: Header, g: Header)
    requires HeaderText(h) == HeaderText(g)
    ensures h == g
  {
    hide HeaderText, Mark;
    HeaderMarked(h);
    HeaderMarked(g);
    if h == NoHeader || g == NoHeader { NoMark(h); NoMark(g); } else { MarksDiffer(h, g); }
  }

  lemma NoMark(h: Header)
    ensures Mark(h).0 == 0 <==> h == NoHeader
    ensures Mark(h).0 < 20
  {
  }

  lemma HeaderFound(line: string)
    ensures HeaderOf(line) != NoHeader ==> line == HeaderText(HeaderOf(line))
  {
    hide HeaderText;
  }

  lemma HeaderNotFound(line: string, h: Header)
    requires HeaderOf(line) == NoHeader && h != NoHeader
    ensures line != HeaderText(h)
  {
    hide HeaderText;
  }

  lemma HeaderBack(h: Header)
    ensures HeaderOf(HeaderText(h)) == h && Fits(HeaderText(h)) && (h != NoHeader ==> HeaderText(h) != "")
  {
    hide HeaderText, HeaderOf, Mark;
    HeaderMarked(h);
    if Mark(h).0 < 10 { ShortPlain(h); } else if Mark(h).0 < 12 { MiddlePlain(h); } else { LongPlain(h); }
    NoMark(h);
    HeaderFound(HeaderText(h));
    if HeaderOf(HeaderText(h)) != NoHeader {
      HeadersDiffer(h, HeaderOf(HeaderText(h)));
    } else if h != NoHeader {
      HeaderNotFound(HeaderText(h), h);
    }
  }

  // ---- reading a desc file ----

  predicate HasList(h: Header) {
    h == GroupsH || h == LicenseH || h == ValidationH || h == ReplacesH || h == DependsH || h == OptdependsH ||
    h == MakedependsH || h == CheckdependsH || h == ConflictsH || h == ProvidesH
  }

  function Parsed(items: seq<string>): (deps: seq<Depend>)
    ensures |deps| == |items| && forall i :: 0 <= i < |items| ==> deps[i] == FromString(items[i])
  {
    seq(|items|, i requires 0 <= i < |items| => FromString(items[i]))
  }

  function Flag(v: Validation, item: string): Validation {
    if item == "none" then v.(none := true)
    else if item == "md5" then v.(md5 := true)
    else if item == "sha256" then v.(sha256 := true)
    else if item == "pgp" then v.(signature := true)
    else v
  }

  function Flags(v: Validation, items: seq<string>): Validation {
    if items == [] then v else Flag(Flags(v, items[..|items|-1]), items[|items|-1])
  }

  function StoreValue(h: Header, v: string, d: Desc): Desc {
    match h
    case BaseH => d.(base := Some(v))
    case DescH => d.(desc := Some(v))
    case UrlH => d.(url := Some(v))
    case ArchH => d.(arch := Some(v))
    case BuilddateH => d.(builddate := ParseDate(v))
    case InstalldateH => d.(installdate := ParseDate(v))
    case PackagerH => d.(packager := Some(v))
    case ReasonH => d.(reason := Atoi(v))
    case SizeH => d.(isize := StrToOffT(v))
    case _ => d
  }

  function StoreDeps(h: Header, deps: seq<Depend>, d: Desc): Desc {
    match h
    case ReplacesH => d.(replacing := d.replacing + deps)
    case DependsH => d.(depends := d.depends + deps)
    case OptdependsH => d.(optdepends := d.optdepends + deps)
    case MakedependsH => d.(makedepends := d.makedepends + deps)
    case CheckdependsH => d.(checkdepends := d.checkdepends + deps)
    case ConflictsH => d.(conflicts := d.conflicts + deps)
    case ProvidesH => d.(provisions := d.provisions + deps)
    case _ => d
  }

  function StoreList(h: Header, items: seq<string>, d: Desc): Desc {
    match h
    case GroupsH => d.(groups := d.groups + items)
    case LicenseH => d.(licenses := d.licenses + items)
    case ValidationH => d.(validation := Flags(d.validation, items))
    case _ => StoreDeps(h, Parsed(items), d)
  }

  /** The items up to a blank line or the end of the file. */
  function TakeList(t: Tape): (r: (seq<string>, Tape))
    ensures |r.1.lines| <= |t.lines| && (t.eof ==> r.1.eof)
    decreases |t.lines|
  {
    if t.lines == [] || t.lines[0] == "" then ([], Next(t))
    else
      var r := TakeList(Next(t));
      ([t.lines[0]] + r.0, r.1)
  }

  /** What the section whose header is in the buffer does. */
  function Section(t: Tape, d: Desc): (r: (Desc, Tape))
    ensures |r.1.lines| <= |t.lines| && (t.eof ==> r.1.eof)
  {
    var h := HeaderOf(t.line);
    if h == NoHeader then (d, t)
    else if HasList(h) then
      var r := TakeList(t);
      (StoreList(h, r.0, d), r.1)
    else (StoreValue(h, Next(t).line, d), Next(t))
  }

  /** The loop over the file. */
  function DescFrom(t: Tape, d: Desc): Desc
    decreases !t.eof, |t.lines|
  {
    if t.eof then d
    else
      var u := Next(t);
      if u.line == "" then DescFrom(u, d)
      else
        var r := Section(u, d);
        DescFrom(r.1, r.0)
  }

  /** One more item of a list, or its end. */
  lemma TakeStep(items: seq<string>, t: Tape)
    ensures t.lines == [] || Next(t).line == "" ==> TakeList(t) == ([], Next(t)) && items + TakeList(t).0 == items
    ensures t.lines != [] && Next(t).line != "" ==>
              items + TakeList(t).0 == (items + [Next(t).line]) + TakeList(Next(t)).0 && TakeList(t).1 == TakeList(Next(t)).1
  {
    if t.lines != [] && t.lines[0] != "" {
      TakeOne(t);
      Regroup(items, t.lines[0], TakeList(Next(t)).0);
    }
  }

  lemma TakeOne(t: Tape)
    requires t.lines != [] && t.lines[0] != ""
    ensures Next(t).line == t.lines[0]
    ensures TakeList(t).0 == [t.lines[0]] + TakeList(Next(t)).0 && TakeList(t).1 == TakeList(Next(t)).1
  {
  }

  lemma Regroup(items: seq<string>, item: string, rest: seq<string>)
    ensures items + ([item] + rest) == (items + [item]) + rest
  {
  }

  /** `READ_AND_STORE_ALL` */
  method ReadAndStoreAll(fp: Stream) returns (items: seq<string>)
    requires fp.Valid()
    modifies fp
    ensures fp.Valid() && (items, fp.View()) == TakeList(old(fp.View()))
  {
    hide TakeList, Chunks, Ragged;
    items := [];
    ghost var all := TakeList(fp.View());
    assert [] + all.0 == all.0;
    while true
      invariant fp.Valid() && all == (items + TakeList(fp.View()).0, TakeList(fp.View()).1)
      decreases |fp.View().lines|
    {
      TakeStep(items, fp.View());
      var ok := fp.ReadLine();
      if !ok || fp.line == "" { return; }
      items := items + [fp.line];
    }
  }

  /** `READ_AND_SPLITDEP` */
  method ReadAndSplitDep(fp: Stream) returns (deps: seq<Depend>)
    requires fp.Valid()
    modifies fp
    ensures fp.Valid() && deps == Parsed(TakeList(old(fp.View())).0) && fp.View() == TakeList(old(fp.View())).1
  {
    hide FromString, Parsed, TakeList, Chunks, Ragged;
    deps := [];
    ghost var items: seq<string>, all := [], TakeList(fp.View());
    assert [] + all.0 == all.0;
    NothingParsed();
    while true
      invariant fp.Valid() && all == (items + TakeList(fp.View()).0, TakeList(fp.View()).1)
      invariant deps == Parsed(items)
      decreases |fp.View().lines|
    {
      TakeStep(items, fp.View());
      var ok := fp.ReadLine();
      if !ok || fp.line == "" { return; }
      var dep := AlpmDepFromString(fp.line);
      ParsedNext(items, fp.line);
      deps, items := deps + [dep], items + [fp.line];
    }
  }

  lemma NothingParsed()
    ensures Parsed([]) == []
  {
  }

  lemma ParsedNext(items: seq<string>, item: string)
    ensures Parsed(items + [item]) == Parsed(items) + [FromString(item)]
  {
    hide FromString;
  }

  /** The fields that the reader fills. */
  class Info {
    const name: string
    const version: string
    var desc: Desc
    var files: seq<string>
    var backup: seq<Backup>

    constructor (name: string, version: string)
      ensures this.name == name && this.version == version && desc == NO_DESC && files == [] && backup == []
    {
      this.name, this.version := name, version;
      desc, files, backup := NO_DESC, [], [];
    }
  }

  /** The sections with a list of strings or dependencies. */
  method ReadListSection(fp: Stream, info: Info, h: Header)
    requires fp.Valid() && HasList(h)
    modifies fp, info`desc
    ensures fp.Valid() && fp.View() == TakeList(old(fp.View())).1
    ensures info.desc == StoreList(h, TakeList(old(fp.View())).0, old(info.desc))
  {
    hide TakeList, Flags, StoreDeps, Parsed, Chunks, Ragged;
    if h == GroupsH || h == LicenseH || h == ValidationH {
      var items := ReadAndStoreAll(fp);
      if h == GroupsH {
        info.desc := info.desc.(groups := info.desc.groups + items);
      } else if h == LicenseH {
        info.desc := info.desc.(licenses := info.desc.licenses + items);
      } else {
        var v := SetFlags(info.desc.validation, items);
        info.desc := info.desc.(validation := v);
      }
    } else {
      var deps := ReadAndSplitDep(fp);
      info.desc := StoreDeps(h, deps, info.desc);
    }
  }

  method SetFlags(v0: Validation, items: seq<string>) returns (v: Validation)
    ensures v == Flags(v0, items)
  {
    hide Flag;
    v := v0;
    var i := 0;
    while i < |items|
      invariant i <= |items| && v == Flags(v0, items[..i])
    {
      assert items[..i+1][..i] == items[..i];
      v := Flag(v, items[i]);
      i := i + 1;
    }
    assert items[..|items|] == items;
  }

  /** `local_db_read` on the desc file. */
  method ReadDesc(fp: Stream, info: Info)
    requires fp.Valid()
    modifies fp, info`desc
    ensures fp.Valid() && info.desc == DescFrom(old(fp.View()), old(info.desc))
  {
    hide Section, StoreValue, StoreList, HeaderOf, TakeList;
    while !fp.eof
      invariant fp.Valid() && DescFrom(fp.View(), info.desc) == DescFrom(old(fp.View()), old(info.desc))
      decreases !fp.eof, |fp.View().lines|
    {
      ghost var t, d := fp.View(), info.desc;
      var ok := fp.ReadLine();
      if fp.line != "" {
        ghost var u := fp.View();
        SectionMeans(u, d);
        var h := HeaderOf(fp.line);
        if h != NoHeader {
          if HasList(h) {
            ReadListSection(fp, info, h);
          } else {
            ok := fp.ReadLine();
            info.desc := StoreValue(h, fp.line, info.desc);
          }
        }
        assert (info.desc, fp.View()) == Section(u, d);
      }
    }
  }

  lemma SectionMeans(t: Tape, d: Desc)
    ensures var h := HeaderOf(t.line);
            Section(t, d) == if h == NoHeader then (d, t)
                             else if HasList(h) then (StoreList(h, TakeList(t).0, d), TakeList(t).1)
                             else (StoreValue(h, Next(t).line, d), Next(t))
  {
    hide HeaderOf, StoreList, StoreValue, TakeList;
  }

  // ---- sections and their lines ----

  datatype Part = Line(h: Header, v: string) | Items(h: Header, items: seq<string>)

  function PartLines(p: Part): seq<string> {
    match p
    case Line(h, v) => [HeaderText(h), v, ""]
    case Items(h, items) => [HeaderText(h)] + items + [""]
  }

  function Flatten(parts: seq<Part>): seq<string> {
    if parts == [] then [] else PartLines(parts[0]) + Flatten(parts[1..])
  }

  function Store(p: Part, d: Desc): Desc {
    match p
    case Line(h, v) => StoreValue(h, v, d)
    case Items(h, items) => StoreList(h, items, d)
  }

  function StoreParts(parts: seq<Part>, d: Desc): Desc {
    if parts == [] then d else StoreParts(parts[1..], Store(parts[0], d))
  }

  predicate GoodItem(s: string) { s != "" && Fits(s) }

  /** A part that is read back: its lines fit, and list items are not blank. */
  predicate GoodPart(p: Part) {
    p.h != NoHeader &&
    match p
    case Line(h, v) => !HasList(h) && Fits(v)
    case Items(h, items) => HasList(h) && forall i :: 0 <= i < |items| ==> GoodItem(items[i])
  }

  lemma {:induction false} TakeItems(items: seq<string>, rest: seq<string>, line: string)
    requires forall i :: 0 <= i < |items| ==> items[i] != ""
    ensures TakeList(Tape(items + [""] + rest, false, line, false)) == (items, Tape(rest, false, "", false))
  {
    var t := Tape(items + [""] + rest, false, line, false);
    if items == [] {
      assert t.lines[1..] == rest;
    } else {
      assert t.lines[0] == items[0] && t.lines[1..] == items[1..] + [""] + rest;
      TakeItems(items[1..], rest, items[0]);
      assert items == [items[0]] + items[1..];
    }
  }

  lemma ValueRead(h: Header, v: string, rest: seq<string>, d: Desc)
    requires GoodPart(Line(h, v))
    ensures DescFrom(Tape([HeaderText(h), v, ""] + rest, false, "", false), d) ==
            DescFrom(Tape(rest, false, "", false), StoreValue(h, v, d))
  {
    hide StoreValue, StoreList, HeaderOf, HeaderText, TakeList, Fits, Section, Next;
    HeaderBack(h);
    BlankHeader();
    var t := Tape([HeaderText(h), v, ""] + rest, false, "", false);
    assert t.lines == [HeaderText(h)] + ([v, ""] + rest);
    NextIs(HeaderText(h), [v, ""] + rest, "");
    var u := Tape([v, ""] + rest, false, HeaderText(h), false);
    SectionMeans(u, d);
    assert u.lines == [v] + ([""] + rest);
    NextIs(v, [""] + rest, HeaderText(h));
    NextIs("", rest, v);
  }

  lemma NextIs(line: string, rest: seq<string>, buffer: string)
    ensures Next(Tape([line] + rest, false, buffer, false)) == Tape(rest, false, line, false)
  {
  }

  lemma BlankHeader()
    ensures HeaderOf("") == NoHeader
  {
    HeaderBack(NoHeader);
  }

  lemma ItemsRead(h: Header, items: seq<string>, rest: seq<string>, d: Desc)
    requires GoodPart(Items(h, items))
    ensures DescFrom(Tape([HeaderText(h)] + items + [""] + rest, false, "", false), d) ==
            DescFrom(Tape(rest, false, "", false), StoreList(h, items, d))
  {
    hide StoreValue, StoreList, HeaderOf, HeaderText, TakeList, Fits, Section;
    HeaderBack(h);
    var t := Tape([HeaderText(h)] + items + [""] + rest, false, "", false);
    var u := Tape(items + [""] + rest, false, HeaderText(h), false);
    assert Next(t) == u by { assert t.lines[1..] == u.lines; }
    SectionMeans(u, d);
    TakeItems(items, rest, HeaderText(h));
  }

  /** Reading the lines of one part stores it and leaves the reader at the next. */
  lemma PartRead(p: Part, rest: seq<string>, d: Desc)
    requires GoodPart(p)
    ensures DescFrom(Tape(PartLines(p) + rest, false, "", false), d) == DescFrom(Tape(rest, false, "", false), Store(p, d))
  {
    hide StoreValue, StoreList, HeaderText, DescFrom, GoodPart;
    match p
    case Line(h, v) => ValueRead(h, v, rest, d);
    case Items(h, items) => ItemsRead(h, items, rest, d);
  }

  /** Reading what the parts were written as stores them in order. */
  lemma {:induction false} PartsRead(parts: seq<Part>, d: Desc)
    requires forall i :: 0 <= i < |parts| ==> GoodPart(parts[i])
    ensures DescFrom(Tape(Flatten(parts), false, "", false), d) == StoreParts(parts, d)
  {
    hide PartLines, Store, GoodPart;
    if parts == [] {
      AtTheEnd(d);
    } else {
      PartRead(parts[0], Flatten(parts[1..]), d);
      PartsRead(parts[1..], Store(parts[0], d));
    }
  }

  lemma AtTheEnd(d: Desc)
    ensures DescFrom(Tape([], false, "", false), d) == d
  {
    var t := Next(Tape([], false, "", false));
    assert t == Tape([], false, "", true);
  }

  lemma {:induction false} FlattenFits(parts: seq<Part>)
    requires forall i :: 0 <= i < |parts| ==> GoodPart(parts[i])
    ensures forall k :: 0 <= k < |Flatten(parts)| ==> Fits(Flatten(parts)[k])
  {
    hide HeaderText, Fits;
    if parts != [] {
      FlattenFits(parts[1..]);
      PartFits(parts[0]);
    }
  }

  lemma PartFits(p: Part)
    requires GoodPart(p)
    ensures forall k :: 0 <= k < |PartLines(p)| ==> Fits(PartLines(p)[k])
  {
    hide HeaderText, HeaderOf;
    HeaderBack(p.h);
  }

  // ---- what is written ----

  function Texts(h: Header, v: Option<string>): seq<Part> { if v.Some? then [Line(h, v.value)] else [] }

  function Number(h: Header, n: int): seq<Part> { if n != 0 then [Line(h, Jd(n))] else [] }

  function Listed(h: Header, items: seq<string>): seq<Part> { if items != [] then [Items(h, items)] else [] }

  function Printed(deps: seq<Depend>): (items: seq<string>)
    ensures |items| == |deps| && forall i :: 0 <= i < |deps| ==> items[i] == ComputeString(deps[i])
  {
    seq(|deps|, i requires 0 <= i < |deps| => ComputeString(deps[i]))
  }

  function ValidationNames(v: Validation): seq<string> {
    (if v.none then ["none"] else []) + (if v.md5 then ["md5"] else []) +
    (if v.sha256 then ["sha256"] else []) + (if v.signature then ["pgp"] else [])
  }

  function NameParts(name: string, version: string, d: Desc): seq<Part> {
    [Line(NameH, name), Line(VersionH, version)] +
    (Texts(BaseH, d.base) + (Texts(DescH, d.desc) + (Texts(UrlH, d.url) + Texts(ArchH, d.arch))))
  }

  function NumberParts(d: Desc): seq<Part> {
    Number(BuilddateH, d.builddate) + (Number(InstalldateH, d.installdate) + (Texts(PackagerH, d.packager) +
    (Number(SizeH, d.isize) + Number(ReasonH, d.reason))))
  }

  function ListParts(d: Desc): seq<Part> {
    Listed(GroupsH, d.groups) + (Listed(LicenseH, d.licenses) + Listed(ValidationH, ValidationNames(d.validation)))
  }

  function DepParts(d: Desc): seq<Part> {
    Listed(ReplacesH, Printed(d.replacing)) + (Listed(DependsH, Printed(d.depends)) + (Listed(OptdependsH, Printed(d.optdepends)) +
    (Listed(ConflictsH, Printed(d.conflicts)) + Listed(ProvidesH, Printed(d.provisions)))))
  }

  /** The sections of a desc file, in the order of the writer. */
  function DescParts(name: string, version: string, d: Desc): seq<Part> {
    NameParts(name, version, d) + (NumberParts(d) + (ListParts(d) + DepParts(d)))
  }

  lemma {:induction false} UnlinesJoin(a: seq<string>, b: seq<string>)
    ensures Unlines(a + b) == Unlines(a) + Unlines(b)
  {
    if a == [] {
      assert [] + b == b;
    } else {
      assert (a + b)[1..] == a[1..] + b;
      UnlinesJoin(a[1..], b);
    }
  }

  lemma {:induction false} FlattenJoin(a: seq<Part>, b: seq<Part>)
    ensures Flatten(a + b) == Flatten(a) + Flatten(b)
  {
    hide PartLines;
    if a == [] {
      assert [] + b == b;
    } else {
      assert (a + b)[1..] == a[1..] + b;
      FlattenJoin(a[1..], b);
    }
  }

  /** The text of some sections. */
  function TextOf(parts: seq<Part>): string { Unlines(Flatten(parts)) }

  lemma TextJoin(a: seq<Part>, b: seq<Part>)
    ensures TextOf(a + b) == TextOf(a) + TextOf(b)
  {
    FlattenJoin(a, b);
    UnlinesJoin(Flatten(a), Flatten(b));
  }

  lemma TextOfOne(p: Part)
    ensures TextOf([p]) == Unlines(PartLines(p)) && TextOf([]) == ""
  {
    hide PartLines;
    assert Flatten([p]) == PartLines(p) + Flatten([]) == PartLines(p);
  }

  lemma {:induction false} UnlinesNext(lines: seq<string>, line: string)
    ensures Unlines(lines + [line]) == Unlines(lines) + line + "\n"
  {
    UnlinesJoin(lines, [line]);
    assert Unlines([line]) == line + "\n" + "";
  }

  lemma ValueText(h: Header, v: string)
    ensures TextOf([Line(h, v)]) == HeaderText(h) + "\n" + v + "\n\n"
  {
    hide HeaderText;
    TextOfOne(Line(h, v));
    var l := HeaderText(h);
    assert [l, v, ""] == ([l] + [v]) + [""];
    UnlinesNext([l] + [v], "");
    UnlinesNext([l], v);
    UnlinesNext([], l);
    assert [] + [l] == [l];
  }

  lemma ItemsText(h: Header, items: seq<string>)
    ensures TextOf([Items(h, items)]) == HeaderText(h) + "\n" + Unlines(items) + "\n"
  {
    hide HeaderText;
    TextOfOne(Items(h, items));
    UnlinesNext([HeaderText(h)] + items, "");
    UnlinesJoin([HeaderText(h)], items);
    UnlinesNext([], HeaderText(h));
    assert [] + [HeaderText(h)] == [HeaderText(h)];
  }

  lemma NothingWritten()
    ensures TextOf([]) == "" && Unlines([]) == ""
  {
  }

  /** The file that the writer appends to. */
  class Output {
    var text: string

    constructor ()
      ensures text == ""
    {
      text := "";
    }

    method PutValue(h: Header, v: string)
      modifies this
      ensures text == old(text) + TextOf([Line(h, v)])
    {
      ValueText(h, v);
      text := text + (HeaderText(h) + "\n" + v + "\n\n");
    }

    method PutText(h: Header, v: Option<string>)
      modifies this
      ensures text == old(text) + TextOf(Texts(h, v))
    {
      if v.Some? { PutValue(h, v.value); }
    }

    method PutNumber(h: Header, n: int)
      modifies this
      ensures text == old(text) + TextOf(Number(h, n))
    {
      if n != 0 { PutValue(h, Jd(n)); }
    }

    method PutList(h: Header, items: seq<string>)
      modifies this
      ensures text == old(text) + TextOf(Listed(h, items))
    {
      hide TextOf, HeaderText, PartLines;
      NothingWritten();
      if items == [] { return; }
      text := text + (HeaderText(h) + "\n");
      ghost var head := text;
      var i := 0;
      while i < |items|
        invariant i <= |items| && text == head + Unlines(items[..i])
      {
        assert items[..i+1] == items[..i] + [items[i]];
        UnlinesNext(items[..i], items[i]);
        text := text + items[i] + "\n";
        i := i + 1;
      }
      assert items[..|items|] == items;
      text := text + "\n";
      ItemsText(h, items);
    }

    /** `write_deps` */
    method WriteDeps(h: Header, deplist: seq<Depend>)
      modifies this
      ensures text == old(text) + TextOf(Listed(h, Printed(deplist)))
    {
      hide ComputeString, TextOf, HeaderText, PartLines;
      NothingWritten();
      if deplist == [] { return; }
      text := text + (HeaderText(h) + "\n");
      ghost var head, items := text, Printed(deplist);
      var i := 0;
      while i < |deplist|
        invariant i <= |deplist| && text == head + Unlines(items[..i])
      {
        assert items[..i+1] == items[..i] + [items[i]];
        UnlinesNext(items[..i], items[i]);
        text := text + ComputeString(deplist[i]) + "\n";
        i := i + 1;
      }
      assert items[..|items|] == items;
      text := text + "\n";
      ItemsText(h, items);
    }

    method WriteNames(name: string, version: string, d: Desc)
      modifies this
      ensures text == old(text) + TextOf(NameParts(name, version, d))
    {
      hide TextOf, Texts;
      ghost var start := text;
      PutValue(NameH, name);
      PutValue(VersionH, version);
      assert [Line(NameH, name), Line(VersionH, version)] == [Line(NameH, name)] + [Line(VersionH, version)];
      TextJoin([Line(NameH, name)], [Line(VersionH, version)]);
      PutText(BaseH, d.base);
      PutText(DescH, d.desc);
      PutText(UrlH, d.url);
      PutText(ArchH, d.arch);
      var ba, de, ur, ar := Texts(BaseH, d.base), Texts(DescH, d.desc), Texts(UrlH, d.url), Texts(ArchH, d.arch);
      TextJoin(ur, ar);
      TextJoin(de, ur + ar);
      TextJoin(ba, de + (ur + ar));
      TextJoin([Line(NameH, name), Line(VersionH, version)], ba + (de + (ur + ar)));
    }

    method WriteNumbers(d: Desc)
      modifies this
      ensures text == old(text) + TextOf(NumberParts(d))
    {
      hide TextOf, Texts, Number;
      PutNumber(BuilddateH, d.builddate);
      PutNumber(InstalldateH, d.installdate);
      PutText(PackagerH, d.packager);
      PutNumber(SizeH, d.isize);
      PutNumber(ReasonH, d.reason);
      var bu, ins, pa := Number(BuilddateH, d.builddate), Number(InstalldateH, d.installdate), Texts(PackagerH, d.packager);
      var si, re := Number(SizeH, d.isize), Number(ReasonH, d.reason);
      TextJoin(si, re);
      TextJoin(pa, si + re);
      TextJoin(ins, pa + (si + re));
      TextJoin(bu, ins + (pa + (si + re)));
    }

    method WriteLists(d: Desc)
      modifies this
      ensures text == old(text) + TextOf(ListParts(d))
    {
      hide TextOf, Listed, ValidationNames;
      PutList(GroupsH, d.groups);
      PutList(LicenseH, d.licenses);
      PutList(ValidationH, ValidationNames(d.validation));
      var gr, li, va := Listed(GroupsH, d.groups), Listed(LicenseH, d.licenses), Listed(ValidationH, ValidationNames(d.validation));
      TextJoin(li, va);
      TextJoin(gr, li + va);
    }

    method WriteAllDeps(d: Desc)
      modifies this
      ensures text == old(text) + TextOf(DepParts(d))
    {
      hide TextOf, Listed, Printed;
      WriteDeps(ReplacesH, d.replacing);
      WriteDeps(DependsH, d.depends);
      WriteDeps(OptdependsH, d.optdepends);
      WriteDeps(ConflictsH, d.conflicts);
      WriteDeps(ProvidesH, d.provisions);
      var re, de, op := Listed(ReplacesH, Printed(d.replacing)), Listed(DependsH, Printed(d.depends)), Listed(OptdependsH, Printed(d.optdepends));
      var co, pr := Listed(ConflictsH, Printed(d.conflicts)), Listed(ProvidesH, Printed(d.provisions));
      TextJoin(co, pr);
      TextJoin(op, co + pr);
      TextJoin(de, op + (co + pr));
      TextJoin(re, de + (op + (co + pr)));
    }

    /** `_alpm_local_db_write` on the desc file. */
    method WriteDesc(info: Info)
      modifies this
      ensures text == old(text) + TextOf(DescParts(info.name, info.version, info.desc))
    {
      hide TextOf, NameParts, NumberParts, ListParts, DepParts;
      var d := info.desc;
      WriteNames(info.name, info.version, d);
      WriteNumbers(d);
      WriteLists(d);
      WriteAllDeps(d);
      TextJoin(ListParts(d), DepParts(d));
      TextJoin(NumberParts(d), ListParts(d) + DepParts(d));
      TextJoin(NameParts(info.name, info.version, d), NumberParts(d) + (ListParts(d) + DepParts(d)));
    }
  }

  // ---- reading back what was written ----

  lemma {:induction false} StoreJoin(a: seq<Part>, b: seq<Part>, d: Desc)
    ensures StoreParts(a + b, d) == StoreParts(b, StoreParts(a, d))
  {
    hide Store;
    if a == [] {
      assert [] + b == b;
    } else {
      assert (a + b)[1..] == a[1..] + b;
      StoreJoin(a[1..], b, Store(a[0], d));
    }
  }

  lemma StoreOne(p: Part, d: Desc)
    ensures StoreParts([p], d) == Store(p, d) && StoreParts([], d) == d
  {
    hide Store;
    assert [p][1..] == [];
  }

  /** Storing optional texts, numbers and lists. */
  lemma StoreTexts(h: Header, v: Option<string>, d: Desc)
    ensures StoreParts(Texts(h, v), d) == if v.Some? then StoreValue(h, v.value, d) else d
  {
    hide StoreValue;
    if v.Some? { StoreOne(Line(h, v.value), d); }
  }

  lemma StoreNumber(h: Header, n: int, d: Desc)
    ensures StoreParts(Number(h, n), d) == if n != 0 then StoreValue(h, Jd(n), d) else d
  {
    hide StoreValue;
    if n != 0 { StoreOne(Line(h, Jd(n)), d); }
  }

  lemma StoreListed(h: Header, items: seq<string>, d: Desc)
    ensures StoreParts(Listed(h, items), d) == if items != [] then StoreList(h, items, d) else d
  {
    hide StoreList;
    if items != [] { StoreOne(Items(h, items), d); }
  }

  lemma NamesStored(name: string, version: string, d: Desc)
    ensures StoreParts(NameParts(name, version, d), NO_DESC) ==
            NO_DESC.(base := d.base, desc := d.desc, url := d.url, arch := d.arch)
  {
    hide StoreParts, Texts;
    var ba, de, ur, ar := Texts(BaseH, d.base), Texts(DescH, d.desc), Texts(UrlH, d.url), Texts(ArchH, d.arch);
    var nv := [Line(NameH, name), Line(VersionH, version)];
    StoreJoin(nv, ba + (de + (ur + ar)), NO_DESC);
    assert nv == [Line(NameH, name)] + [Line(VersionH, version)];
    StoreJoin([Line(NameH, name)], [Line(VersionH, version)], NO_DESC);
    StoreOne(Line(NameH, name), NO_DESC);
    StoreOne(Line(VersionH, version), NO_DESC);
    var d1 := NO_DESC.(base := d.base);
    var d2 := d1.(desc := d.desc);
    var d3 := d2.(url := d.url);
    StoreJoin(ba, de + (ur + ar), NO_DESC);
    StoreTexts(BaseH, d.base, NO_DESC);
    StoreJoin(de, ur + ar, d1);
    StoreTexts(DescH, d.desc, d1);
    StoreJoin(ur, ar, d2);
    StoreTexts(UrlH, d.url, d2);
    StoreTexts(ArchH, d.arch, d3);
  }

  /** The numbers are in the range of their types. */
  predicate GoodNumbers(d: Desc) {
    -TWO63 <= d.builddate < TWO63 && -TWO63 <= d.installdate < TWO63 && -TWO63 <= d.isize < TWO63 && 0 <= d.reason < 0x8000_0000
  }

  lemma DatesStored(n: int, e: Desc)
    requires -TWO63 <= n < TWO63
    ensures e.builddate == 0 ==> StoreParts(Number(BuilddateH, n), e) == e.(builddate := n)
    ensures e.installdate == 0 ==> StoreParts(Number(InstalldateH, n), e) == e.(installdate := n)
  {
    hide StoreParts, Number, Jd, ParseDate;
    DateBack(n);
    StoreNumber(BuilddateH, n, e);
    StoreNumber(InstalldateH, n, e);
  }

  lemma SizeStored(n: int, e: Desc)
    requires -TWO63 <= n < TWO63 && e.isize == 0
    ensures StoreParts(Number(SizeH, n), e) == e.(isize := SizeRead(n))
  {
    hide StoreParts, Number, Jd, StrToOffT;
    SizeBack(n);
    StoreNumber(SizeH, n, e);
  }

  lemma ReasonStored(n: int, e: Desc)
    requires 0 <= n < 0x8000_0000 && e.reason == 0
    ensures StoreParts(Number(ReasonH, n), e) == e.(reason := n)
  {
    hide StoreParts, Number, Jd, Atoi;
    ReasonBack(n);
    StoreNumber(ReasonH, n, e);
  }

  lemma PackagerStored(v: Option<string>, e: Desc)
    requires e.packager == None
    ensures StoreParts(Texts(PackagerH, v), e) == e.(packager := v)
  {
    hide StoreParts, Texts;
    StoreTexts(PackagerH, v, e);
  }

  lemma NumbersStored(d: Desc, e: Desc)
    requires GoodNumbers(d) && e.builddate == e.installdate == e.isize == e.reason == 0 && e.packager == None
    ensures StoreParts(NumberParts(d), e) ==
            e.(builddate := d.builddate, installdate := d.installdate, packager := d.packager, isize := SizeRead(d.isize), reason := d.reason)
  {
    hide StoreParts, Texts, Number, SizeRead;
    var bu, ins, pa := Number(BuilddateH, d.builddate), Number(InstalldateH, d.installdate), Texts(PackagerH, d.packager);
    var si, re := Number(SizeH, d.isize), Number(ReasonH, d.reason);
    var e1 := e.(builddate := d.builddate);
    var e2 := e1.(installdate := d.installdate);
    var e3 := e2.(packager := d.packager);
    var e4 := e3.(isize := SizeRead(d.isize));
    StoreJoin(bu, ins + (pa + (si + re)), e);
    DatesStored(d.builddate, e);
    StoreJoin(ins, pa + (si + re), e1);
    DatesStored(d.installdate, e1);
    StoreJoin(pa, si + re, e2);
    PackagerStored(d.packager, e2);
    StoreJoin(si, re, e3);
    SizeStored(d.isize, e3);
    ReasonStored(d.reason, e4);
  }

  /** The names of one flag set it and no other. */
  lemma FlagIf(v: Validation, on: bool)
    ensures !v.none ==> Flags(v, if on then ["none"] else []) == v.(none := on)
    ensures !v.md5 ==> Flags(v, if on then ["md5"] else []) == v.(md5 := on)
    ensures !v.sha256 ==> Flags(v, if on then ["sha256"] else []) == v.(sha256 := on)
    ensures !v.signature ==> Flags(v, if on then ["pgp"] else []) == v.(signature := on)
  {
    hide Flags;
    FlagOne(v);
  }

  lemma FlagsBack(v: Validation)
    ensures Flags(Validation(false, false, false, false), ValidationNames(v)) == v
  {
    hide Flags;
    var a := if v.none then ["none"] else [];
    var b := if v.md5 then ["md5"] else [];
    var c := if v.sha256 then ["sha256"] else [];
    var e := if v.signature then ["pgp"] else [];
    var v0 := Validation(false, false, false, false);
    var v1 := v0.(none := v.none);
    var v2 := v1.(md5 := v.md5);
    var v3 := v2.(sha256 := v.sha256);
    FlagIf(v0, v.none);
    FlagIf(v1, v.md5);
    FlagIf(v2, v.sha256);
    FlagIf(v3, v.signature);
    FlagsJoin(v0, a, b + (c + e));
    FlagsJoin(v1, b, c + e);
    FlagsJoin(v2, c, e);
    assert ValidationNames(v) == a + (b + (c + e));
  }

  lemma FlagOne(v: Validation)
    ensures Flags(v, []) == v && Flags(v, ["none"]) == v.(none := true) && Flags(v, ["md5"]) == v.(md5 := true)
    ensures Flags(v, ["sha256"]) == v.(sha256 := true) && Flags(v, ["pgp"]) == v.(signature := true)
  {
    NamesDiffer();
    assert ["none"][..0] == [] && ["md5"][..0] == [] && ["sha256"][..0] == [] && ["pgp"][..0] == [];
  }

  lemma NamesDiffer()
    ensures "md5" != "none" && "sha256" != "none" && "sha256" != "md5" && "pgp" != "none" && "pgp" != "md5" && "pgp" != "sha256"
  {
    assert |"md5"| == 3 && |"none"| == 4 && |"sha256"| == 6 && |"pgp"| == 3;
    assert "md5"[0] == 'm' && "pgp"[0] == 'p';
  }

  lemma {:induction false} FlagsJoin(v: Validation, a: seq<string>, b: seq<string>)
    ensures Flags(v, a + b) == Flags(Flags(v, a), b)
    decreases |b|
  {
    hide Flag;
    if b == [] {
      assert a + [] == a;
    } else {
      assert (a + b)[..|a+b|-1] == a + b[..|b|-1] && (a + b)[|a+b|-1] == b[|b|-1];
      FlagsJoin(v, a, b[..|b|-1]);
    }
  }

  lemma ListsStored(d: Desc, e: Desc)
    requires e.groups == [] && e.licenses == [] && e.validation == Validation(false, false, false, false)
    ensures StoreParts(ListParts(d), e) == e.(groups := d.groups, licenses := d.licenses, validation := d.validation)
  {
    hide StoreParts, Listed, Flags, ValidationNames;
    var names := ValidationNames(d.validation);
    var gr, li, va := Listed(GroupsH, d.groups), Listed(LicenseH, d.licenses), Listed(ValidationH, names);
    var e1 := e.(groups := d.groups);
    var e2 := e1.(licenses := d.licenses);
    FlagsBack(d.validation);
    NoFlags(d.validation);
    StoreJoin(gr, li + va, e);
    StoreListed(GroupsH, d.groups, e);
    assert [] + d.groups == d.groups && [] + d.licenses == d.licenses;
    StoreJoin(li, va, e1);
    StoreListed(LicenseH, d.licenses, e1);
    StoreListed(ValidationH, names, e2);
  }

  lemma NoFlags(v: Validation)
    ensures ValidationNames(v) == [] ==> v == Validation(false, false, false, false)
  {
  }

  /** Dependencies that their own text gives back. */
  predicate GoodDeps(deps: seq<Depend>) {
    forall i :: 0 <= i < |deps| ==> Printable(deps[i]) && GoodItem(ComputeString(deps[i]))
  }

  lemma ParsedPrinted(deps: seq<Depend>)
    requires GoodDeps(deps)
    ensures Parsed(Printed(deps)) == deps
  {
    hide Printable, ComputeString, FromString, GoodItem;
    forall i | 0 <= i < |deps| ensures FromString(ComputeString(deps[i])) == deps[i] { ParsePrinted(deps[i]); }
  }

  predicate AllGoodDeps(d: Desc) {
    GoodDeps(d.replacing) && GoodDeps(d.depends) && GoodDeps(d.optdepends) && GoodDeps(d.conflicts) && GoodDeps(d.provisions)
  }

  /** A section of dependencies is stored, and what follows it is stored into the result. */
  lemma DepSection(h: Header, deps: seq<Depend>, rest: seq<Part>, e: Desc, f: Desc)
    requires GoodDeps(deps) && f == StoreDeps(h, deps, e) && (deps == [] ==> f == e) && HasDeps(h)
    ensures StoreParts(Listed(h, Printed(deps)) + rest, e) == StoreParts(rest, f)
  {
    hide StoreParts, Listed, Printed, Parsed, GoodDeps, StoreDeps;
    DepsBack(deps);
    StoreJoin(Listed(h, Printed(deps)), rest, e);
    StoreListed(h, Printed(deps), e);
    assert [] + Parsed(Printed(deps)) == Parsed(Printed(deps));
  }

  predicate HasDeps(h: Header) { h in {ReplacesH, DependsH, OptdependsH, ConflictsH, ProvidesH} }

  lemma DepsStored(d: Desc, e: Desc)
    requires AllGoodDeps(d) && e.replacing == e.depends == e.optdepends == e.conflicts == e.provisions == []
    ensures StoreParts(DepParts(d), e) ==
            e.(replacing := d.replacing, depends := d.depends, optdepends := d.optdepends, conflicts := d.conflicts, provisions := d.provisions)
  {
    hide StoreParts, Listed, Printed, Parsed, GoodDeps;
    var op, co := Listed(OptdependsH, Printed(d.optdepends)), Listed(ConflictsH, Printed(d.conflicts));
    var de, pr := Listed(DependsH, Printed(d.depends)), Listed(ProvidesH, Printed(d.provisions));
    var e1 := e.(replacing := d.replacing);
    var e2 := e1.(depends := d.depends);
    var e3 := e2.(optdepends := d.optdepends);
    var e4 := e3.(conflicts := d.conflicts);
    var e5 := e4.(provisions := d.provisions);
    FieldStores(d, e, e1, e2, e3, e4, e5);
    DepSection(ReplacesH, d.replacing, de + (op + (co + pr)), e, e1);
    DepSection(DependsH, d.depends, op + (co + pr), e1, e2);
    DepSection(OptdependsH, d.optdepends, co + pr, e2, e3);
    DepSection(ConflictsH, d.conflicts, pr, e3, e4);
    DepSection(ProvidesH, d.provisions, [], e4, e5);
    assert pr + [] == pr;
    StoreNothing(e5);
  }

  lemma StoreNothing(d: Desc)
    ensures StoreParts([], d) == d
  {
  }

  lemma FieldStores(d: Desc, e: Desc, e1: Desc, e2: Desc, e3: Desc, e4: Desc, e5: Desc)
    requires e.replacing == e.depends == e.optdepends == e.conflicts == e.provisions == []
    requires e1 == e.(replacing := d.replacing) && e2 == e1.(depends := d.depends) && e3 == e2.(optdepends := d.optdepends)
    requires e4 == e3.(conflicts := d.conflicts) && e5 == e4.(provisions := d.provisions)
    ensures e1 == StoreDeps(ReplacesH, d.replacing, e) && e2 == StoreDeps(DependsH, d.depends, e1)
    ensures e3 == StoreDeps(OptdependsH, d.optdepends, e2) && e4 == StoreDeps(ConflictsH, d.conflicts, e3)
    ensures e5 == StoreDeps(ProvidesH, d.provisions, e4)
    ensures (d.replacing == [] ==> e1 == e) && (d.depends == [] ==> e2 == e1) && (d.optdepends == [] ==> e3 == e2)
    ensures (d.conflicts == [] ==> e4 == e3) && (d.provisions == [] ==> e5 == e4)
  {
    hide StoreDeps;
    StoreReplacing(e, d.replacing);
    StoreDepends(e1, d.depends);
    StoreOptdepends(e2, d.optdepends);
    StoreConflicts(e3, d.conflicts);
    StoreProvisions(e4, d.provisions);
  }

  lemma StoreReplacing(e: Desc, deps: seq<Depend>)
    requires e.replacing == []
    ensures StoreDeps(ReplacesH, deps, e) == e.(replacing := deps) && (deps == [] ==> e.(replacing := deps) == e)
  {
    assert [] + deps == deps;
  }

  lemma StoreDepends(e: Desc, deps: seq<Depend>)
    requires e.depends == []
    ensures StoreDeps(DependsH, deps, e) == e.(depends := deps) && (deps == [] ==> e.(depends := deps) == e)
  {
    assert [] + deps == deps;
  }

  lemma StoreOptdepends(e: Desc, deps: seq<Depend>)
    requires e.optdepends == []
    ensures StoreDeps(OptdependsH, deps, e) == e.(optdepends := deps) && (deps == [] ==> e.(optdepends := deps) == e)
  {
    assert [] + deps == deps;
  }

  lemma StoreConflicts(e: Desc, deps: seq<Depend>)
    requires e.conflicts == []
    ensures StoreDeps(ConflictsH, deps, e) == e.(conflicts := deps) && (deps == [] ==> e.(conflicts := deps) == e)
  {
    assert [] + deps == deps;
  }

  lemma StoreProvisions(e: Desc, deps: seq<Depend>)
    requires e.provisions == []
    ensures StoreDeps(ProvidesH, deps, e) == e.(provisions := deps) && (deps == [] ==> e.(provisions := deps) == e)
  {
    assert [] + deps == deps;
  }

  lemma DepsBack(deps: seq<Depend>)
    requires GoodDeps(deps)
    ensures [] + Parsed(Printed(deps)) == deps && (Printed(deps) == [] ==> deps == [])
  {
    hide Printable, ComputeString, FromString, GoodItem;
    ParsedPrinted(deps);
  }

  predicate GoodTexts(name: string, version: string, d: Desc) {
    && Fits(name) && Fits(version)
    && (d.base.Some? ==> Fits(d.base.value)) && (d.desc.Some? ==> Fits(d.desc.value)) && (d.url.Some? ==> Fits(d.url.value))
    && (d.arch.Some? ==> Fits(d.arch.value)) && (d.packager.Some? ==> Fits(d.packager.value))
  }

  predicate GoodItems(items: seq<string>) { forall i :: 0 <= i < |items| ==> GoodItem(items[i]) }

  /** What can be written and read back: lines that fit, numbers in range, list items that are not blank and
      dependencies that parse back. */
  predicate Writable(name: string, version: string, d: Desc) {
    GoodTexts(name, version, d) && GoodNumbers(d) && GoodItems(d.groups) && GoodItems(d.licenses) && AllGoodDeps(d)
  }

  predicate AllGood(parts: seq<Part>) { forall i :: 0 <= i < |parts| ==> GoodPart(parts[i]) }

  lemma AllGoodJoin(a: seq<Part>, b: seq<Part>)
    requires AllGood(a) && AllGood(b)
    ensures AllGood(a + b)
  {
    hide GoodPart;
  }

  lemma NamesGood(name: string, version: string, d: Desc)
    requires GoodTexts(name, version, d)
    ensures AllGood(NameParts(name, version, d))
  {
    hide Fits, Texts, AllGood;
    var ba, de, ur, ar := Texts(BaseH, d.base), Texts(DescH, d.desc), Texts(UrlH, d.url), Texts(ArchH, d.arch);
    TextsGood(BaseH, d.base);
    TextsGood(DescH, d.desc);
    TextsGood(UrlH, d.url);
    TextsGood(ArchH, d.arch);
    AllGoodJoin(ur, ar);
    AllGoodJoin(de, ur + ar);
    AllGoodJoin(ba, de + (ur + ar));
    LinesGood(name, version);
    AllGoodJoin([Line(NameH, name), Line(VersionH, version)], ba + (de + (ur + ar)));
  }

  lemma LinesGood(name: string, version: string)
    requires Fits(name) && Fits(version)
    ensures AllGood([Line(NameH, name), Line(VersionH, version)])
  {
    hide Fits;
  }

  lemma TextsGood(h: Header, v: Option<string>)
    requires h != NoHeader && !HasList(h) && (v.Some? ==> Fits(v.value))
    ensures AllGood(Texts(h, v))
  {
    hide Fits;
  }

  lemma NumberGood(h: Header, n: int)
    requires -TWO63 <= n <= TWO63 && h != NoHeader && !HasList(h)
    ensures AllGood(Number(h, n))
  {
    hide Fits, Jd;
    JdFits(n);
  }

  lemma NumbersGood(name: string, version: string, d: Desc)
    requires GoodTexts(name, version, d) && GoodNumbers(d)
    ensures AllGood(NumberParts(d))
  {
    hide Fits, Number, Texts;
    NumberGood(BuilddateH, d.builddate);
    NumberGood(InstalldateH, d.installdate);
    NumberGood(SizeH, d.isize);
    NumberGood(ReasonH, d.reason);
    AllGoodJoin(Number(SizeH, d.isize), Number(ReasonH, d.reason));
    TextsGood(PackagerH, d.packager);
    AllGoodJoin(Texts(PackagerH, d.packager), Number(SizeH, d.isize) + Number(ReasonH, d.reason));
    AllGoodJoin(Number(InstalldateH, d.installdate), Texts(PackagerH, d.packager) + (Number(SizeH, d.isize) + Number(ReasonH, d.reason)));
    AllGoodJoin(Number(BuilddateH, d.builddate),
                Number(InstalldateH, d.installdate) + (Texts(PackagerH, d.packager) + (Number(SizeH, d.isize) + Number(ReasonH, d.reason))));
  }

  lemma ListedGood(h: Header, items: seq<string>)
    requires HasList(h) && GoodItems(items)
    ensures AllGood(Listed(h, items))
  {
    hide GoodItem;
  }

  lemma FlagNamesGood(v: Validation)
    ensures GoodItems(ValidationNames(v))
  {
    forall i | 0 <= i < |ValidationNames(v)| ensures GoodItem(ValidationNames(v)[i]) {
      assert ValidationNames(v)[i] in ["none", "md5", "sha256", "pgp"];
    }
  }

  lemma ListsGood(d: Desc)
    requires GoodItems(d.groups) && GoodItems(d.licenses)
    ensures AllGood(ListParts(d))
  {
    hide GoodItems, ValidationNames, AllGood, Listed;
    FlagNamesGood(d.validation);
    ListedGood(GroupsH, d.groups);
    ListedGood(LicenseH, d.licenses);
    ListedGood(ValidationH, ValidationNames(d.validation));
    AllGoodJoin(Listed(LicenseH, d.licenses), Listed(ValidationH, ValidationNames(d.validation)));
    AllGoodJoin(Listed(GroupsH, d.groups), Listed(LicenseH, d.licenses) + Listed(ValidationH, ValidationNames(d.validation)));
  }

  lemma DepListGood(h: Header, deps: seq<Depend>)
    requires HasList(h) && GoodDeps(deps)
    ensures AllGood(Listed(h, Printed(deps)))
  {
    hide Printable, ComputeString, GoodItem;
    ListedGood(h, Printed(deps));
  }

  lemma DepsGood(d: Desc)
    requires AllGoodDeps(d)
    ensures AllGood(DepParts(d))
  {
    hide GoodDeps, AllGood, Listed, Printed;
    var re, de, op := Listed(ReplacesH, Printed(d.replacing)), Listed(DependsH, Printed(d.depends)), Listed(OptdependsH, Printed(d.optdepends));
    var co, pr := Listed(ConflictsH, Printed(d.conflicts)), Listed(ProvidesH, Printed(d.provisions));
    DepListGood(ReplacesH, d.replacing);
    DepListGood(DependsH, d.depends);
    DepListGood(OptdependsH, d.optdepends);
    DepListGood(ConflictsH, d.conflicts);
    DepListGood(ProvidesH, d.provisions);
    AllGoodJoin(co, pr);
    AllGoodJoin(op, co + pr);
    AllGoodJoin(de, op + (co + pr));
    AllGoodJoin(re, de + (op + (co + pr)));
  }

  lemma PartsGood(name: string, version: string, d: Desc)
    requires Writable(name, version, d)
    ensures AllGood(DescParts(name, version, d))
  {
    hide AllGood, NameParts, NumberParts, ListParts, DepParts, GoodTexts, GoodNumbers, GoodItems, AllGoodDeps;
    NamesGood(name, version, d);
    NumbersGood(name, version, d);
    ListsGood(d);
    DepsGood(d);
    AllGoodJoin(ListParts(d), DepParts(d));
    AllGoodJoin(NumberParts(d), ListParts(d) + DepParts(d));
    AllGoodJoin(NameParts(name, version, d), NumberParts(d) + (ListParts(d) + DepParts(d)));
  }

  /** What reading gives back of a package that was written: dependencies for making and checking are read but
      never written. */
  function Restored(d: Desc): Desc { d.(makedepends := [], checkdepends := [], isize := SizeRead(d.isize)) }

  lemma PartsStored(name: string, version: string, d: Desc)
    requires Writable(name, version, d)
    ensures StoreParts(DescParts(name, version, d), NO_DESC) == Restored(d)
  {
    hide StoreParts, NameParts, NumberParts, ListParts, DepParts, GoodTexts, GoodNumbers, GoodItems, GoodDeps, SizeRead;
    var e1 := NO_DESC.(base := d.base, desc := d.desc, url := d.url, arch := d.arch);
    var e2 := e1.(builddate := d.builddate, installdate := d.installdate, packager := d.packager, isize := SizeRead(d.isize), reason := d.reason);
    var e3 := e2.(groups := d.groups, licenses := d.licenses, validation := d.validation);
    StoreJoin(NameParts(name, version, d), NumberParts(d) + (ListParts(d) + DepParts(d)), NO_DESC);
    NamesStored(name, version, d);
    StoreJoin(NumberParts(d), ListParts(d) + DepParts(d), e1);
    NumbersStored(d, e1);
    StoreJoin(ListParts(d), DepParts(d), e2);
    ListsStored(d, e2);
    DepsStored(d, e3);
  }

  // ---- the format of the desc file ----

  /** A section: its header, its lines and a blank line; nothing if it has no lines. */
  function Block(header: string, lines: seq<string>): seq<string> { if lines == [] then [] else [header] + lines + [""] }

  function Given(v: Option<string>): seq<string> { if v.Some? then [v.value] else [] }

  function Nonzero(n: int): seq<string> { if n == 0 then [] else [Jd(n)] }

  function Named(set': bool, name: string): seq<string> { if set' then [name] else [] }

  /** The lines of a desc file. */
  function DescFile(name: string, version: string, d: Desc): seq<string> {
    Block("%NAME%", [name]) + (Block("%VERSION%", [version]) +
    (Block("%BASE%", Given(d.base)) + (Block("%DESC%", Given(d.desc)) + (Block("%URL%", Given(d.url)) +
    Block("%ARCH%", Given(d.arch)))))) +
    (Block("%BUILDDATE%", Nonzero(d.builddate)) + (Block("%INSTALLDATE%", Nonzero(d.installdate)) +
    (Block("%PACKAGER%", Given(d.packager)) + (Block("%SIZE%", Nonzero(d.isize)) + Block("%REASON%", Nonzero(d.reason))))) +
    (Block("%GROUPS%", d.groups) + (Block("%LICENSE%", d.licenses) +
    Block("%VALIDATION%", Named(d.validation.none, "none") + Named(d.validation.md5, "md5") +
                          Named(d.validation.sha256, "sha256") + Named(d.validation.signature, "pgp"))) +
    (Block("%REPLACES%", Printed(d.replacing)) + (Block("%DEPENDS%", Printed(d.depends)) +
    (Block("%OPTDEPENDS%", Printed(d.optdepends)) + (Block("%CONFLICTS%", Printed(d.conflicts)) +
    Block("%PROVIDES%", Printed(d.provisions))))))))
  }

  lemma LineBlock(h: Header, v: string)
    ensures Flatten([Line(h, v)]) == Block(HeaderText(h), [v])
  {
    hide HeaderText;
    assert Flatten([]) == [];
  }

  lemma TextBlock(h: Header, v: Option<string>)
    ensures Flatten(Texts(h, v)) == Block(HeaderText(h), Given(v))
  {
    hide HeaderText, Flatten;
    if v.Some? { LineBlock(h, v.value); } else { NoParts(); }
  }

  lemma NumberBlock(h: Header, n: int)
    ensures Flatten(Number(h, n)) == Block(HeaderText(h), Nonzero(n))
  {
    hide HeaderText, Flatten, Jd;
    if n != 0 { LineBlock(h, Jd(n)); } else { NoParts(); }
  }

  lemma ListBlock(h: Header, items: seq<string>)
    ensures Flatten(Listed(h, items)) == Block(HeaderText(h), items)
  {
    hide HeaderText;
    assert Flatten([]) == [];
  }

  lemma NoParts()
    ensures Flatten([]) == []
  {
  }

  lemma NamesFormat(name: string, version: string, d: Desc)
    ensures Flatten(NameParts(name, version, d)) ==
            Block("%NAME%", [name]) + (Block("%VERSION%", [version]) +
            (Block("%BASE%", Given(d.base)) + (Block("%DESC%", Given(d.desc)) + (Block("%URL%", Given(d.url)) +
            Block("%ARCH%", Given(d.arch))))))
  {
    hide Flatten, Block, Given, Texts;
    var arch, url, desc, base := Texts(ArchH, d.arch), Texts(UrlH, d.url), Texts(DescH, d.desc), Texts(BaseH, d.base);
    var rest := base + (desc + (url + arch));
    assert NameParts(name, version, d) == [Line(NameH, name)] + ([Line(VersionH, version)] + rest);
    FlattenJoin([Line(NameH, name)], [Line(VersionH, version)] + rest);
    FlattenJoin([Line(VersionH, version)], rest);
    FlattenJoin(base, desc + (url + arch));
    FlattenJoin(desc, url + arch);
    FlattenJoin(url, arch);
    LineBlock(NameH, name);
    LineBlock(VersionH, version);
    TextBlock(BaseH, d.base);
    TextBlock(DescH, d.desc);
    TextBlock(UrlH, d.url);
    TextBlock(ArchH, d.arch);
  }

  lemma NumbersFormat(d: Desc)
    ensures Flatten(NumberParts(d)) ==
            Block("%BUILDDATE%", Nonzero(d.builddate)) + (Block("%INSTALLDATE%", Nonzero(d.installdate)) +
            (Block("%PACKAGER%", Given(d.packager)) + (Block("%SIZE%", Nonzero(d.isize)) + Block("%REASON%", Nonzero(d.reason)))))
  {
    hide Flatten, Block, Given, Nonzero, Texts, Number;
    var build, install, packager := Number(BuilddateH, d.builddate), Number(InstalldateH, d.installdate), Texts(PackagerH, d.packager);
    var size, reason := Number(SizeH, d.isize), Number(ReasonH, d.reason);
    FlattenJoin(build, install + (packager + (size + reason)));
    FlattenJoin(install, packager + (size + reason));
    FlattenJoin(packager, size + reason);
    FlattenJoin(size, reason);
    NumberBlock(BuilddateH, d.builddate);
    NumberBlock(InstalldateH, d.installdate);
    TextBlock(PackagerH, d.packager);
    NumberBlock(SizeH, d.isize);
    NumberBlock(ReasonH, d.reason);
  }

  lemma ListsFormat(d: Desc)
    ensures Flatten(ListParts(d)) ==
            Block("%GROUPS%", d.groups) + (Block("%LICENSE%", d.licenses) +
            Block("%VALIDATION%", Named(d.validation.none, "none") + Named(d.validation.md5, "md5") +
                                  Named(d.validation.sha256, "sha256") + Named(d.validation.signature, "pgp")))
  {
    hide Flatten, Block, Listed;
    var groups, licenses, validation := Listed(GroupsH, d.groups), Listed(LicenseH, d.licenses), Listed(ValidationH, ValidationNames(d.validation));
    FlattenJoin(groups, licenses + validation);
    FlattenJoin(licenses, validation);
    ListBlock(GroupsH, d.groups);
    ListBlock(LicenseH, d.licenses);
    ListBlock(ValidationH, ValidationNames(d.validation));
  }

  lemma DepsFormat(d: Desc)
    ensures Flatten(DepParts(d)) ==
            Block("%REPLACES%", Printed(d.replacing)) + (Block("%DEPENDS%", Printed(d.depends)) +
            (Block("%OPTDEPENDS%", Printed(d.optdepends)) + (Block("%CONFLICTS%", Printed(d.conflicts)) +
            Block("%PROVIDES%", Printed(d.provisions)))))
  {
    hide Flatten, Block, Listed, Printed;
    var replacing, depends, opt := Listed(ReplacesH, Printed(d.replacing)), Listed(DependsH, Printed(d.depends)), Listed(OptdependsH, Printed(d.optdepends));
    var conflicts, provided := Listed(ConflictsH, Printed(d.conflicts)), Listed(ProvidesH, Printed(d.provisions));
    FlattenJoin(replacing, depends + (opt + (conflicts + provided)));
    FlattenJoin(depends, opt + (conflicts + provided));
    FlattenJoin(opt, conflicts + provided);
    FlattenJoin(conflicts, provided);
    ListBlock(ReplacesH, Printed(d.replacing));
    ListBlock(DependsH, Printed(d.depends));
    ListBlock(OptdependsH, Printed(d.optdepends));
    ListBlock(ConflictsH, Printed(d.conflicts));
    ListBlock(ProvidesH, Printed(d.provisions));
  }

  /** The desc file has these sections, under these headers, in this order. */
  lemma FileFormat(name: string, version: string, d: Desc)
    ensures TextOf(DescParts(name, version, d)) == Unlines(DescFile(name, version, d))
  {
    hide Flatten, Unlines, Block, Given, Nonzero, Named, NameParts, NumberParts, ListParts, DepParts, Printed;
    FlattenJoin(NameParts(name, version, d), NumberParts(d) + (ListParts(d) + DepParts(d)));
    FlattenJoin(NumberParts(d), ListParts(d) + DepParts(d));
    FlattenJoin(ListParts(d), DepParts(d));
    NamesFormat(name, version, d);
    NumbersFormat(d);
    ListsFormat(d);
    DepsFormat(d);
  }

  /** When a file ends with the header of a single value, the buffer still holds the header, and that becomes the value. */
  lemma StaleHeader(ragged: bool, d: Desc)
    ensures Section(Tape([], ragged, "%ARCH%", false), d).0 == d.(arch := Some("%ARCH%"))
  {
    hide HeaderOf;
    HeaderBack(ArchH);
    assert HeaderText(ArchH) == "%ARCH%";
  }

  lemma ListSection(h: Header, items: seq<string>, ragged: bool, d: Desc)
    requires HasList(h)
    ensures var t := Tape(items, ragged, HeaderText(h), false); Section(t, d).0 == StoreList(h, TakeList(t).0, d)
  {
    hide HeaderText, HeaderOf, TakeList, StoreList;
    HeaderBack(h);
  }

  /** The section for make dependencies, which is never written, is read into its own field. */
  lemma MakeSection(items: seq<string>, ragged: bool, d: Desc)
    ensures var t := Tape(items, ragged, "%MAKEDEPENDS%", false);
            Section(t, d).0 == d.(makedepends := d.makedepends + Parsed(TakeList(t).0))
  {
    hide TakeList, Parsed, Section;
    ListSection(MakedependsH, items, ragged, d);
  }

  /** So is that for check dependencies. */
  lemma CheckSection(items: seq<string>, ragged: bool, d: Desc)
    ensures var t := Tape(items, ragged, "%CHECKDEPENDS%", false);
            Section(t, d).0 == d.(checkdepends := d.checkdepends + Parsed(TakeList(t).0))
  {
    hide TakeList, Parsed, Section;
    ListSection(CheckdependsH, items, ragged, d);
  }

  /** What digits are read as: a date within 64 bits or 0, a size within 64 bits or -1, the upper half of the unsigned
      ones wrapped around, and a reason by its lowest 32 bits. */
  lemma DigitsRead(line: string)
    requires line != "" && AllDigits(line)
    ensures ParseDate(line) == if Value(line) < TWO63 then Value(line) else 0
    ensures Value(line) < TWO63 ==> StrToOffT(line) == Value(line)
    ensures TWO63 <= Value(line) < 2 * TWO63 ==> StrToOffT(line) == Value(line) - 2 * TWO63
    ensures Value(line) >= 2 * TWO63 ==> StrToOffT(line) == -1
    ensures -0x8000_0000 <= Atoi(line) < 0x8000_0000
    ensures Value(line) < TWO63 ==> (Atoi(line) - Value(line)) % 0x1_0000_0000 == 0
  {
    hide Value;
    SpanIs(line, IsDigit, |line|);
    assert line[..|line|] == line && line[|line|..] == "";
    DigitIsPlain(line[0]);
    assert SkipSpaces(line) == line;
  }

  lemma DigitIsPlain(c: char)
    requires IsDigit(c)
    ensures c !in " \t\n\r\U{000b}\U{000c}" && c != '+' && c != '-'
  {
  }

  /** What does not begin with a digit, a sign or a blank is no number: the dates and the reason read it as 0, the size as -1. */
  lemma NotANumber(line: string)
    requires line == "" || (!IsDigit(line[0]) && line[0] !in "+- \t\n\r\U{000b}\U{000c}")
    ensures ParseDate(line) == 0 && Atoi(line) == 0 && StrToOffT(line) == -1
  {
    SpanIs(line, IsDigit, 0);
  }

  /** Reading the desc file that was written restores every field that is written. */
  lemma DescBack(name: string, version: string, d: Desc)
    requires Writable(name, version, d)
    ensures var text := TextOf(DescParts(name, version, d));
            DescFrom(Tape(Chunks(text), Ragged(text), "", false), NO_DESC) == Restored(d)
  {
    hide Writable, GoodPart, Restored, DescParts, StoreParts, Chunks, Ragged, Unlines, Flatten;
    var parts := DescParts(name, version, d);
    PartsGood(name, version, d);
    FlattenFits(parts);
    ChunksOfLines(Flatten(parts));
    PartsRead(parts, NO_DESC);
    PartsStored(name, version, d);
  }

  /** The package is the same after it has been written and read exactly when it has no make and check
      dependencies and its size is not below -1. */
  lemma DescBackIff(name: string, version: string, d: Desc)
    requires Writable(name, version, d)
    ensures var text := TextOf(DescParts(name, version, d));
            DescFrom(Tape(Chunks(text), Ragged(text), "", false), NO_DESC) == d <==>
            (d.makedepends == [] && d.checkdepends == [] && d.isize >= -1)
  {
    hide Writable, DescParts, DescFrom, Chunks, Ragged, TextOf;
    DescBack(name, version, d);
  }

  // ---- the files file ----

  /** `_alpm_split_backup`: at the first tab. */
  function SplitBackup(line: string): Backup {
    var i := IndexOf(line, '\t', 0, |line|);
    if i == |line| then Backup(line, None) else Backup(line[..i], Some(line[i+1..]))
  }

  function SplitBackups(items: seq<string>): (backups: seq<Backup>)
    ensures |backups| == |items| && forall i :: 0 <= i < |items| ==> backups[i] == SplitBackup(items[i])
  {
    seq(|items|, i requires 0 <= i < |items| => SplitBackup(items[i]))
  }

  predicate InOrder(files: seq<string>) { forall i :: 1 <= i < |files| ==> StrCmp(files[i-1], files[i]) <= 0 }

  /** `_alpm_filelist_sort`: sorted by `qsort` unless it is in order already. */
  function SortFiles(files: seq<string>): seq<string> {
    if InOrder(files) then files else MergeSort(files, Identity, StrCmp)
  }

  /** The same file names, in order. */
  lemma FilesSorted(files: seq<string>)
    ensures InOrder(SortFiles(files)) && multiset(SortFiles(files)) == multiset(files)
  {
    hide StrCmp, MergeSort;
    if !InOrder(files) {
      assert TotalPreorder(StrCmp) by {
        forall x: string, y: string ensures StrCmp(x, y) <= 0 || StrCmp(y, x) <= 0 { StrCmpAntisymmetric(x, y); }
        forall x: string, y: string, z: string | StrCmp(x, y) <= 0 && StrCmp(y, z) <= 0 ensures StrCmp(x, z) <= 0 {
          StrCmpTransitive(x, y, z);
        }
      }
      MergeSortSorts(files, Identity, StrCmp);
      MergeSortPermutes(files, Identity, StrCmp);
      var sorted := SortFiles(files);
      forall i | 1 <= i < |sorted| ensures StrCmp(sorted[i-1], sorted[i]) <= 0 {
        assert StrCmp(Identity(sorted[i-1]), Identity(sorted[i])) <= 0;
      }
    }
  }

  /** The loop over the file. */
  function FilesFrom(t: Tape, files: seq<string>, backup: seq<Backup>): (seq<string>, seq<Backup>)
    decreases |t.lines|
  {
    if t.lines == [] then (files, backup)
    else
      var u := Next(t);
      if u.line == "%FILES%" then
        var r := TakeList(u);
        FilesFrom(r.1, SortFiles(r.0), backup)
      else if u.line == "%BACKUP%" then
        var r := TakeList(u);
        FilesFrom(r.1, files, backup + SplitBackups(r.0))
      else FilesFrom(u, files, backup)
  }

  method SplitAll(items: seq<string>) returns (backups: seq<Backup>)
    ensures backups == SplitBackups(items)
  {
    hide SplitBackup;
    backups := [];
    var i := 0;
    while i < |items|
      invariant i <= |items| && |backups| == i && forall k :: 0 <= k < i ==> backups[k] == SplitBackup(items[k])
    {
      backups := backups + [SplitBackup(items[i])];
      i := i + 1;
    }
  }

  /** `local_db_read` on the files file. */
  method ReadFiles(fp: Stream, info: Info)
    requires fp.Valid()
    modifies fp, info`files, info`backup
    ensures fp.Valid() && (info.files, info.backup) == FilesFrom(old(fp.View()), old(info.files), old(info.backup))
  {
    hide SortFiles, SplitBackups, TakeList;
    while true
      invariant fp.Valid()
      invariant FilesFrom(fp.View(), info.files, info.backup) == FilesFrom(old(fp.View()), old(info.files), old(info.backup))
      decreases |fp.View().lines|
    {
      var ok := fp.ReadLine();
      if !ok { return; }
      if fp.line == "%FILES%" {
        var items := ReadAndStoreAll(fp);
        info.files := SortFiles(items);
      } else if fp.line == "%BACKUP%" {
        var items := ReadAndStoreAll(fp);
        var backups := SplitAll(items);
        info.backup := info.backup + backups;
      }
    }
  }

  function BackupLine(b: Backup): string { b.name + "\t" + if b.hash.Some? then b.hash.value else "(null)" }

  function BackupLines(backup: seq<Backup>): (items: seq<string>)
    ensures |items| == |backup| && forall i :: 0 <= i < |backup| ==> items[i] == BackupLine(backup[i])
  {
    seq(|backup|, i requires 0 <= i < |backup| => BackupLine(backup[i]))
  }

  /** The lines of a files file. */
  function FilesLines(files: seq<string>, backup: seq<Backup>): seq<string> {
    (if files != [] then ["%FILES%"] + files + [""] else []) +
    (if backup != [] then ["%BACKUP%"] + BackupLines(backup) + [""] else [])
  }

  /** The writer's loop over one list under its header. */
  method PutLines(fp: Output, header: string, items: seq<string>)
    modifies fp
    ensures fp.text == old(fp.text) + if items != [] then Unlines([header] + items + [""]) else ""
  {
    if items == [] { return; }
    ghost var start := fp.text;
    fp.text := fp.text + (header + "\n");
    UnlinesNext([], header);
    assert [] + [header] == [header];
    var i := 0;
    while i < |items|
      invariant i <= |items| && fp.text == start + Unlines([header] + items[..i])
    {
      assert [header] + items[..i+1] == ([header] + items[..i]) + [items[i]];
      UnlinesNext([header] + items[..i], items[i]);
      fp.text := fp.text + items[i] + "\n";
      i := i + 1;
    }
    assert items[..|items|] == items;
    UnlinesNext([header] + items, "");
    fp.text := fp.text + "\n";
  }

  /** `_alpm_local_db_write` on the files file. */
  method WriteFiles(fp: Output, info: Info)
    modifies fp
    ensures fp.text == old(fp.text) + Unlines(FilesLines(info.files, info.backup))
  {
    hide BackupLine, Unlines;
    var lines: seq<string>, i := [], 0;
    while i < |info.backup|
      invariant i <= |info.backup| && |lines| == i && forall k :: 0 <= k < i ==> lines[k] == BackupLine(info.backup[k])
    {
      lines := lines + [BackupLine(info.backup[i])];
      i := i + 1;
    }
    assert lines == BackupLines(info.backup);
    PutLines(fp, "%FILES%", info.files);
    PutLines(fp, "%BACKUP%", lines);
    UnlinesJoin(if info.files != [] then ["%FILES%"] + info.files + [""] else [],
                if info.backup != [] then ["%BACKUP%"] + BackupLines(info.backup) + [""] else []);
    assert Unlines([]) == "" by { NothingWritten(); }
  }

  /** The files file has these sections, a backup being its name, a tab and its hash. */
  lemma FilesFormat(files: seq<string>, backup: seq<Backup>)
    requires forall i :: 0 <= i < |backup| ==> backup[i].hash.Some?
    ensures FilesLines(files, backup) ==
            Block("%FILES%", files) +
            Block("%BACKUP%", seq(|backup|, i requires 0 <= i < |backup| => backup[i].name + "\t" + backup[i].hash.value))
  {
    assert BackupLines(backup) == seq(|backup|, i requires 0 <= i < |backup| => backup[i].name + "\t" + backup[i].hash.value);
  }

  /** What can be written and read back: sorted file names that are not blank, and backup names without a tab. */
  predicate GoodFiles(files: seq<string>, backup: seq<Backup>) {
    && InOrder(files) && GoodItems(files)
    && forall i :: 0 <= i < |backup| ==> backup[i].hash.Some? && '\t' !in backup[i].name && Fits(BackupLine(backup[i]))
  }

  lemma BackupBack(b: Backup)
    requires b.hash.Some? && '\t' !in b.name
    ensures SplitBackup(BackupLine(b)) == b && BackupLine(b) != ""
  {
    var line := BackupLine(b);
    var n := |b.name|;
    assert line[..n] == b.name && line[n] == '\t' && line[n+1..] == b.hash.value;
    forall k | 0 <= k < n ensures line[k] != '\t' { assert b.name[k] in b.name; }
    var i := IndexOf(line, '\t', 0, |line|);
    assert i == n;
  }

  lemma BackupsBack(files: seq<string>, backup: seq<Backup>)
    requires GoodFiles(files, backup)
    ensures SplitBackups(BackupLines(backup)) == backup
    ensures forall i :: 0 <= i < |backup| ==> BackupLines(backup)[i] != "" && Fits(BackupLines(backup)[i])
  {
    hide BackupLine, SplitBackup, Fits;
    forall i | 0 <= i < |backup| ensures SplitBackup(BackupLine(backup[i])) == backup[i] && BackupLine(backup[i]) != "" { BackupBack(backup[i]); }
  }

  lemma FilesHeaders()
    ensures "%FILES%" != "%BACKUP%" && Fits("%FILES%") && Fits("%BACKUP%") && Fits("")
  {
    assert |"%FILES%"| == 7 && |"%BACKUP%"| == 8;
  }

  /** One section of a files file is read as what was written. */
  lemma FilesSection(header: string, items: seq<string>, rest: seq<string>, files: seq<string>, backup: seq<Backup>)
    requires header == "%FILES%" || header == "%BACKUP%"
    requires forall i :: 0 <= i < |items| ==> items[i] != ""
    ensures FilesFrom(Tape(([header] + items + [""]) + rest, false, "", false), files, backup) ==
            FilesFrom(Tape(rest, false, "", false),
                      if header == "%FILES%" then SortFiles(items) else files,
                      if header == "%FILES%" then backup else backup + SplitBackups(items))
  {
    hide SortFiles, SplitBackups, TakeList;
    FilesHeaders();
    var t := Tape(([header] + items + [""]) + rest, false, "", false);
    assert t.lines[1..] == items + [""] + rest && t.lines[0] == header;
    TakeItems(items, rest, header);
  }

  lemma FilesLinesFit(files: seq<string>, backup: seq<Backup>)
    requires GoodFiles(files, backup)
    ensures forall k :: 0 <= k < |FilesLines(files, backup)| ==> Fits(FilesLines(files, backup)[k])
  {
    hide Fits, BackupLine;
    FilesHeaders();
    BackupsBack(files, backup);
    var a := if files != [] then ["%FILES%"] + files + [""] else [];
    var b := if backup != [] then ["%BACKUP%"] + BackupLines(backup) + [""] else [];
    forall k | 0 <= k < |a| ensures Fits(a[k]) {
      assert 0 < k <= |files| ==> a[k] == files[k-1] && GoodItem(files[k-1]);
    }
    forall k | 0 <= k < |b| ensures Fits(b[k]) {
      assert 0 < k <= |backup| ==> b[k] == BackupLines(backup)[k-1];
    }
  }

  /** Reading the files file that was written restores both lists. */
  lemma FilesBack(files: seq<string>, backup: seq<Backup>)
    requires GoodFiles(files, backup)
    ensures var text := Unlines(FilesLines(files, backup));
            FilesFrom(Tape(Chunks(text), Ragged(text), "", false), [], []) == (files, backup)
  {
    hide Fits, BackupLine, SplitBackup, Chunks, Ragged, Unlines, InOrder, FilesFrom, MergeSort;
    var lines := FilesLines(files, backup);
    FilesLinesFit(files, backup);
    ChunksOfLines(lines);
    BackupsBack(files, backup);
    FilesHeaders();
    var b := if backup != [] then ["%BACKUP%"] + BackupLines(backup) + [""] else [];
    forall i | 0 <= i < |files| ensures files[i] != "" { assert GoodItem(files[i]); }
    if files != [] {
      FilesSection("%FILES%", files, b, [], []);
    } else {
      assert lines == b;
    }
    if backup != [] {
      assert b + [] == b;
      FilesSection("%BACKUP%", BackupLines(backup), [], files, []);
      assert [] + backup == backup;
    }
    NoFilesLeft(files, backup);
  }

  lemma NoFilesLeft(files: seq<string>, backup: seq<Backup>)
    ensures FilesFrom(Tape([], false, "", false), files, backup) == (files, backup)
  {
  }
}
