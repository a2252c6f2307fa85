/** Reading lines from an archive entry that arrives in blocks. */
module ArchiveFgets {
  import opened Common

  const ARCHIVE_OK: int := 0
  const ARCHIVE_EOF: int := 1
  const ERANGE: int := 34

  /** EOF, and the codes of libarchive for retry, warning, failure and fatal error. */
  const ENDINGS: set<int> := {ARCHIVE_EOF, -10, -20, -25, -30}

  // ---- text as lines ----

  function Concat(blocks: seq<string>): string {
    if blocks == [] then "" else blocks[0] + Concat(blocks[1..])
  }

  /** `memchr` over the whole string: the first `c` in `s`, or the length of `s`. */
  function Find(s: string, c: char): (i: nat)
    ensures i <= |s| && (forall k :: 0 <= k < i ==> s[k] != c) && (i < |s| ==> s[i] == c)
  {
    IndexOf(s, c, 0, |s|)
  }

  /** The split at '\n': one piece more than there are newlines. */
  function Split(s: string): (pieces: seq<string>)
    ensures pieces != []
    decreases |s|
  {
    var i := Find(s, '\n');
    if i == |s| then [s] else [s[..i]] + Split(s[i+1..])
  }

  /** Pieces with a newline between each and the next. */
  function Joined(pieces: seq<string>): string
    requires pieces != []
  {
    if |pieces| == 1 then pieces[0] else pieces[0] + "\n" + Joined(pieces[1..])
  }

  /** The split is the way to cut the text at its newlines: the pieces have none, and joined they give it back. */
  lemma {:induction false} SplitJoins(s: string)
    ensures Joined(Split(s)) == s
    ensures forall i :: 0 <= i < |Split(s)| ==> OneLine(Split(s)[i])
    decreases |s|
  {
    hide Find;
    var i := Find(s, '\n');
    if i < |s| {
      SplitJoins(s[i+1..]);
      assert Split(s) == [s[..i]] + Split(s[i+1..]) && Split(s)[1..] == Split(s[i+1..]);
      assert s == s[..i] + "\n" + s[i+1..];
    }
  }

  lemma {:induction false} IndexOfIs(s: string, c: char, lo: nat, i: nat)
    requires lo <= i <= |s| && (forall k :: lo <= k < i ==> s[k] != c) && (i < |s| ==> s[i] == c)
    ensures IndexOf(s, c, lo, |s|) == i
    decreases i - lo
  {
    if lo < i { IndexOfIs(s, c, lo + 1, i); }
  }

  lemma FindUnique(s: string, c: char, i: nat)
    requires i <= |s| && (forall k :: 0 <= k < i ==> s[k] != c) && (i < |s| ==> s[i] == c)
    ensures Find(s, c) == i
  {
    IndexOfIs(s, c, 0, i);
  }

  lemma OneLineJoins(s: string, t: string)
    requires OneLine(s) && OneLine(t)
    ensures OneLine(s + t)
  {
  }

  /** A newline after a stretch without one ends the first piece. */
  lemma SplitAtNewline(head: string, rest: string)
    requires OneLine(head)
    ensures Split(head + ("\n" + rest)) == [head] + Split(rest)
  {
    hide Find, Split;
    var s, i := head + ("\n" + rest), |head|;
    assert s[..i] == head && s[i+1..] == rest && s[i] == '\n';
    assert forall k :: 0 <= k < i ==> s[k] == head[k];
    FindUnique(s, '\n', i);
    SplitBy(s, i);
  }

  lemma SplitBy(s: string, i: nat)
    requires i < |s| && Find(s, '\n') == i
    ensures Split(s) == [s[..i]] + Split(s[i+1..])
  {
    hide Find;
  }

  /** What precedes a newline anywhere is part of the first piece. */
  lemma FirstPieceAtLeast(head: string, rest: string)
    requires OneLine(head)
    ensures |Split(head + rest)[0]| >= |head|
  {
    var s := head + rest;
    assert forall k :: 0 <= k < |head| ==> s[k] == head[k];
  }

  lemma SplitWithout(s: string)
    requires OneLine(s)
    ensures Split(s) == [s]
  {
    FindUnique(s, '\n', |s|);
  }

  // ---- the archive ----

  /** An open entry: the blocks that it will deliver, and how it ends, at EOF or with an error. */
  class Archive {
    const blocks: seq<string>
    const ending: int
    var next: nat

    constructor (blocks: seq<string>, ending: int)
      requires ending in ENDINGS
      ensures this.blocks == blocks && this.ending == ending && next == 0 && Valid()
    {
      this.blocks, this.ending, next := blocks, ending, 0;
    }

    ghost predicate Valid()
      reads this
    {
      next <= |blocks| && (ending in ENDINGS)
    }

    /** Blocks are nonempty and hold no NUL. */
    ghost predicate Plain() {
      forall i :: 0 <= i < |blocks| ==> blocks[i] != "" && forall k :: 0 <= k < |blocks[i]| ==> blocks[i][k] != '\0'
    }

    ghost function Unread(): string
      reads this
      requires Valid()
    {
      Concat(blocks[next..])
    }

    /** `archive_read_data_block` */
    method ReadDataBlock() returns (ret: int, block: string)
      requires Valid()
      modifies this
      ensures Valid()
      ensures old(next) < |blocks| ==> ret == ARCHIVE_OK && block == blocks[old(next)] && next == old(next) + 1
      ensures old(next) < |blocks| ==> old(Unread()) == block + Unread()
      ensures old(next) == |blocks| ==> ret == ending && block == "" && next == old(next) && Unread() == ""
    {
      if next < |blocks| {
        ret, block := ARCHIVE_OK, blocks[next];
        assert blocks[next..][1..] == blocks[next+1..];
        next := next + 1;
      } else {
        ret, block := ending, "";
      }
    }
  }

  // ---- the reader ----

  /** `struct archive_read_buffer`; pointers into `line` and `block` are offsets. */
  class ReadBuffer {
    var line: array?<char>
    var lineOffset: nat
    var maxLineSize: nat
    var realLineSize: nat
    var block: string
    var blockOffset: nat
    var ret: int

    constructor (maxLineSize: nat)
      ensures Valid() && Fresh(maxLineSize)
    {
      line, lineOffset, realLineSize, block, blockOffset, ret := null, 0, 0, "", 0, ARCHIVE_OK;
      this.maxLineSize := maxLineSize;
    }

    /** As before the first read. */
    ghost predicate Fresh(maxLineSize: nat)
      reads this
    {
      line == null && block == "" && blockOffset == 0 && ret == ARCHIVE_OK && this.maxLineSize == maxLineSize
    }

    ghost predicate Valid()
      reads this
    {
      blockOffset <= |block|
    }

    ghost function LineRepr(): set<object>
      reads this
    {
      if line == null then {} else {line}
    }

    /** What the entry still holds for this reader. */
    ghost function Rest(a: Archive): string
      requires Valid() && a.Valid()
      reads this, a
    {
      block[blockOffset..] + a.Unread()
    }

    /** The last read met the end of the entry. */
    ghost predicate AtEnd(a: Archive)
      reads this, a
    {
      ret == ARCHIVE_EOF && blockOffset == |block| && a.next == |a.blocks|
    }

    /** The reader and its entry agree. */
    ghost predicate Reading(a: Archive)
      reads this, a
    {
      && Valid() && a.Valid() && a.Plain()
      && (forall k :: 0 <= k < |block| ==> block[k] != '\0')
      && (ret == ARCHIVE_OK || AtEnd(a)) && (line == null || line.Length > 0)
    }

    /** `FREE(b->line)` and the zeroing of the structure. */
    method Cleanup() returns (r: int)
      modifies this
      ensures r == old(ret) && Valid() && Fresh(0)
    {
      r := ret;
      line, lineOffset, maxLineSize, realLineSize, block, blockOffset, ret := null, 0, 0, 0, "", 0, ARCHIVE_OK;
    }
  
    /** Fetches the next block once the last is used up. */
    method Refill(a: Archive)
      requires Reading(a) && ret == ARCHIVE_OK && blockOffset == |block|
      modifies this`block, this`blockOffset, this`ret, a
      ensures Valid() && a.Valid() && Rest(a) == old(Rest(a)) && blockOffset == 0
      ensures ret == ARCHIVE_OK ==> Reading(a) && block != "" && a.next > old(a.next)
      ensures ret == ARCHIVE_EOF ==> Reading(a) && AtEnd(a) && Rest(a) == ""
      ensures ret != ARCHIVE_OK ==> ret == a.ending && Rest(a) == ""
    {
      assert block[blockOffset..] == "";
      ret, block := a.ReadDataBlock();
      blockOffset := 0;
      assert block[0..] == block;
    }

    /** Makes room for `added` more characters and the NUL; false when the line would be too long. */
    method EnsureRoom(added: nat) returns (ok: bool)
      requires Valid() && added <= |block|
      requires if line == null then lineOffset == 0 else lineOffset < line.Length
      modifies this`line
      ensures line == old(line) || fresh(line)
      ensures ok ==> line != null && lineOffset + added + 1 <= line.Length
      ensures ok && old(line) != null ==> line[..lineOffset] == old(line[..lineOffset])
      ensures !ok <==> old(line) != null && lineOffset + added + 1 > maxLineSize
    {
      if line == null {
        line := new char[|block| + 1];
      } else {
        var needed := lineOffset + added + 1;
        if needed > maxLineSize { return false; }
        if needed > line.Length {
          var newLine := new char[needed];
          CopyInto(newLine, 0, line[..]);
          assert newLine[..lineOffset] == newLine[0..line.Length][..lineOffset];
          assert line[..][..lineOffset] == line[..lineOffset];
          line := newLine;
        }
      }
      ok := true;
    }

    /** The line so far: what has been copied of the first piece of `text`. */
    ghost predicate Gathered(a: Archive, text: string, acc: string)
      requires Valid() && a.Valid()
      reads this, a, line
    {
      && lineOffset == |acc| && OneLine(acc) && text == acc + Rest(a)
      && (if line == null then acc == "" else lineOffset < line.Length && line[..lineOffset] == acc)
    }

    /** Ends the line after `len` more characters of the block. */
    method FinishLine(len: nat)
      requires Valid() && line != null && lineOffset + len < line.Length && blockOffset + len <= |block|
      modifies this`realLineSize, line
      ensures realLineSize == lineOffset + len && line[realLineSize] == '\0'
      ensures line[..realLineSize] == old(line[..lineOffset]) + block[blockOffset..blockOffset+len]
    {
      CopyInto(line, lineOffset, block[blockOffset..blockOffset+len]);
      line[lineOffset+len] := '\0';
      realLineSize := lineOffset + len;
      assert line[..realLineSize] == line[..lineOffset] + line[lineOffset..lineOffset+len];
    }

    /** Takes over the rest of the block, which has no end of line. */
    method TakeBlock(a: Archive, ghost text: string, ghost acc: string) returns (ghost more: string)
      requires Reading(a) && Gathered(a, text, acc) && OneLine(block[blockOffset..])
      requires line != null && lineOffset + (|block| - blockOffset) < line.Length
      modifies this`lineOffset, this`blockOffset, line
      ensures Reading(a) && Gathered(a, text, more) && blockOffset == |block|
      ensures more == acc + old(block[blockOffset..])
    {
      more := acc + block[blockOffset..];
      OneLineJoins(acc, block[blockOffset..]);
      CopyInto(line, lineOffset, block[blockOffset..]);
      assert line[..lineOffset] == acc;
      assert line[..lineOffset+(|block|-blockOffset)] == line[..lineOffset] + line[lineOffset..lineOffset+(|block|-blockOffset)];
      ghost var left := block[blockOffset..];
      lineOffset := lineOffset + (|block| - blockOffset);
      blockOffset := |block|;
      assert block[blockOffset..] == "";
      assert text == acc + (left + a.Unread()) == more + a.Unread();
    }

    /** The line read is the first piece; the entry holds the others, or is at its end. */
    ghost predicate NextLine(a: Archive, pieces: seq<string>)
      reads this, a, line
    {
      && Reading(a) && line != null && realLineSize < line.Length && pieces != []
      && line[..realLineSize] == pieces[0] && line[realLineSize] == '\0'
      && if |pieces| == 1 then AtEnd(a) else !AtEnd(a) && Split(Rest(a)) == pieces[1..]
    }

    /** A newline in the block ends the line. */
    method LineEnds(a: Archive, eol: nat, ghost text: string, ghost acc: string)
      requires Reading(a) && ret == ARCHIVE_OK && Gathered(a, text, acc) && line != null
      requires blockOffset + eol < |block| && OneLine(block[blockOffset..blockOffset+eol]) && block[blockOffset+eol] == '\n'
      requires lineOffset + eol + 1 <= line.Length
      modifies this`realLineSize, this`blockOffset, line
      ensures Valid() && NextLine(a, Split(text)) && Split(text)[0] == acc + old(block[blockOffset..blockOffset+eol])
    {
      ghost var piece, rest := block[blockOffset..blockOffset+eol], block[blockOffset+eol+1..];
      FinishLine(eol);
      OneLineJoins(acc, piece);
      blockOffset := blockOffset + eol + 1;
      BlockSplits(block, blockOffset - eol - 1, eol);
      assert text == (acc + piece) + ("\n" + Rest(a));
      SplitAtNewline(acc + piece, Rest(a));
    }

    /** At the end of the entry what has been gathered is the last piece. */
    method LastLine(a: Archive, ghost text: string, ghost acc: string)
      requires Reading(a) && AtEnd(a) && Gathered(a, text, acc) && Rest(a) == "" && line != null
      modifies this`realLineSize, line
      ensures Valid() && NextLine(a, Split(text)) && Split(text)[0] == acc
    {
      line[lineOffset] := '\0';
      realLineSize := lineOffset;
      assert line[..lineOffset] == acc;
      SplitWithout(acc);
    }

    /** What a call returns, given the text from the start of its line on. */
    ghost predicate Returns(a: Archive, text: string, first: bool, max: nat, r: int)
      reads this, a, line
    {
      && (r == ARCHIVE_OK ==> NextLine(a, Split(text)) && maxLineSize == max && (|Split(text)[0]| < max || first))
      && (r == -ERANGE ==> |Split(text)[0]| >= max)
      && (r == ARCHIVE_OK || r == -ERANGE || (r < 0 && r == a.ending && |Split(text)| == 1))
      && (r != ARCHIVE_OK ==> Fresh(0))
    }

    /** Searches what is left of a block for the end of the line, and copies up to there. */
    method Consume(a: Archive, ghost text: string, ghost acc: string) returns (done: bool, r: int, ghost more: string)
      requires Reading(a) && Gathered(a, text, acc)
      requires if ret == ARCHIVE_OK then blockOffset < |block| else AtEnd(a) && Rest(a) == ""
      modifies this, LineRepr()
      ensures Valid() && fresh(LineRepr() - old(LineRepr()))
      ensures done ==> Returns(a, text, old(line) == null, old(maxLineSize), r)
      ensures !done ==> Reading(a) && ret == ARCHIVE_OK && Gathered(a, text, more) && maxLineSize == old(maxLineSize) && line != null
      ensures !done ==> |block| - blockOffset < old(|block| - blockOffset)
    {
      hide Split, Find, NextLine, OneLine, Returns;
      ghost var first, max := line == null, maxLineSize;
      done, r, more := true, ARCHIVE_OK, acc;
      ghost var remaining := block[blockOffset..];
      var eol := Find(block[blockOffset..], '\n');
      var found := eol < |block| - blockOffset;
      PieceOneLine(remaining);
      if !found {
        eol := Find(block[blockOffset..], '\0');
        NoNul(block, blockOffset);
      }
      PieceOf(block, blockOffset, eol);
      var ok := EnsureRoom(eol);
      if !ok {
        TooLong(text, acc, remaining, eol, a.Unread());
        ret := -ERANGE;
        r := Cleanup();
        Stops(a, text, first, max, r);
      } else if found {
        LineEnds(a, eol, text, acc);
        Delivers(a, text, first, max);
      } else {
        var len := |block| - blockOffset;
        more := TakeBlock(a, text, acc);
        if len == 0 {
          LastLine(a, text, more);
          Delivers(a, text, first, max);
        } else {
          done := false;
        }
      }
    }

    /** One round of the loop. */
    method Step(a: Archive, ghost text: string, ghost acc: string) returns (done: bool, r: int, ghost more: string)
      requires Reading(a) && ret == ARCHIVE_OK && Gathered(a, text, acc)
      modifies this, LineRepr(), a
      ensures Valid() && a.Valid() && fresh(LineRepr() - old(LineRepr()))
      ensures done ==> Returns(a, text, old(line) == null, old(maxLineSize), r)
      ensures !done ==> Reading(a) && ret == ARCHIVE_OK && Gathered(a, text, more) && maxLineSize == old(maxLineSize) && line != null
      ensures !done ==> |a.blocks| - a.next < |a.blocks| - old(a.next) ||
                        (a.next == old(a.next) && |block| - blockOffset < old(|block| - blockOffset))
    {
      hide Split, Find, NextLine, OneLine, Returns;
      if blockOffset == |block| {
        Refill(a);
        if ret < ARCHIVE_OK {
          done, more := true, acc;
          EndsGathered(text, acc);
          r := Cleanup();
          Stops(a, text, old(line) == null, old(maxLineSize), r);
          return;
        }
      }
      done, r, more := Consume(a, text, acc);
    }

    /** `_alpm_archive_fgets` */
    method Fgets(a: Archive) returns (r: int)
      requires Reading(a)
      modifies this, LineRepr(), a
      ensures Valid() && a.Valid() && fresh(LineRepr() - old(LineRepr()))
      ensures old(AtEnd(a)) ==> r == ARCHIVE_EOF && Fresh(0)
      ensures !old(AtEnd(a)) ==> Returns(a, old(Rest(a)), old(line) == null, old(maxLineSize), r)
    {
      hide Split, Returns;
      lineOffset := 0;
      ghost var text, acc := Rest(a), "";
      if blockOffset == |block| && ret == ARCHIVE_EOF {
        r := Cleanup();
        return;
      }
      r := ARCHIVE_OK;
      var done := false;
      while !done
        invariant Valid() && a.Valid() && fresh(LineRepr() - old(LineRepr()))
        invariant !done ==> Reading(a) && ret == ARCHIVE_OK && Gathered(a, text, acc)
        invariant !done ==> maxLineSize == old(maxLineSize) && (line == null ==> old(line) == null)
        invariant done ==> Returns(a, text, old(line) == null, old(maxLineSize), r)
        decreases !done, |a.blocks| - a.next, |block| - blockOffset
      {
        ghost var first := line == null;
        done, r, acc := Step(a, text, acc);
        if done && !first { OnlyFirst(a, text, old(line) == null, old(maxLineSize), r); }
      }
    }

    lemma Stops(a: Archive, text: string, first: bool, max: nat, r: int)
      requires Fresh(0)
      requires (r == -ERANGE && |Split(text)[0]| >= max) || (r < 0 && r != -ERANGE && r == a.ending && |Split(text)| == 1)
      ensures Returns(a, text, first, max, r)
    {
      hide Split, NextLine;
    }

    lemma Delivers(a: Archive, text: string, first: bool, max: nat)
      requires NextLine(a, Split(text)) && maxLineSize == max && (|Split(text)[0]| < max || first)
      ensures Returns(a, text, first, max, ARCHIVE_OK)
    {
      hide Split, NextLine;
    }

    lemma OnlyFirst(a: Archive, text: string, first: bool, max: nat, r: int)
      requires Returns(a, text, false, max, r)
      ensures Returns(a, text, first, max, r)
    {
      hide Split, NextLine;
    }
  }

  lemma PieceOneLine(s: string)
    ensures OneLine(s[..Find(s, '\n')]) && OneLine("")
  {
  }

  lemma EndsGathered(text: string, acc: string)
    requires text == acc + "" && OneLine(acc)
    ensures |Split(text)| == 1
  {
    assert text == acc;
    SplitWithout(acc);
  }

  /** A stretch without newline that does not fit belongs to a first piece that does not fit. */
  lemma TooLong(text: string, acc: string, remaining: string, eol: nat, unread: string)
    requires text == acc + (remaining + unread) && OneLine(acc) && eol <= |remaining| && OneLine(remaining[..eol])
    ensures |Split(text)[0]| >= |acc| + eol
  {
    hide Split;
    OneLineJoins(acc, remaining[..eol]);
    assert text == (acc + remaining[..eol]) + (remaining[eol..] + unread);
    FirstPieceAtLeast(acc + remaining[..eol], remaining[eol..] + unread);
  }

  lemma BlockSplits(block: string, offset: nat, eol: nat)
    requires offset + eol < |block| && block[offset+eol] == '\n'
    ensures block[offset..] == block[offset..offset+eol] + ("\n" + block[offset+eol+1..])
  {
  }

  lemma PieceOf(block: string, offset: nat, eol: nat)
    requires offset + eol <= |block|
    ensures block[offset..][..eol] == block[offset..offset+eol]
    ensures offset + eol == |block| ==> block[offset..offset+eol] == block[offset..]
  {
  }

  lemma NoNul(block: string, offset: nat)
    requires offset <= |block| && forall k :: 0 <= k < |block| ==> block[k] != '\0'
    ensures Find(block[offset..], '\0') == |block| - offset
  {
    FindUnique(block[offset..], '\0', |block| - offset);
  }

  // ---- reading all lines ----

  /** The lines so far, and those to come. */
  ghost predicate Progress(b: ReadBuffer, a: Archive, pieces: seq<string>, lines: seq<string>)
    reads b, a
  {
    b.Reading(a) && if b.AtEnd(a) then lines == pieces else pieces == lines + Split(b.Rest(a))
  }

  lemma ProgressNext(pieces: seq<string>, lines: seq<string>, next: seq<string>)
    requires pieces == lines + next && next != []
    ensures pieces == (lines + [next[0]]) + next[1..] && |lines| < |pieces| && pieces[|lines|] == next[0]
  {
  }

  /** The loop of callers such as `parse_descfile`: however the text is cut into blocks, the lines are its pieces. */
  method ReadLines(a: Archive, maxLineSize: nat) returns (lines: seq<string>, ret: int)
    requires a.Valid() && a.Plain() && a.next == 0
    modifies a
    ensures lines <= Split(Concat(a.blocks))
    ensures ret == ARCHIVE_EOF ==> lines == Split(Concat(a.blocks))
    ensures a.ending == ARCHIVE_EOF && (forall piece :: piece in Split(Concat(a.blocks)) ==> |piece| < maxLineSize) ==> ret == ARCHIVE_EOF
  {
    hide Split, Concat, Find, OneLine;
    var b := new ReadBuffer(maxLineSize);
    lines := [];
    ghost var text, pieces := Concat(a.blocks), Split(Concat(a.blocks));
    assert a.blocks[0..] == a.blocks && b.Rest(a) == text;
    ret := ARCHIVE_OK;
    ghost var left := |pieces|;
    while ret == ARCHIVE_OK
      invariant fresh(b) && fresh(b.LineRepr()) && b.Valid() && a.Valid()
      invariant lines <= pieces
      invariant ret == ARCHIVE_OK ==> Progress(b, a, pieces, lines) && b.maxLineSize == maxLineSize && left == |pieces| - |lines|
      invariant ret == ARCHIVE_EOF ==> lines == pieces
      invariant ret == -ERANGE ==> |lines| < |pieces| && |pieces[|lines|]| >= maxLineSize
      invariant ret == ARCHIVE_OK || ret == ARCHIVE_EOF || ret == -ERANGE || ret == a.ending
      decreases ret == ARCHIVE_OK, left
    {
      ghost var end := b.AtEnd(a);
      ghost var next := Split(b.Rest(a));
      if !end { ProgressNext(pieces, lines, next); }
      ret := b.Fgets(a);
      if ret == ARCHIVE_OK {
        lines := lines + [b.line[..b.realLineSize]];
        left := left - 1;
      }
    }
  }
}
