/** Feeding the targets of a hook to a child process through a bounded buffer. */
module HookFeed {
  import opened Common

  /** The text that the remaining targets stand for: each followed by a newline. */
  function Lines(targets: seq<string>): string {
    if targets == [] then "" else targets[0] + "\n" + Lines(targets[1..])
  }

  /** Each target appears in its place, with one newline after it. */
  lemma {:induction false} LinesAre(before: seq<string>, target: string, after: seq<string>)
    ensures Lines(before + [target] + after) == Lines(before) + target + "\n" + Lines(after)
  {
    var all := before + [target] + after;
    if before == [] {
      assert all[1..] == after;
    } else {
      assert all[1..] == before[1..] + [target] + after;
      LinesAre(before[1..], target, after);
    }
  }

  /** What the callback has still to hand out; the data of the first target may have been fed in part. */
  class Feed {
    var pos: seq<string>

    constructor (targets: seq<string>)
      ensures pos == targets
    {
      pos := targets;
    }

    ghost function Left(): string
      reads this
    {
      Lines(pos)
    }

    /** `_alpm_hook_feed_targets` */
    method FeedTargets(buf: array<char>, needed: nat) returns (written: nat)
      requires needed <= buf.Length
      modifies this, buf
      ensures written <= needed && old(Left()) == buf[..written] + Left()
      ensures needed > 0 ==> (written == 0 <==> old(pos) == [])
      ensures needed > 0 && written < needed ==> pos == []
    {
      var remaining: nat, at: nat := needed, 0;
      written := 0;
      while pos != [] && |pos[0]| + 1 <= remaining
        invariant written == at && at + remaining == needed
        invariant old(Left()) == buf[..at] + Left()
        invariant written == 0 ==> pos == old(pos)
        decreases |pos|
      {
        var data := pos[0];
        ghost var before := buf[..at];
        LinesFirst(before, pos);
        CopyInto(buf, at, data);
        assert buf[..at+|data|] == buf[..at] + buf[at..at+|data|];
        buf[at+|data|] := '\n';
        assert buf[..at+|data|+1] == buf[..at+|data|] + "\n";
        pos := pos[1..];
        at, remaining, written := at + |data| + 1, remaining - |data| - 1, written + |data| + 1;
      }
      if pos != [] && remaining > 0 {
        var data := pos[0];
        ghost var before := buf[..at];
        LinesAdvance(before, pos, remaining);
        var piece := data[..remaining];
        CopyInto(buf, at, piece);
        assert buf[..at+|piece|] == buf[..at] + buf[at..at+|piece|];
        pos := [data[remaining..]] + pos[1..];
        written := written + remaining;
      }
    }
  }

  lemma LinesStep(pos: seq<string>, data: string)
    requires pos != [] && pos[0] == data
    ensures Lines(pos) == data + ("\n" + Lines(pos[1..]))
  {
    assert data + "\n" + Lines(pos[1..]) == data + ("\n" + Lines(pos[1..]));
  }

  lemma Regroup(a: string, b: string, c: string, d: string)
    ensures a + ((b + c) + d) == (a + b) + (c + d)
  {
  }

  lemma LinesFirst(done: string, pos: seq<string>)
    requires pos != []
    ensures done + Lines(pos) == (done + pos[0] + "\n") + Lines(pos[1..])
  {
    hide Lines;
    LinesStep(pos, pos[0]);
    Regroup(done, pos[0], "\n", Lines(pos[1..]));
    assert pos[0] + ("\n" + Lines(pos[1..])) == (pos[0] + "\n") + Lines(pos[1..]);
    assert done + (pos[0] + "\n") == done + pos[0] + "\n";
  }

  /** Moving the data pointer of the first target leaves the rest of its line. */
  lemma LinesAdvance(done: string, pos: seq<string>, n: nat)
    requires pos != [] && n <= |pos[0]|
    ensures done + Lines(pos) == (done + pos[0][..n]) + Lines([pos[0][n..]] + pos[1..])
  {
    hide Lines;
    var pos' := [pos[0][n..]] + pos[1..];
    LinesStep(pos, pos[0]);
    LinesStep(pos', pos[0][n..]);
    assert pos'[1..] == pos[1..] && pos[0] == pos[0][..n] + pos[0][n..];
    Regroup(done, pos[0][..n], pos[0][n..], "\n" + Lines(pos[1..]));
  }

  /** The sending side of the child's standard input; `received` is what has gone through. */
  class Child {
    const buf: array<char>
    const limit: nat
    var size: nat
    var received: string

    constructor (limit: nat)
      requires limit > 0
      ensures Valid() && fresh(buf) && received == "" && size == 0 && this.limit == limit
    {
      buf := new char[limit];
      this.limit, size, received := limit, 0, "";
    }

    ghost predicate Valid()
      reads this
    {
      0 < limit <= buf.Length && size <= limit
    }

    /** Everything that was to be sent: gone through, buffered, or not yet fed. */
    ghost function All(feed: Feed): string
      requires Valid()
      reads this, buf, feed
    {
      received + buf[..size] + feed.Left()
    }

    /** Drops the first `n` characters of the buffer. */
    method Shift(n: nat)
      requires Valid() && n <= size
      modifies this`size, buf
      ensures Valid() && size == old(size) - n && buf[..size] == old(buf[n..size])
    {
      size := size - n;
      forall k | 0 <= k < size { buf[k] := buf[n+k]; }
    }

    /** Asks for more when the buffer is empty. */
    method Refill(feed: Feed)
      requires Valid()
      modifies this`size, buf, feed
      ensures Valid() && All(feed) == old(All(feed)) && (size == 0 ==> feed.pos == [])
    {
      if size == 0 {
        assert buf[..0] == "";
        size := feed.FeedTargets(buf, limit);
        assert received + (buf[..size] + feed.Left()) == received + buf[..size] + feed.Left();
      }
    }

    /** A send that took `n` characters. */
    method Accept(n: nat)
      requires Valid() && n <= size
      modifies this, buf
      ensures Valid() && received + buf[..size] == old(received + buf[..size]) && old(received) <= received
    {
      ghost var whole := buf[..size];
      received := received + buf[..n];
      Shift(n);
      assert whole == whole[..n] + whole[n..];
    }

    /** `_alpm_chroot_write_to_child`; how much a send accepts, or how it fails, is up to the system. */
    method WriteToChild(feed: Feed) returns (ret: int, failed: bool)
      requires Valid()
      modifies this, buf, feed
      ensures Valid() && All(feed) == old(All(feed)) && old(received) <= received
      ensures ret == 0 || ret == -1
      ensures ret == -1 && !failed ==> size == 0 && feed.pos == []
      ensures failed ==> ret == -1
    {
      failed := false;
      Refill(feed);
      if size == 0 { return -1, false; }
      var accepted: int := *;
      var again: bool := *;
      if 0 <= accepted <= size {
        Accept(accepted);
      } else if !again {
        return -1, true;
      }
      ret := 0;
    }
  }

  /** After any number of sends, whatever each of them accepted, nothing is lost, repeated or reordered; once
      writing ends without a failure the child has the whole text. */
  method Run(child: Child, feed: Feed, rounds: nat) returns (ret: int, failed: bool)
    requires child.Valid() && child.size == 0 && child.received == ""
    modifies child, child.buf, feed
    ensures child.Valid() && child.All(feed) == old(feed.Left())
    ensures ret == -1 && !failed ==> child.received == old(feed.Left())
  {
    ret, failed := 0, false;
    var i := 0;
    while i < rounds && ret == 0
      invariant child.Valid() && child.All(feed) == old(feed.Left())
      invariant ret == -1 && !failed ==> child.size == 0 && feed.pos == []
    {
      ret, failed := child.WriteToChild(feed);
      i := i + 1;
    }
    assert ret == -1 && !failed ==> child.All(feed) == child.received;
  }
}
