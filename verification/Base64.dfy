/** Base64 as `base64_encode` writes it and `base64_decode` reads it, line breaks included (section 5.2 of RFC 1521). */
module Base64 {
  type byte = x: int | 0 <= x < 256

  const CR: byte := 13
  const LF: byte := 10
  const PAD: byte := 61

  datatype Status = Ok | BufferTooSmall | InvalidCharacter

  /** `base64_enc_map` */
  function EncMap(v: nat): (c: byte)
    requires v < 64
  {
    if v < 26 then 65 + v else if v < 52 then 71 + v else if v < 62 then v - 4 else if v == 62 then 43 else 47
  }

  /** `base64_dec_map`, with the rejected codes above 127 included: 64 for the padding, 127 for what is no digit. */
  function DecMap(c: byte): (v: nat) {
    if 65 <= c <= 90 then c - 65 else if 97 <= c <= 122 then c - 71 else if 48 <= c <= 57 then c + 4
    else if c == 43 then 62 else if c == 47 then 63 else if c == PAD then 64 else 127
  }

  // ---- encoding ----

  function ByteAt(s: seq<byte>, i: nat): byte { if i < |s| then s[i] else 0 }

  /** The character at position `i`: a sextet of its group of three bytes, or padding. */
  function EncodedAt(s: seq<byte>, i: nat): byte {
    var g := 3 * (i / 4);
    var b0, b1, b2 := ByteAt(s, g), ByteAt(s, g + 1), ByteAt(s, g + 2);
    if i % 4 == 0 then EncMap(b0 / 4)
    else if i % 4 == 1 then EncMap(b0 % 4 * 16 + b1 / 16)
    else if i % 4 == 2 then if g + 1 < |s| then EncMap(b1 % 16 * 4 + b2 / 64) else PAD
    else if g + 2 < |s| then EncMap(b2 % 64) else PAD
  }

  function EncodedLength(n: nat): nat { 4 * ((n + 2) / 3) }

  function Encoded(s: seq<byte>): (t: seq<byte>)
    ensures |t| == EncodedLength(|s|) && forall i :: 0 <= i < |t| ==> t[i] == EncodedAt(s, i)
  {
    seq(EncodedLength(|s|), i requires i >= 0 => EncodedAt(s, i))
  }

  lemma SizeIs(slen: nat)
    ensures var n := slen * 8 / 6; var left := slen * 8 - n * 6;
            (if left == 2 then n + 3 else if left == 4 then n + 2 else n) == EncodedLength(slen)
  {
  }

  lemma GroupFits(slen: nat, g: nat)
    requires 3 * g < slen / 3 * 3
    ensures 3 * g + 3 <= slen / 3 * 3 && 4 * g + 4 <= EncodedLength(slen)
  {
  }

  lemma TailFits(slen: nat, g: nat)
    requires 3 * g == slen / 3 * 3
    ensures 3 * g <= slen <= 3 * g + 2 && EncodedLength(slen) == if 3 * g < slen then 4 * g + 4 else 4 * g
  {
  }

  /** `base64_encode` */
  method Encode(dst: array<byte>, dlen0: nat, src: array<byte>) returns (ret: Status, dlen: nat)
    requires dlen0 <= dst.Length && dst != src
    modifies dst
    ensures src.Length == 0 ==> ret == Ok && dlen == dlen0 && dst[..] == old(dst[..])
    ensures src.Length > 0 && dlen0 < EncodedLength(src.Length) + 1 ==>
              ret == BufferTooSmall && dlen == EncodedLength(src.Length) + 1 && dst[..] == old(dst[..])
    ensures src.Length > 0 && dlen0 >= EncodedLength(src.Length) + 1 ==>
              ret == Ok && dlen == EncodedLength(src.Length) && dst[..dlen] == Encoded(src[..]) && dst[dlen] == 0
  {
    hide EncodedAt, EncMap, EncodedLength;
    var slen := src.Length;
    if slen == 0 { return Ok, dlen0; }
    var n := slen * 8 / 6;
    var left := slen * 8 - n * 6;
    n := if left == 2 then n + 3 else if left == 4 then n + 2 else n;
    SizeIs(slen);
    if dlen0 < n + 1 { return BufferTooSmall, n + 1; }
    ghost var s := src[..];
    var whole := slen / 3 * 3;
    var i, p := 0, 0;
    ghost var g: nat := 0;
    while i < whole
      invariant i <= whole && i == 3 * g && p == 4 * g && p <= EncodedLength(slen)
      invariant forall k :: 0 <= k < p ==> dst[k] == EncodedAt(s, k)
    {
      GroupFits(slen, g);
      EncodeGroup(dst, p, src[i], src[i+1], src[i+2], s, g);
      i, p, g := i + 3, p + 4, g + 1;
    }
    TailFits(slen, g);
    if i < slen {
      var c1, c2 := src[i], if i + 1 < slen then src[i+1] else 0;
      EncodeTail(dst, p, c1, c2, i + 1 < slen, s, g);
      p := p + 4;
    }
    dlen := p;
    dst[p] := 0;
    ret := Ok;
  }

  /** The padded characters of the one or two bytes left over. */
  method EncodeTail(dst: array<byte>, p: nat, c1: byte, c2: byte, two: bool, ghost s: seq<byte>, ghost g: nat)
    requires p + 4 <= dst.Length && p == 4 * g && 3 * g + (if two then 2 else 1) == |s|
    requires c1 == s[3*g] && c2 == ByteAt(s, 3 * g + 1)
    modifies dst
    ensures forall k :: 0 <= k < p ==> dst[k] == old(dst[k])
    ensures forall k :: p <= k < p + 4 ==> dst[k] == EncodedAt(s, k)
  {
    hide EncMap;
    dst[p] := EncMap(c1 / 4);
    dst[p+1] := EncMap(c1 % 4 * 16 + c2 / 16);
    dst[p+2] := if two then EncMap(c2 % 16 * 4) else PAD;
    dst[p+3] := PAD;
  }

  /** The four characters of a whole group. */
  method EncodeGroup(dst: array<byte>, p: nat, c1: byte, c2: byte, c3: byte, ghost s: seq<byte>, ghost g: nat)
    requires p + 4 <= dst.Length && p == 4 * g && 3 * g + 2 < |s|
    requires c1 == s[3*g] && c2 == s[3*g+1] && c3 == s[3*g+2]
    modifies dst
    ensures forall k :: 0 <= k < p ==> dst[k] == old(dst[k])
    ensures forall k :: p <= k < p + 4 ==> dst[k] == EncodedAt(s, k)
  {
    hide EncMap;
    dst[p] := EncMap(c1 / 4);
    dst[p+1] := EncMap(c1 % 4 * 16 + c2 / 16);
    dst[p+2] := EncMap(c2 % 16 * 4 + c3 / 64);
    dst[p+3] := EncMap(c3 % 64);
  }

  // ---- what decoding accepts and gives ----

  predicate Break(c: byte) { c == CR || c == LF }

  /** The characters that are not part of line breaks. */
  function Strip(t: seq<byte>): (cs: seq<byte>)
    ensures |cs| <= |t|
  {
    if t == [] then [] else
      var n := |t| - 1;
      if Break(t[n]) then Strip(t[..n]) else Strip(t[..n]) + [t[n]]
  }

  /** Digits, then at most two paddings. */
  predicate WellPadded(cs: seq<byte>) {
    && (forall k :: 0 <= k < |cs| ==> DecMap(cs[k]) <= 64)
    && (forall k :: 0 <= k < |cs| && cs[k] == PAD ==> k >= |cs| - 2)
    && (|cs| >= 2 && cs[|cs|-2] == PAD ==> cs[|cs|-1] == PAD)
  }

  /** Every CR begins a CRLF, and the rest is well padded. */
  predicate Accepted(t: seq<byte>) {
    (forall k :: 0 <= k < |t| && t[k] == CR ==> k + 1 < |t| && t[k+1] == LF) && WellPadded(Strip(t))
  }

  /** The paddings among the first `n` characters. */
  function Pads(cs: seq<byte>, n: nat): (j: nat)
    requires n <= |cs|
    ensures j <= n
  {
    if n == 0 then 0 else Pads(cs, n - 1) + if cs[n-1] == PAD then 1 else 0
  }

  function Sextet(c: byte): nat { DecMap(c) % 64 }

  function QuadValue(a: byte, b: byte, c: byte, d: byte): nat {
    Sextet(a) * 262144 + Sextet(b) * 4096 + Sextet(c) * 64 + Sextet(d)
  }

  /** The bytes of a 24-bit value, as many as the paddings leave. */
  function QuadBytes(v: nat, j: nat): (bs: seq<byte>)
    requires v < 0x100_0000
  {
    var bs: seq<byte> := [v / 65536, v / 256 % 256, v % 256];
    if j >= 3 then bs else bs[..j]
  }

  /** The bytes of the first `q` quadruples. */
  function Quads(cs: seq<byte>, q: nat): (bs: seq<byte>)
    requires 4 * q <= |cs|
    ensures |bs| <= 3 * q
  {
    if q == 0 then [] else
      var pads := Pads(cs, 4 * q);
      Quads(cs, q - 1) + QuadBytes(QuadValue(cs[4*q-4], cs[4*q-3], cs[4*q-2], cs[4*q-1]), if pads <= 3 then 3 - pads else 0)
  }

  function Decoded(cs: seq<byte>): seq<byte> { Quads(cs, |cs| / 4) }

  /** The size that the first pass asks for. */
  function Needed(n: nat): nat { (n * 6 + 7) / 8 }

  /** Whole bytes for six bits a character, and no more. */
  lemma NeededMeans(n: nat)
    ensures Needed(n) * 8 >= n * 6
    ensures n > 0 ==> (Needed(n) - 1) * 8 < n * 6
  {
  }

  // ---- the first pass ----

  lemma {:induction false} StripContinues(t: seq<byte>, i: nat)
    requires i < |t| && !Break(t[i])
    ensures |Strip(t)| > |Strip(t[..i])| && Strip(t[..i]) <= Strip(t) && Strip(t)[|Strip(t[..i])|] == t[i]
    decreases |t|
  {
    var n := |t| - 1;
    if i < n {
      StripContinues(t[..n], i);
      assert t[..n][..i] == t[..i];
    }
  }

  lemma StripNext(t: seq<byte>, i: nat)
    requires i < |t|
    ensures Strip(t[..i+1]) == if Break(t[i]) then Strip(t[..i]) else Strip(t[..i]) + [t[i]]
  {
    assert t[..i+1][..i] == t[..i];
  }

  /** What the first pass knows of a prefix: `j` paddings, all at its end. */
  predicate PrefixPadded(cs: seq<byte>, j: nat) {
    j <= 2 && j <= |cs| && forall k :: 0 <= k < |cs| ==> DecMap(cs[k]) <= 64 && (cs[k] == PAD <==> k >= |cs| - j)
  }

  /** A character that the first pass rejects spoils the whole text. */
  lemma Rejects(t: seq<byte>, i: nat, j: nat)
    requires i < |t| && !Break(t[i]) && PrefixPadded(Strip(t[..i]), j)
    requires (t[i] == PAD && j == 2) || DecMap(t[i]) == 127 || (DecMap(t[i]) < 64 && j != 0)
    ensures !Accepted(t)
  {
    StripContinues(t, i);
    var before, cs := Strip(t[..i]), Strip(t);
    if j != 0 {
      assert cs[|before|-1] == before[|before|-1] == PAD;
      assert j == 2 ==> cs[|before|-2] == before[|before|-2] == PAD;
    }
  }

  lemma PrefixNext(cs: seq<byte>, c: byte, j: nat)
    requires PrefixPadded(cs, j) && DecMap(c) <= 64 && (if c == PAD then j < 2 else j == 0)
    ensures PrefixPadded(cs + [c], if c == PAD then j + 1 else j)
  {
  }

  /** Every CR among the first `i` characters begins a CRLF. */
  predicate Paired(t: seq<byte>, i: nat)
    requires i <= |t|
  {
    forall k :: 0 <= k < i && t[k] == CR ==> k + 1 < |t| && t[k+1] == LF
  }

  lemma PairedNext(t: seq<byte>, i: nat)
    requires i < |t| && Paired(t, i) && (t[i] == CR ==> i + 1 < |t| && t[i+1] == LF)
    ensures Paired(t, i + 1)
  {
  }

  /** The first pass of `base64_decode`. */
  method Check(src: array<byte>) returns (ok: bool, n: nat)
    ensures ok <==> Accepted(src[..])
    ensures ok ==> n == |Strip(src[..])|
  {
    hide Accepted, PrefixPadded, Paired, DecMap, Strip;
    var slen := src.Length;
    ghost var t := src[..];
    NothingStripped(t);
    var i, j: nat := 0, 0;
    n := 0;
    while i < slen
      invariant i <= slen && PrefixPadded(Strip(t[..i]), j) && n == |Strip(t[..i])| && Paired(t, i)
    {
      StripNext(t, i);
      if slen - i >= 2 && src[i] == CR && src[i+1] == LF {
        PairedNext(t, i);
        i := i + 1;
        continue;
      }
      if src[i] == LF {
        PairedNext(t, i);
        i := i + 1;
        continue;
      }
      if src[i] == CR {
        LoneReturn(t, i);
        NoDigit();
      } else if (src[i] == PAD && j == 2) || DecMap(src[i]) == 127 || (DecMap(src[i]) < 64 && j != 0) {
        Rejects(t, i, j);
      } else {
        DigitOrPad(src[i]);
        AtMostTwo(Strip(t[..i]), j);
        PrefixNext(Strip(t[..i]), src[i], j);
        PairedNext(t, i);
      }
      if src[i] == PAD {
        j := j + 1;
        if j > 2 { AtMostTwo(Strip(t[..i]), j - 1); return false, 0; }
      }
      if DecMap(src[i]) == 127 { return false, 0; }
      if DecMap(src[i]) < 64 && j != 0 { DigitOrPad(src[i]); return false, 0; }
      n := n + 1;
      i := i + 1;
    }
    assert t[..slen] == t;
    Accepts(t, j);
    ok := true;
  }

  lemma NothingStripped(t: seq<byte>)
    ensures Strip(t[..0]) == [] && PrefixPadded([], 0) && Paired(t, 0)
  {
  }

  lemma NoDigit()
    ensures DecMap(CR) == 127
  {
  }

  lemma DigitOrPad(c: byte)
    ensures DecMap(c) < 64 || DecMap(c) == 64 || DecMap(c) == 127
    ensures DecMap(c) == 64 <==> c == PAD
  {
  }

  lemma AtMostTwo(cs: seq<byte>, j: nat)
    ensures PrefixPadded(cs, j) ==> j <= 2
  {
  }

  lemma LoneReturn(t: seq<byte>, i: nat)
    requires i < |t| && t[i] == CR && !(i + 1 < |t| && t[i+1] == LF)
    ensures !Accepted(t)
  {
  }

  lemma Accepts(t: seq<byte>, j: nat)
    requires PrefixPadded(Strip(t), j) && Paired(t, |t|)
    ensures Accepted(t)
  {
  }

  // ---- the second pass ----

  /** Shifting a digit into the accumulator, of which the lowest `n` digits matter. */
  function Place(n: nat): nat
    requires n <= 4
  {
    if n == 0 then 1 else if n == 1 then 64 else if n == 2 then 4096 else if n == 3 then 262144 else 16777216
  }

  lemma Low6(y: nat) ensures y % 0x1_0000_0000 % 64 == y % 64 {}
  lemma Low12(y: nat) ensures y % 0x1_0000_0000 % 4096 == y % 4096 {}
  lemma Low18(y: nat) ensures y % 0x1_0000_0000 % 262144 == y % 262144 {}
  lemma Low24(y: nat) ensures y % 0x1_0000_0000 % 16777216 == y % 16777216 {}

  lemma Shift0(x: nat, v: nat) requires v < 64 ensures (x * 64 + v) % 64 == v {}
  lemma Shift1(x: nat, v: nat) requires v < 64 ensures (x * 64 + v) % 4096 == (x % 64) * 64 + v { assert x == x / 64 * 64 + x % 64; }
  lemma Shift2(x: nat, v: nat) requires v < 64 ensures (x * 64 + v) % 262144 == (x % 4096) * 64 + v { assert x == x / 4096 * 4096 + x % 4096; }
  lemma Shift3(x: nat, v: nat) requires v < 64 ensures (x * 64 + v) % 16777216 == (x % 262144) * 64 + v {
    assert x == x / 262144 * 262144 + x % 262144;
  }

  lemma ShiftIn(x: nat, v: nat, n: nat)
    requires n < 4 && v < 64
    ensures ((x * 64 + v) % 0x1_0000_0000) % Place(n + 1) == (x % Place(n)) * 64 + v
  {
    if n == 0 {
      Low6(x * 64 + v);
      Shift0(x, v);
    } else if n == 1 {
      Low12(x * 64 + v);
      Shift1(x, v);
    } else if n == 2 {
      Low18(x * 64 + v);
      Shift2(x, v);
    } else {
      Low24(x * 64 + v);
      Shift3(x, v);
    }
  }

  /** The value of the last `n` digits of `cs`. */
  function Last(cs: seq<byte>, n: nat): nat
    requires n <= 4 && n <= |cs|
  {
    var e := |cs|;
    if n == 0 then 0 else if n == 1 then Sextet(cs[e-1])
    else if n == 2 then Sextet(cs[e-2]) * 64 + Sextet(cs[e-1])
    else if n == 3 then Sextet(cs[e-3]) * 4096 + Sextet(cs[e-2]) * 64 + Sextet(cs[e-1])
    else QuadValue(cs[e-4], cs[e-3], cs[e-2], cs[e-1])
  }

  lemma LastNext(cs: seq<byte>, c: byte, n: nat)
    requires n < 4 && n <= |cs|
    ensures Last(cs + [c], n + 1) == Last(cs, n) * 64 + Sextet(c)
  {
  }

  lemma {:induction false} PadsOfPrefix(cs: seq<byte>, more: seq<byte>, n: nat)
    requires n <= |cs| && cs <= more
    ensures Pads(more, n) == Pads(cs, n)
  {
    if n > 0 { PadsOfPrefix(cs, more, n - 1); }
  }

  lemma {:induction false} QuadsOfPrefix(cs: seq<byte>, more: seq<byte>, q: nat)
    requires 4 * q <= |cs| && cs <= more
    ensures Quads(more, q) == Quads(cs, q)
  {
    if q > 0 {
      QuadsOfPrefix(cs, more, q - 1);
      PadsOfPrefix(cs, more, 4 * q);
      assert forall k :: 4 * q - 4 <= k < 4 * q ==> more[k] == cs[k];
    }
  }

  lemma {:induction false} FewPads(cs: seq<byte>, n: nat)
    requires WellPadded(cs) && n <= |cs|
    ensures Pads(cs, n) <= 2 && (n <= |cs| - 2 ==> Pads(cs, n) == 0) && (n == |cs| - 1 ==> Pads(cs, n) <= 1)
  {
    if n > 0 {
      FewPads(cs, n - 1);
    }
  }

  lemma {:induction false} StripPrefix(t: seq<byte>, i: nat)
    requires i <= |t|
    ensures Strip(t[..i]) <= Strip(t)
    decreases |t|
  {
    if i < |t| {
      StripPrefix(t[..|t|-1], i);
      assert t[..|t|-1][..i] == t[..i];
    } else {
      assert t[..i] == t;
    }
  }

  /** The state of the second pass after the characters `cs`: paddings left, digits pending, bytes written. */
  predicate Pass(cs: seq<byte>, j: nat, n: nat, x: nat, written: seq<byte>) {
    && n == |cs| % 4 && Pads(cs, |cs|) <= 2 && j == 3 - Pads(cs, |cs|)
    && x % Place(n) == Last(cs, n) && written == Decoded(cs)
  }

  lemma PassPends(cs: seq<byte>, c: byte, j: nat, n: nat, x: nat, written: seq<byte>)
    requires Pass(cs, j, n, x, written) && Pads(cs + [c], |cs| + 1) <= 2 && n < 3
    ensures Pass(cs + [c], 3 - Pads(cs + [c], |cs| + 1), n + 1, (x * 64 + Sextet(c)) % 0x1_0000_0000, written)
  {
    assert Sextet(c) < 64;
    hide QuadBytes, DecMap, Last, Place, Quads, Sextet;
    ShiftIn(x, Sextet(c), n);
    LastNext(cs, c, n);
    assert (|cs| + 1) / 4 == |cs| / 4;
    QuadsOfPrefix(cs, cs + [c], |cs| / 4);
  }

  lemma PassWrites(cs: seq<byte>, c: byte, j: nat, x: nat, written: seq<byte>, more: seq<byte>)
    requires Pass(cs, j, 3, x, written) && Pads(cs + [c], |cs| + 1) <= 2
    requires var x' := (x * 64 + Sextet(c)) % 0x1_0000_0000;
             more == written + QuadBytes(x' % 0x100_0000, 3 - Pads(cs + [c], |cs| + 1))
    ensures Pass(cs + [c], 3 - Pads(cs + [c], |cs| + 1), 0, (x * 64 + Sextet(c)) % 0x1_0000_0000, more)
  {
    hide QuadBytes, DecMap, Decoded, Pads, Sextet, Last, Place;
    SmallSextet(c);
    ShiftIn(x, Sextet(c), 3);
    LastNext(cs, c, 3);
    DecodedNext(cs, c);
    Places((x * 64 + Sextet(c)) % 0x1_0000_0000, cs + [c]);
  }

  lemma SmallSextet(c: byte)
    ensures Sextet(c) < 64
  {
  }

  lemma Places(x: nat, cs: seq<byte>)
    ensures x % Place(0) == Last(cs, 0) == 0 && Place(4) == 0x100_0000
  {
  }

  lemma SmallQuad(cs: seq<byte>)
    requires |cs| >= 4
    ensures Last(cs, 4) < 0x100_0000
  {
    hide Sextet;
    SmallSextet(cs[|cs|-4]);
    SmallSextet(cs[|cs|-3]);
    SmallSextet(cs[|cs|-2]);
    SmallSextet(cs[|cs|-1]);
  }

  /** A full quadruple adds its bytes. */
  lemma DecodedNext(cs: seq<byte>, c: byte)
    requires |cs| % 4 == 3 && Pads(cs + [c], |cs| + 1) <= 2
    ensures Last(cs + [c], 4) < 0x100_0000
    ensures Decoded(cs + [c]) == Decoded(cs) + QuadBytes(Last(cs + [c], 4), 3 - Pads(cs + [c], |cs| + 1))
  {
    hide QuadBytes, Pads, QuadValue, Quads, Last;
    var q := |cs| / 4;
    assert |cs| == 4 * q + 3;
    LastQuad(cs + [c], q);
    QuadsOfPrefix(cs, cs + [c], q);
  }

  lemma LastQuad(all: seq<byte>, q: nat)
    requires |all| == 4 * q + 4 && Pads(all, |all|) <= 2
    ensures Last(all, 4) < 0x100_0000
    ensures Decoded(all) == Quads(all, q) + QuadBytes(Last(all, 4), 3 - Pads(all, |all|))
  {
    hide QuadBytes, Pads, QuadValue;
    SmallQuad(all);
    assert |all| / 4 == q + 1;
  }

  lemma HighByte(a: nat, v: nat) requires v < 0x100_0000 ensures (a * 0x100_0000 + v) / 65536 % 256 == v / 65536 {}
  lemma MiddleBits(a: nat, w: nat) ensures (a * 65536 + w) % 256 == w % 256 {}
  lemma MiddleByte(a: nat, v: nat) ensures (a * 0x100_0000 + v) / 256 % 256 == v / 256 % 256 {
    assert (a * 0x100_0000 + v) / 256 == a * 65536 + v / 256;
    MiddleBits(a, v / 256);
  }
  lemma LowByte(a: nat, v: nat) ensures (a * 0x100_0000 + v) % 256 == v % 256 {}

  lemma LowBytes(x: nat)
    ensures var v := x % 0x100_0000; v / 65536 == x / 65536 % 256 && v / 256 % 256 == x / 256 % 256 && v % 256 == x % 256
  {
    HighByte(x / 0x100_0000, x % 0x100_0000);
    MiddleByte(x / 0x100_0000, x % 0x100_0000);
    LowByte(x / 0x100_0000, x % 0x100_0000);
  }

  /** Writes as many of the low three bytes of `x` as the paddings leave. */
  method WriteQuad(dst: array<byte>, p0: nat, x: nat, j: nat) returns (p: nat)
    requires 1 <= j <= 3 && p0 + 3 <= dst.Length
    modifies dst
    ensures p == p0 + j && dst[..p] == old(dst[..p0]) + QuadBytes(x % 0x100_0000, j)
    ensures forall k :: p <= k < dst.Length ==> dst[k] == old(dst[k])
  {
    LowBytes(x);
    ghost var bs := QuadBytes(x % 0x100_0000, j);
    assert |bs| == j && bs[0] == x / 65536 % 256 && (j > 1 ==> bs[1] == x / 256 % 256) && (j > 2 ==> bs[2] == x % 256);
    hide QuadBytes;
    p := p0;
    if j > 0 { dst[p] := x / 65536 % 256; p := p + 1; }
    if j > 1 { dst[p] := x / 256 % 256; p := p + 1; }
    if j > 2 { dst[p] := x % 256; p := p + 1; }
    assert dst[..p0] == old(dst[..p0]) && dst[..p] == dst[..p0] + dst[p0..p] && dst[p0..p] == bs;
  }

  lemma PadsNext(cs: seq<byte>, c: byte)
    ensures Pads(cs + [c], |cs| + 1) == Pads(cs, |cs|) + if c == PAD then 1 else 0
  {
    PadsOfPrefix(cs, cs + [c], |cs|);
  }

  /** What follows the next character keeps it well padded. */
  lemma NextPads(t: seq<byte>, i: nat)
    requires i < |t| && !Break(t[i]) && Accepted(t)
    ensures var cs := Strip(t[..i]); Pads(cs + [t[i]], |cs| + 1) <= 2 && DecMap(t[i]) <= 64 && |cs| + 1 <= |Strip(t)|
  {
    hide Strip, DecMap;
    var cs, all := Strip(t[..i]), Strip(t);
    StripNext(t, i);
    StripPrefix(t, i + 1);
    PadsOfPrefix(cs + [t[i]], all, |cs| + 1);
    FewPads(all, |cs| + 1);
    assert all[|cs|] == t[i];
  }

  /** One character that is not part of a break: its bits are shifted in, and a full quadruple is written. */
  method TakeChar(dst: array<byte>, c: byte, j0: nat, n0: nat, x0: nat, p0: nat, ghost cs: seq<byte>, ghost all: nat)
    returns (j: nat, n: nat, x: nat, p: nat)
    requires p0 <= dst.Length && Pass(cs, j0, n0, x0, dst[..p0]) && Needed(all) <= dst.Length
    requires Pads(cs + [c], |cs| + 1) <= 2 && DecMap(c) <= 64 && |cs| + 1 <= all
    modifies dst
    ensures p <= dst.Length && Pass(cs + [c], j, n, x, dst[..p])
    ensures dst[Needed(all)..] == old(dst[Needed(all)..])
  {
    hide DecMap, QuadBytes, Pass, Pads, Quads, Decoded, Needed;
    PassParts(cs, j0, n0, x0, dst[..p0]);
    PadsNext(cs, c);
    PadIs(c);
    j, n, p := j0, n0, p0;
    if DecMap(c) == 64 { j := j - 1; }
    x := (x0 * 64 + DecMap(c) % 64) % 0x1_0000_0000;
    n := n + 1;
    if n == 4 {
      n := 0;
      FullQuad(|cs|, all);
      ghost var written := dst[..p];
      p := WriteQuad(dst, p, x, j);
      PassWrites(cs, c, j0, x0, written, dst[..p]);
    } else {
      PassPends(cs, c, j0, n0, x0, dst[..p]);
    }
  }

  /** The second pass of `base64_decode`. */
  method Write(dst: array<byte>, src: array<byte>) returns (p: nat)
    requires Accepted(src[..]) && dst != src && Needed(|Strip(src[..])|) <= dst.Length
    modifies dst
    ensures p <= Needed(|Strip(src[..])|) && dst[..p] == Decoded(Strip(src[..]))
    ensures dst[Needed(|Strip(src[..])|)..] == old(dst[Needed(|Strip(src[..])|)..])
  {
    hide Accepted, DecMap, Pass, Strip, Pads, Decoded, Needed;
    ghost var t := src[..];
    var i: nat := src.Length;
    var j: nat, n: nat, x: nat := 3, 0, 0;
    p := 0;
    ghost var m: nat := 0;
    NothingPassed(t, dst[..0]);
    while i > 0
      invariant i + m == src.Length && src[..] == t
      invariant p <= dst.Length && Pass(Strip(t[..m]), j, n, x, dst[..p])
      invariant dst[Needed(|Strip(t)|)..] == old(dst[Needed(|Strip(t)|)..])
    {
      var c := src[src.Length - i];
      assert c == t[m];
      StripNext(t, m);
      if !Break(c) {
        NextPads(t, m);
        j, n, x, p := TakeChar(dst, c, j, n, x, p, Strip(t[..m]), |Strip(t)|);
      }
      i := i - 1;
      m := m + 1;
    }
    assert t[..m] == t;
    PassParts(Strip(t), j, n, x, dst[..p]);
    SizeSuffices(|Strip(t)|);
  }

  lemma NothingPassed(t: seq<byte>, written: seq<byte>)
    requires written == []
    ensures Strip(t[..0]) == [] && Pass([], 3, 0, 0, written)
  {
  }

  lemma PassParts(cs: seq<byte>, j: nat, n: nat, x: nat, written: seq<byte>)
    requires Pass(cs, j, n, x, written)
    ensures n == |cs| % 4 && Pads(cs, |cs|) <= 2 && j == 3 - Pads(cs, |cs|) && written == Decoded(cs)
    ensures |written| <= 3 * (|cs| / 4)
  {
    hide Pads, Last, Place;
  }

  lemma SizeSuffices(n: nat)
    ensures 3 * (n / 4) <= Needed(n)
  {
  }

  lemma PadIs(c: byte)
    requires DecMap(c) <= 64
    ensures DecMap(c) == 64 <==> c == PAD
  {
  }

  /** Where a quadruple ends there is room for three more bytes. */
  lemma FullQuad(n: nat, all: nat)
    requires n % 4 == 3 && n + 1 <= all
    ensures 3 * (n / 4) + 3 <= Needed(all) && (n + 1) / 4 == n / 4 + 1
  {
  }

  // ---- base64_decode ----

  /** `base64_decode`; the length of text without characters is left as it was. */
  method Decode(dst: array<byte>, dlen0: nat, src: array<byte>) returns (ret: Status, dlen: nat)
    requires dlen0 <= dst.Length && dst != src
    modifies dst
    ensures ret == InvalidCharacter <==> !Accepted(src[..])
    ensures var n := |Strip(src[..])|;
            if !Accepted(src[..]) || n == 0 then dlen == dlen0 && dst[..] == old(dst[..])
            else if dlen0 < Needed(n) then ret == BufferTooSmall && dlen == Needed(n) && dst[..] == old(dst[..])
            else ret == Ok && dlen <= Needed(n) && dst[..dlen] == Decoded(Strip(src[..])) && dst[Needed(n)..] == old(dst[Needed(n)..])
    ensures Accepted(src[..]) && |Strip(src[..])| == 0 ==> ret == Ok
  {
    hide Accepted, Decoded, Strip;
    dlen := dlen0;
    var ok, n := Check(src);
    if !ok { return InvalidCharacter, dlen; }
    if n == 0 { return Ok, dlen; }
    if dlen0 < Needed(n) { return BufferTooSmall, Needed(n); }
    dlen := Write(dst, src);
    ret := Ok;
  }

  // ---- decoding what was encoded ----

  lemma DigitsBack(v: nat)
    requires v < 64
    ensures DecMap(EncMap(v)) == v && EncMap(v) != PAD && !Break(EncMap(v))
  {
  }

  /** No character of an encoding belongs to a line break. */
  lemma EncodedPlain(s: seq<byte>, i: nat)
    ensures !Break(EncodedAt(s, i)) && DecMap(EncodedAt(s, i)) <= 64
    ensures i < EncodedLength(|s|) ==> (EncodedAt(s, i) == PAD <==> i % 4 > 1 && 3 * (i / 4) + i % 4 > |s|)
  {
    hide DecMap, EncMap;
    var g := 3 * (i / 4);
    var b0, b1, b2 := ByteAt(s, g), ByteAt(s, g + 1), ByteAt(s, g + 2);
    DigitsBack(b0 / 4);
    DigitsBack(b0 % 4 * 16 + b1 / 16);
    DigitsBack(b1 % 16 * 4 + b2 / 64);
    DigitsBack(b2 % 64);
    DigitOrPad(PAD);
    PlainPad();
  }

  lemma PlainPad()
    ensures !Break(PAD)
  {
  }

  /** Where a padding can stand. */
  lemma PadIsLate(n: nat, k: nat)
    requires k < EncodedLength(n) && k % 4 > 1 && 3 * (k / 4) + k % 4 > n
    ensures k >= EncodedLength(n) - 2
  {
    assert (n + 2) / 3 <= k / 4 + 1;
  }

  lemma EncodedWellPadded(s: seq<byte>)
    ensures WellPadded(Encoded(s))
  {
    hide DecMap, EncodedAt, EncodedLength;
    var t := Encoded(s);
    forall k | 0 <= k < |t| ensures DecMap(t[k]) <= 64 && (t[k] == PAD ==> k >= |t| - 2) {
      EncodedPlain(s, k);
      if t[k] == PAD { PadIsLate(|s|, k); }
    }
    if |t| >= 2 {
      WholeGroups(|s|);
      GroupPads(s, |t| / 4 - 1);
    }
  }

  lemma WholeGroups(n: nat)
    ensures EncodedLength(n) % 4 == 0
  {
  }

  /** The paddings of an encoding, counted group by group. */
  lemma {:induction false} EncodedPads(s: seq<byte>, q: nat)
    requires 4 * q <= EncodedLength(|s|)
    ensures Pads(Encoded(s), 4 * q) == if 3 * q <= |s| then 0 else 3 * q - |s|
  {
    hide Pads, EncodedAt, EncodedLength;
    if q == 0 {
      NoPads(Encoded(s));
    } else {
      EncodedPads(s, q - 1);
      PadsOfQuad(Encoded(s), 4 * q - 4);
      GroupPads(s, q - 1);
    }
  }

  lemma NoPads(t: seq<byte>)
    ensures Pads(t, 0) == 0
  {
  }

  lemma PadsOfQuad(t: seq<byte>, n: nat)
    requires n + 4 <= |t|
    ensures Pads(t, n + 4) == Pads(t, n) + (if t[n] == PAD then 1 else 0) + (if t[n+1] == PAD then 1 else 0) +
                              (if t[n+2] == PAD then 1 else 0) + (if t[n+3] == PAD then 1 else 0)
  {
    assert Pads(t, n + 4) == Pads(t, n + 3) + if t[n+3] == PAD then 1 else 0;
    assert Pads(t, n + 3) == Pads(t, n + 2) + if t[n+2] == PAD then 1 else 0;
    assert Pads(t, n + 2) == Pads(t, n + 1) + if t[n+1] == PAD then 1 else 0;
  }

  /** Which of the four characters of a group are paddings. */
  lemma GroupPads(s: seq<byte>, g: nat)
    requires 4 * g + 4 <= EncodedLength(|s|)
    ensures EncodedAt(s, 4 * g) != PAD && EncodedAt(s, 4 * g + 1) != PAD
    ensures EncodedAt(s, 4 * g + 2) == PAD <==> 3 * g + 2 > |s|
    ensures EncodedAt(s, 4 * g + 3) == PAD <==> 3 * g + 3 > |s|
    ensures 3 * g < |s|
  {
    hide DecMap, EncodedAt;
    assert (4 * g) / 4 == g && (4 * g + 1) / 4 == g && (4 * g + 2) / 4 == g && (4 * g + 3) / 4 == g;
    assert (4 * g) % 4 == 0 && (4 * g + 1) % 4 == 1 && (4 * g + 2) % 4 == 2 && (4 * g + 3) % 4 == 3;
    EncodedPlain(s, 4 * g);
    EncodedPlain(s, 4 * g + 1);
    EncodedPlain(s, 4 * g + 2);
    EncodedPlain(s, 4 * g + 3);
  }

  lemma SextetsJoin(b0: byte, b1: byte, b2: byte)
    ensures (b0 / 4) * 262144 + (b0 % 4 * 16 + b1 / 16) * 4096 + (b1 % 16 * 4 + b2 / 64) * 64 + b2 % 64 ==
            b0 * 65536 + b1 * 256 + b2
  {
    assert b0 == b0 / 4 * 4 + b0 % 4 && b1 == b1 / 16 * 16 + b1 % 16 && b2 == b2 / 64 * 64 + b2 % 64;
  }

  lemma SextetAt(s: seq<byte>, q: nat, r: nat)
    requires r < 4
    ensures var g := 3 * q;
            var b0, b1, b2 := ByteAt(s, g), ByteAt(s, g + 1), ByteAt(s, g + 2);
            Sextet(EncodedAt(s, 4 * q + r)) ==
              if r == 0 then b0 / 4 else if r == 1 then b0 % 4 * 16 + b1 / 16
              else if r == 2 then b1 % 16 * 4 + b2 / 64 else b2 % 64
  {
    hide DecMap, EncMap;
    var g := 3 * q;
    assert (4 * q + r) / 4 == q && (4 * q + r) % 4 == r;
    var b0, b1, b2 := ByteAt(s, g), ByteAt(s, g + 1), ByteAt(s, g + 2);
    DigitsBack(b0 / 4);
    DigitsBack(b0 % 4 * 16 + b1 / 16);
    DigitsBack(b1 % 16 * 4 + b2 / 64);
    DigitsBack(b2 % 64);
    PadValue();
  }

  /** The value of a group is its three bytes. */
  lemma GroupValue(s: seq<byte>, q: nat)
    ensures var g, i := 3 * q, 4 * q;
            QuadValue(EncodedAt(s, i), EncodedAt(s, i + 1), EncodedAt(s, i + 2), EncodedAt(s, i + 3)) ==
              ByteAt(s, g) * 65536 + ByteAt(s, g + 1) * 256 + ByteAt(s, g + 2)
  {
    hide EncodedAt, Sextet, ByteAt;
    var g := 3 * q;
    SextetAt(s, q, 0);
    SextetAt(s, q, 1);
    SextetAt(s, q, 2);
    SextetAt(s, q, 3);
    SextetsJoin(ByteAt(s, g), ByteAt(s, g + 1), ByteAt(s, g + 2));
  }

  lemma PadValue()
    ensures DecMap(PAD) == 64
  {
  }

  lemma TopByte(b0: byte, r: nat) requires r < 65536 ensures (b0 * 65536 + r) / 65536 == b0 {}
  lemma NextByte(b0: byte, b1: byte, b2: byte) ensures (b0 * 65536 + b1 * 256 + b2) / 256 % 256 == b1 {
    assert (b0 * 65536 + b1 * 256 + b2) / 256 == b0 * 256 + b1;
  }

  lemma BytesOf(b0: byte, b1: byte, b2: byte)
    ensures QuadBytes(b0 * 65536 + b1 * 256 + b2, 3) == [b0, b1, b2]
  {
    var v := b0 * 65536 + b1 * 256 + b2;
    TopByte(b0, b1 * 256 + b2);
    NextByte(b0, b1, b2);
    assert v % 256 == b2;
  }

  lemma {:induction false} GroupsDecode(s: seq<byte>, q: nat)
    requires 4 * q <= EncodedLength(|s|)
    ensures Quads(Encoded(s), q) == s[..if 3 * q <= |s| then 3 * q else |s|]
  {
    hide DecMap, EncodedAt, QuadBytes, QuadValue;
    if q > 0 {
      GroupsDecode(s, q - 1);
      EncodedPads(s, q);
      GroupValue(s, q - 1);
      var g := 3 * (q - 1);
      BytesOf(ByteAt(s, g), ByteAt(s, g + 1), ByteAt(s, g + 2));
      LastBytes(s, g);
    }
  }

  /** The bytes of the group at `g`, as many as there are. */
  lemma LastBytes(s: seq<byte>, g: nat)
    requires g < |s|
    ensures var left := |s| - g; var bs := [ByteAt(s, g), ByteAt(s, g + 1), ByteAt(s, g + 2)];
            var v := ByteAt(s, g) * 65536 + ByteAt(s, g + 1) * 256 + ByteAt(s, g + 2);
            QuadBytes(v, if left >= 3 then 3 else left) == s[g..if left >= 3 then g + 3 else |s|] &&
            s[..g] + s[g..if left >= 3 then g + 3 else |s|] == s[..if left >= 3 then g + 3 else |s|]
  {
    BytesOf(ByteAt(s, g), ByteAt(s, g + 1), ByteAt(s, g + 2));
  }

  /** However CRLF and LF breaks are put between its characters, an encoding is accepted and decodes to the bytes. */
  lemma DecodeEncoded(s: seq<byte>, t: seq<byte>)
    requires Strip(t) == Encoded(s) && Paired(t, |t|)
    ensures Accepted(t) && Decoded(Strip(t)) == s && |s| <= Needed(|Strip(t)|)
  {
    hide DecMap, EncodedAt, QuadBytes, QuadValue, Strip, WellPadded;
    EncodedWellPadded(s);
    GroupsDecode(s, EncodedLength(|s|) / 4);
    assert s[..|s|] == s;
  }

  /** The text of an encoding itself has no breaks to skip. */
  lemma {:induction false} StripPlain(t: seq<byte>)
    requires forall i :: 0 <= i < |t| ==> !Break(t[i])
    ensures Strip(t) == t && Paired(t, |t|)
  {
    if t != [] {
      var n := |t| - 1;
      StripPlain(t[..n]);
      assert t == t[..n] + [t[n]];
    }
  }

  /** An encoding without breaks is one such text. */
  lemma PlainEncoded(s: seq<byte>)
    ensures Strip(Encoded(s)) == Encoded(s) && Paired(Encoded(s), |Encoded(s)|)
  {
    hide EncodedAt;
    forall i | 0 <= i < |Encoded(s)| ensures !Break(Encoded(s)[i]) { EncodedPlain(s, i); }
    StripPlain(Encoded(s));
  }

  // ---- the alphabet ----

  /** The digits of table 1 in section 5.2 of RFC 1521, in the order of their values. */
  const CAPITALS: string := "ABCDEFGHIJKLMNOPQRSTUVWXYZ"
  const SMALL: string := "abcdefghijklmnopqrstuvwxyz"
  const OTHERS: string := "0123456789+/"

  function DigitChar(v: nat): char
    requires v < 64
  {
    if v < 26 then CAPITALS[v] else if v < 52 then SMALL[v-26] else OTHERS[v-52]
  }

  lemma CapitalAt(v: nat)
    requires v < 26
    ensures CAPITALS[v] as int == 65 + v
  {
  }

  lemma SmallAt(v: nat)
    requires v < 26
    ensures SMALL[v] as int == 97 + v
  {
  }

  /** The table of the program is that one. */
  lemma AlphabetIs(v: nat)
    requires v < 64
    ensures EncMap(v) == DigitChar(v) as int
  {
    if v < 26 { CapitalAt(v); } else if v < 52 { SmallAt(v - 26); }
  }

  /** The characters of a group. */
  lemma GroupOf(s: seq<byte>, q: nat)
    ensures var b0, b1, b2 := ByteAt(s, 3 * q), ByteAt(s, 3 * q + 1), ByteAt(s, 3 * q + 2);
            && EncodedAt(s, 4 * q) == EncMap(b0 / 4) && EncodedAt(s, 4 * q + 1) == EncMap(b0 % 4 * 16 + b1 / 16)
            && EncodedAt(s, 4 * q + 2) == (if 3 * q + 1 < |s| then EncMap(b1 % 16 * 4 + b2 / 64) else PAD)
            && EncodedAt(s, 4 * q + 3) == (if 3 * q + 2 < |s| then EncMap(b2 % 64) else PAD)
  {
    hide EncMap, ByteAt;
    assert (4 * q) / 4 == q && (4 * q + 1) / 4 == q && (4 * q + 2) / 4 == q && (4 * q + 3) / 4 == q;
  }

  lemma SmallSextets(b0: byte, b1: byte, b2: byte)
    ensures b0 / 4 < 64 && b0 % 4 * 16 + b1 / 16 < 64 && b1 % 16 * 4 + b2 / 64 < 64 && b2 % 64 < 64
  {
  }

  /** The four characters of a group spell the number that its bytes make, missing bytes counting as 0 and characters
      that no byte reaches replaced by `=`. */
  lemma GroupSpells(s: seq<byte>, q: nat) returns (a: nat, b: nat, c: nat, d: nat)
    requires 3 * q < |s|
    ensures 4 * q + 3 < |Encoded(s)| && a < 64 && b < 64 && c < 64 && d < 64
    ensures a * 262144 + b * 4096 + c * 64 + d == ByteAt(s, 3 * q) * 65536 + ByteAt(s, 3 * q + 1) * 256 + ByteAt(s, 3 * q + 2)
    ensures Encoded(s)[4*q] == DigitChar(a) as int && Encoded(s)[4*q+1] == DigitChar(b) as int
    ensures Encoded(s)[4*q+2] == if 3 * q + 1 < |s| then DigitChar(c) as int else '=' as int
    ensures Encoded(s)[4*q+3] == if 3 * q + 2 < |s| then DigitChar(d) as int else '=' as int
  {
    hide EncMap, ByteAt, EncodedAt, DigitChar;
    var b0, b1, b2 := ByteAt(s, 3 * q), ByteAt(s, 3 * q + 1), ByteAt(s, 3 * q + 2);
    a, b, c, d := b0 / 4, b0 % 4 * 16 + b1 / 16, b1 % 16 * 4 + b2 / 64, b2 % 64;
    SextetsJoin(b0, b1, b2);
    SmallSextets(b0, b1, b2);
    GroupOf(s, q);
    AlphabetIs(a);
    AlphabetIs(b);
    AlphabetIs(c);
    AlphabetIs(d);
  }

  /** A text with a character that is no digit, padding or part of a break is rejected. */
  lemma ForeignIsRejected(t: seq<byte>, k: nat)
    requires k < |t| && t[k] != '=' as int && t[k] != '\r' as int && t[k] != '\n' as int
    requires forall v :: 0 <= v < 64 ==> t[k] != DigitChar(v) as int
    ensures !Accepted(t)
  {
    hide DecMap, EncMap, Strip, DigitChar;
    StripContinues(t, k);
    DigitMeans(t[k]);
    if DecMap(t[k]) < 64 { AlphabetIs(DecMap(t[k])); }
  }

  lemma DigitMeans(c: byte)
    requires c != '=' as int
    ensures DecMap(c) != 64 && (DecMap(c) < 64 ==> EncMap(DecMap(c)) == c)
  {
  }
}
