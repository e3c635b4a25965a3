// `base64_decode` of graphics.c, which unpacks the embedded 8×8 font
// bitmap: a 256-entry sextet table, a loop over whole quartets and a
// tail of one or two bytes after `=` padding. `Encode` is an
// independent reference encoder (RFC 4648, section 4, with padding)
// that the decoder is proved to invert.
module Base64 {
  import opened Wrappers
  import Grid

  /** An `unsigned char`. */
  type Octet = x: int | 0 <= x < 256

  /** Four characters decoded to three bytes, or three bytes encoded as four characters. */
  type Decoder = (Octet, Octet, Octet, Octet) -> (Octet, Octet, Octet)
  type Encoder = (Octet, Octet, Octet) -> (Octet, Octet, Octet, Octet)

  // ---------------------------------------------------------------------
  // The alphabet.

  /**
   * `b64_table[c]` (graphics.c:30-57): 'A'-'Z' give 0-25, 'a'-'z' 26-51,
   * '0'-'9' 52-61, '+' 62, '/' 63, every other byte (the '=' pad among
   * them) 0.
   */
  function Sextet(c: Octet): (v: int)
    ensures 0 <= v < 64
  {
    if 65 <= c <= 90 then c - 65
    else if 97 <= c <= 122 then c - 71
    else if 48 <= c <= 57 then c + 4
    else if c == 43 then 62
    else if c == 47 then 63
    else 0
  }

  /** The character RFC 4648 writes for sextet `v`. */
  function Alphabet(v: int): (c: Octet)
    requires 0 <= v < 64
    ensures c != Pad
  {
    if v < 26 then v + 65
    else if v < 52 then v + 71
    else if v < 62 then v - 4
    else if v == 62 then 43
    else 47
  }

  /** The table inverts the alphabet. */
  lemma SextetOfAlphabet(v: int)
    requires 0 <= v < 64
    ensures Sextet(Alphabet(v)) == v
  {
  }

  /** The pad character. */
  const Pad: Octet := '=' as int

  // ---------------------------------------------------------------------
  // The decoder's arithmetic.

  /** `(A << 2) | (B >> 4)` stored in a byte: the sextets' bits do not overlap, so the `|` adds. */
  function Hi(a: int, b: int): Octet
    requires 0 <= a < 64 && 0 <= b < 64
  {
    a * 4 + b / 16
  }

  /** `(B << 4) | (C >> 2)` stored in a byte: the top two bits of `B` fall off the byte. */
  function Mid(b: int, c: int): Octet
    requires 0 <= b < 64 && 0 <= c < 64
  {
    b % 16 * 16 + c / 4
  }

  /** `(C << 6) | D` stored in a byte: only the low two bits of `C` remain. */
  function Lo(c: int, d: int): Octet
    requires 0 <= c < 64 && 0 <= d < 64
  {
    c % 4 * 64 + d
  }

  /** The high formula on 8-bit values, as integers. */
  lemma HiBits(a: bv8, b: bv8)
    requires a < 64 && b < 64
    ensures ((a << 2) | (b >> 4)) as int == a as int * 4 + b as int / 16
  {
  }

  /** `Hi` is the shift-and-or the C code writes, on 8-bit values. */
  lemma HiIsShifts(a: bv8, b: bv8)
    requires a < 64 && b < 64
    ensures ((a << 2) | (b >> 4)) as int == Hi(a as int, b as int)
  {
    HiBits(a, b);
  }

  /** Shifting left by four keeps only the low four bits. */
  lemma LowNibble(a: bv8)
    ensures (a & 15) as int == a as int % 16 && a << 4 == (a & 15) << 4
  {
  }

  /** The middle formula for a value that already fits in four bits. */
  lemma MidOfNibble(a: bv8, b: bv8)
    requires a < 16 && b < 64
    ensures ((a << 4) | (b >> 2)) as int == a as int * 16 + b as int / 4
  {
  }

  /** `Mid` is the shift-and-or the C code writes, on 8-bit values. */
  lemma MidIsShifts(a: bv8, b: bv8)
    requires a < 64 && b < 64
    ensures ((a << 4) | (b >> 2)) as int == Mid(a as int, b as int)
  {
    LowNibble(a);
    MidOfNibble(a & 15, b);
  }

  /** The low formula on 8-bit values, as integers. */
  lemma LoBits(a: bv8, b: bv8)
    requires a < 64 && b < 64
    ensures ((a << 6) | b) as int == a as int % 4 * 64 + b as int
  {
  }

  /** `Lo` is the shift-and-or the C code writes, on 8-bit values. */
  lemma LoIsShifts(a: bv8, b: bv8)
    requires a < 64 && b < 64
    ensures ((a << 6) | b) as int == Lo(a as int, b as int)
  {
    LoBits(a, b);
  }

  /** One pass of the loop body: four characters through the table, three bytes out. */
  function Triple(c0: Octet, c1: Octet, c2: Octet, c3: Octet): (Octet, Octet, Octet) {
    var a, b, c, d := Sextet(c0), Sextet(c1), Sextet(c2), Sextet(c3);
    (Hi(a, b), Mid(b, c), Lo(c, d))
  }

  // ---------------------------------------------------------------------
  // The decoder's layout: lengths, passes, tail.

  /** `ascii[i]`, with the terminating NUL read as 0 past the end. */
  function ByteAt(s: seq<Octet>, i: int): Octet {
    if 0 <= i < |s| then s[i] else 0
  }

  /** The pad count: one for a final '=', one more for a '=' second to last. */
  function PadCount(s: seq<Octet>): (pad: int)
    requires 2 <= |s|
    ensures 0 <= pad <= 2
  {
    (if s[|s| - 1] == Pad then 1 else 0) + (if s[|s| - 2] == Pad then 1 else 0)
  }

  /** `*flen = 3 * len / 4 - pad`, the size of the buffer the decoder allocates. */
  function BufferSize(s: seq<Octet>): int
    requires 2 <= |s|
  {
    3 * |s| / 4 - PadCount(s)
  }

  /** The passes `for (n = 0; n <= len - 4 - pad; n += 4)` makes. */
  function Quartets(len: int, pad: int): (k: int)
    ensures 0 <= k && 4 * k - 4 <= (if len - 4 - pad < 0 then -4 else len - 4 - pad) < 4 * k
  {
    if len - 4 - pad < 0 then 0 else (len - 4 - pad) / 4 + 1
  }

  /** The three bytes `dec` makes of the quartet at `n`. */
  function Quad(s: seq<Octet>, n: int, dec: Decoder): (r: seq<Octet>)
    ensures |r| == 3
  {
    var t := dec(ByteAt(s, n), ByteAt(s, n + 1), ByteAt(s, n + 2), ByteAt(s, n + 3));
    [t.0, t.1, t.2]
  }

  /** The bytes the first `k` passes write, each pass decoding one quartet with `dec`. */
  function Body(s: seq<Octet>, k: nat, dec: Decoder): (r: seq<Octet>)
    ensures |r| == 3 * k
  {
    if k == 0 then [] else Body(s, k - 1, dec) + Quad(s, 4 * (k - 1), dec)
  }

  /** The number of bytes `Tail` writes for a pad count. */
  function TailLength(pad: int): nat {
    if pad == 1 then 2 else if pad == 2 then 1 else 0
  }

  /** The bytes written after the loop, at position `n`: two for one pad, one for two. */
  function Tail(s: seq<Octet>, n: int, pad: int): (r: seq<Octet>)
    ensures |r| == TailLength(pad)
  {
    var a, b, c := Sextet(ByteAt(s, n)), Sextet(ByteAt(s, n + 1)), Sextet(ByteAt(s, n + 2));
    if pad == 1 then [Hi(a, b), Mid(b, c)]
    else if pad == 2 then [Hi(a, b)]
    else []
  }

  /** Everything `base64_decode(ascii, len, &flen)` writes into its buffer, in order. */
  function Writes(s: seq<Octet>): (r: seq<Octet>)
    requires 2 <= |s|
  {
    var pad := PadCount(s);
    var k := Quartets(|s|, pad);
    Body(s, k, Triple) + Tail(s, 4 * k, pad)
  }

  // ---------------------------------------------------------------------
  // The buffer as written, and its overflow.

  /**
   * The decoder as written: no result for fewer than two characters,
   * otherwise the buffer size it allocates and the bytes it writes. It
   * never checks that the length is a multiple of four.
   */
  function DecodeAsWritten(s: seq<Octet>): (r: Option<(int, seq<Octet>)>)
    ensures r.None? <==> |s| < 2
    ensures r.Some? ==> r.value.0 == 3 * |s| / 4 - PadCount(s) && r.value.1 == Writes(s)
  {
    if |s| < 2 then None else Some((BufferSize(s), Writes(s)))
  }

  /** "QQ=" makes it allocate one byte and write two. */
  lemma DecodeAsWrittenOverflows()
    ensures var s := ['Q' as int, 'Q' as int, '=' as int];
      DecodeAsWritten(s).Some? && DecodeAsWritten(s).value.0 == 1 && |DecodeAsWritten(s).value.1| == 2
  {
    var s := ['Q' as int, 'Q' as int, '=' as int];
    assert PadCount(s) == 1;
    assert Quartets(3, 1) == 0;
  }

  /** When the length is a multiple of four the writes fill the buffer exactly, whatever the characters. */
  lemma WritesFillBuffer(s: seq<Octet>)
    requires 4 <= |s| && |s| % 4 == 0
    ensures BufferSize(s) == 3 * Quartets(|s|, PadCount(s)) + TailLength(PadCount(s)) == |Writes(s)|
  {
    var m, pad := |s| / 4, PadCount(s);
    assert |s| == 4 * m;
    var k := Quartets(|s|, pad);
    if pad == 0 {
      assert k == m;
    } else {
      assert k == m - 1;
    }
  }

  // ---------------------------------------------------------------------
  // The decoder, with the length check.

  /** One pass of the loop: the three bytes of the quartet at `n` written at `cb`. */
  method DecodeQuartet(ascii: seq<Octet>, bin: array<Octet>, cb: int, n: int)
    requires 0 <= cb && cb + 3 <= bin.Length && 0 <= n && n + 4 <= |ascii|
    modifies bin
    ensures bin[..cb + 3] == old(bin[..cb]) + Quad(ascii, n, Triple)
  {
    var a, b, c, d := Sextet(ascii[n]), Sextet(ascii[n + 1]), Sextet(ascii[n + 2]), Sextet(ascii[n + 3]);
    assert Quad(ascii, n, Triple) == [Hi(a, b), Mid(b, c), Lo(c, d)];
    bin[cb] := Hi(a, b);
    bin[cb + 1] := Mid(b, c);
    bin[cb + 2] := Lo(c, d);
  }

  /** The loop test `n <= len - 4 - pad` at `n == 4k` holds exactly while passes remain. */
  lemma LoopTest(len: int, pad: int, k: int)
    requires 0 <= k <= Quartets(len, pad)
    ensures (4 * k <= len - 4 - pad) <==> k < Quartets(len, pad)
  {
  }

  /** The loop `for (n = 0; n <= len - 4 - pad; n += 4)`: every whole quartet decoded in order. */
  method DecodeLoop(ascii: seq<Octet>, bin: array<Octet>, pad: int) returns (cb: int, n: int)
    requires 3 * Quartets(|ascii|, pad) <= bin.Length && 4 * Quartets(|ascii|, pad) <= |ascii| + pad
    requires 0 <= pad
    modifies bin
    ensures n == 4 * Quartets(|ascii|, pad) && cb == 3 * Quartets(|ascii|, pad)
    ensures bin[..cb] == Body(ascii, Quartets(|ascii|, pad), Triple)
  {
    ghost var q := Quartets(|ascii|, pad);
    ghost var k := 0;
    cb, n := 0, 0;
    while n <= |ascii| - 4 - pad
      invariant 0 <= k <= q && n == 4 * k && cb == 3 * k
      invariant bin[..cb] == Body(ascii, k, Triple)
    {
      LoopTest(|ascii|, pad, k);
      DecodeQuartet(ascii, bin, cb, n);
      assert Body(ascii, k + 1, Triple) == Body(ascii, k, Triple) + Quad(ascii, n, Triple);
      cb, n, k := cb + 3, n + 4, k + 1;
    }
    LoopTest(|ascii|, pad, k);
  }

  /** After the loop: two bytes for one pad, one for two, written at `cb`. */
  method DecodeTail(ascii: seq<Octet>, bin: array<Octet>, cb: int, n: int, pad: int)
    requires 0 <= cb && cb + TailLength(pad) <= bin.Length
    modifies bin
    ensures bin[..cb + TailLength(pad)] == old(bin[..cb]) + Tail(ascii, n, pad)
  {
    if pad == 1 {
      var a, b, c := Sextet(ByteAt(ascii, n)), Sextet(ByteAt(ascii, n + 1)), Sextet(ByteAt(ascii, n + 2));
      bin[cb] := Hi(a, b);
      bin[cb + 1] := Mid(b, c);
    } else if pad == 2 {
      var a, b := Sextet(ByteAt(ascii, n)), Sextet(ByteAt(ascii, n + 1));
      bin[cb] := Hi(a, b);
    }
  }

  /**
   * `base64_decode(ascii, len, &flen)` (graphics.c:85-131) with the
   * length check the overflow calls for: fewer than two characters or a
   * length that is not a multiple of four give a null buffer and `flen`
   * 0; otherwise a fresh buffer of `flen` bytes holding exactly `Writes`.
   * A failing `malloc` is not modelled.
   */
  method Decode(ascii: seq<Octet>) returns (bin: array?<Octet>, flen: int)
    ensures bin == null <==> |ascii| < 2 || |ascii| % 4 != 0
    ensures bin == null ==> flen == 0
    ensures bin != null ==> fresh(bin) && flen == bin.Length == BufferSize(ascii) && bin[..] == Writes(ascii)
  {
    var len := |ascii|;
    if len < 2 || len % 4 != 0 {
      return null, 0;
    }
    var pad := 0;
    if ascii[len - 1] == Pad {
      pad := pad + 1;
    }
    if ascii[len - 2] == Pad {
      pad := pad + 1;
    }
    assert pad == PadCount(ascii);
    flen := 3 * len / 4 - pad;
    WritesFillBuffer(ascii);
    bin := new Octet[flen];
    var cb, n := DecodeLoop(ascii, bin, pad);
    DecodeTail(ascii, bin, cb, n, pad);
    assert bin[..] == bin[..flen];
  }

  // ---------------------------------------------------------------------
  // The reference encoder.

  /** The four sextets RFC 4648 cuts three bytes into. */
  function S0(b0: Octet): int { b0 / 4 }
  function S1(b0: Octet, b1: Octet): int { b0 % 4 * 16 + b1 / 16 }
  function S2(b1: Octet, b2: Octet): int { b1 % 16 * 4 + b2 / 64 }
  function S3(b2: Octet): int { b2 % 64 }

  /** Three bytes as four characters. */
  function Group(b0: Octet, b1: Octet, b2: Octet): (r: (Octet, Octet, Octet, Octet))
    ensures r.2 != Pad && r.3 != Pad
  {
    (Alphabet(S0(b0)), Alphabet(S1(b0, b1)), Alphabet(S2(b1, b2)), Alphabet(S3(b2)))
  }

  /** The four characters `enc` makes of group `i`, the bytes from `3i`. */
  function GroupAt(d: seq<Octet>, i: nat, enc: Encoder): (r: seq<Octet>)
    requires 3 * i + 3 <= |d|
    ensures |r| == 4
  {
    var g := enc(d[3 * i], d[3 * i + 1], d[3 * i + 2]);
    [g.0, g.1, g.2, g.3]
  }

  /** The first `k` whole groups of three bytes, each encoded with `enc`, in order. */
  function EncodeFull(d: seq<Octet>, k: nat, enc: Encoder): (r: seq<Octet>)
    requires 3 * k <= |d|
    ensures |r| == 4 * k
  {
    if k == 0 then [] else EncodeFull(d, k - 1, enc) + GroupAt(d, k - 1, enc)
  }

  /** The one or two bytes left after the whole groups, as four characters ending in `=` padding. */
  function Leftover(rest: seq<Octet>): (r: seq<Octet>)
    requires |rest| < 3
    ensures |r| == (if |rest| == 0 then 0 else 4)
    ensures |rest| != 0 ==> r[3] == Pad && (r[2] == Pad <==> |rest| == 1)
  {
    if |rest| == 0 then []
    else if |rest| == 1 then [Alphabet(S0(rest[0])), Alphabet(S1(rest[0], 0)), Pad, Pad]
    else [Alphabet(S0(rest[0])), Alphabet(S1(rest[0], rest[1])), Alphabet(S2(rest[1], 0)), Pad]
  }

  /** RFC 4648 base 64 with padding: the whole groups, then the leftover bytes. */
  function Encode(d: seq<Octet>): (r: seq<Octet>)
    ensures |r| % 4 == 0 && (|r| == 0 <==> |d| == 0)
  {
    EncodeFull(d, |d| / 3, Group) + Leftover(d[|d| / 3 * 3..])
  }

  // ---------------------------------------------------------------------
  // The round trip.

  /** A digit below `k` placed under a multiple of `k`. */
  lemma Place(hi: int, lo: int, k: int)
    requires 0 < k && 0 <= lo < k && 0 <= hi
    ensures (hi * k + lo) / k == hi && (hi * k + lo) % k == lo
  {
    Grid.CellIndexInverse(k, lo, hi);
  }

  /** The decoding formulas undo the encoding ones. */
  lemma Regroup(b0: Octet, b1: Octet, b2: Octet)
    ensures Hi(S0(b0), S1(b0, b1)) == b0 && Mid(S1(b0, b1), S2(b1, b2)) == b1 && Lo(S2(b1, b2), S3(b2)) == b2
  {
    var r0, h1, l1, h2 := b0 % 4, b1 / 16, b1 % 16, b2 / 64;
    Place(r0, h1, 16);
    Place(l1, h2, 4);
  }

  /** `dec` undoes `enc` on every group of three bytes. */
  ghost predicate Inverts(dec: Decoder, enc: Encoder) {
    forall b0: Octet, b1: Octet, b2: Octet {:trigger enc(b0, b1, b2)} ::
      var g := enc(b0, b1, b2);
      dec(g.0, g.1, g.2, g.3) == (b0, b1, b2)
  }

  /** The table and the three formulas undo the alphabet and the four sextets. */
  lemma TripleInvertsGroup()
    ensures Inverts(Triple, Group)
  {
    forall b0: Octet, b1: Octet, b2: Octet
      ensures var g := Group(b0, b1, b2); Triple(g.0, g.1, g.2, g.3) == (b0, b1, b2)
    {
      SextetOfAlphabet(S0(b0));
      SextetOfAlphabet(S1(b0, b1));
      SextetOfAlphabet(S2(b1, b2));
      SextetOfAlphabet(S3(b2));
      Regroup(b0, b1, b2);
    }
  }

  /** The first `k` passes read only the first `4k` characters. */
  lemma {:induction false} BodyAgree(s: seq<Octet>, t: seq<Octet>, k: nat, dec: Decoder)
    requires 4 * k <= |s| && 4 * k <= |t| && s[..4 * k] == t[..4 * k]
    ensures Body(s, k, dec) == Body(t, k, dec)
  {
    if k > 0 {
      assert s[..4 * (k - 1)] == s[..4 * k][..4 * (k - 1)];
      assert t[..4 * (k - 1)] == t[..4 * k][..4 * (k - 1)];
      BodyAgree(s, t, k - 1, dec);
      var n := 4 * (k - 1);
      assert s[n] == s[..4 * k][n] && s[n + 1] == s[..4 * k][n + 1] && s[n + 2] == s[..4 * k][n + 2] && s[n + 3] == s[..4 * k][n + 3];
      assert t[n] == t[..4 * k][n] && t[n + 1] == t[..4 * k][n + 1] && t[n + 2] == t[..4 * k][n + 2] && t[n + 3] == t[..4 * k][n + 3];
      assert ByteAt(s, n) == ByteAt(t, n) && ByteAt(s, n + 1) == ByteAt(t, n + 1);
      assert ByteAt(s, n + 2) == ByteAt(t, n + 2) && ByteAt(s, n + 3) == ByteAt(t, n + 3);
    }
  }

  /** A prefix of a concatenation, as long as its first part, is that part. */
  lemma PrefixOfAppend(f: seq<Octet>, g: seq<Octet>)
    ensures (f + g)[..|f|] == f
  {
  }

  /** `Quad` of the last four characters of `f + g` is `Quad` of `g`. */
  lemma QuadOfAppend(f: seq<Octet>, g: seq<Octet>, dec: Decoder)
    requires |g| == 4
    ensures Quad(f + g, |f|, dec) == Quad(g, 0, dec)
  {
    var e := f + g;
    var n := |f|;
    assert e[n] == g[0] && e[n + 1] == g[1] && e[n + 2] == g[2] && e[n + 3] == g[3];
  }

  /** The pass over group `i` of an encoding gives back its three bytes. */
  lemma QuadOfGroupAt(d: seq<Octet>, i: nat, dec: Decoder, enc: Encoder)
    requires 3 * i + 3 <= |d| && Inverts(dec, enc)
    ensures Quad(GroupAt(d, i, enc), 0, dec) == d[3 * i..3 * i + 3]
  {
    var g := enc(d[3 * i], d[3 * i + 1], d[3 * i + 2]);
    assert dec(g.0, g.1, g.2, g.3) == (d[3 * i], d[3 * i + 1], d[3 * i + 2]);
  }

  /** Decoding the first `k` encoded groups, pass by pass, gives back their bytes. */
  lemma {:induction false} BodyOfFull(d: seq<Octet>, k: nat, dec: Decoder, enc: Encoder)
    requires 3 * k <= |d| && Inverts(dec, enc)
    ensures Body(EncodeFull(d, k, enc), k, dec) == d[..3 * k]
  {
    if k > 0 {
      var f, g := EncodeFull(d, k - 1, enc), GroupAt(d, k - 1, enc);
      var e := f + g;
      BodyOfFull(d, k - 1, dec, enc);
      PrefixOfAppend(f, g);
      BodyAgree(e, f, k - 1, dec);
      QuadOfAppend(f, g, dec);
      QuadOfGroupAt(d, k - 1, dec, enc);
      assert Body(e, k, dec) == Body(e, k - 1, dec) + Quad(e, 4 * (k - 1), dec);
      assert d[..3 * k] == d[..3 * (k - 1)] + d[3 * (k - 1)..3 * k];
    }
  }

  /** The whole groups of an encoding are decoded by the loop, and nothing after them is read. */
  lemma RoundTripBody(d: seq<Octet>)
    ensures |Encode(d)| >= 4 * (|d| / 3) && Body(Encode(d), |d| / 3, Triple) == d[..|d| / 3 * 3]
  {
    var k := |d| / 3;
    var full, rest := EncodeFull(d, k, Group), Leftover(d[3 * k..]);
    TripleInvertsGroup();
    BodyOfFull(d, k, Triple, Group);
    PrefixOfAppend(full, rest);
    BodyAgree(full + rest, full, k, Triple);
  }

  /** The pad count of an encoding: none after whole groups, two after one leftover byte, one after two. */
  lemma PadOfEncode(d: seq<Octet>)
    requires 0 < |d|
    ensures 2 <= |Encode(d)| && PadCount(Encode(d)) == (if |d| % 3 == 0 then 0 else 3 - |d| % 3)
  {
    var k := |d| / 3;
    var full, rest := EncodeFull(d, k, Group), Leftover(d[3 * k..]);
    var s := full + rest;
    if |rest| == 0 {
      var g := GroupAt(d, k - 1, Group);
      var gr := Group(d[3 * (k - 1)], d[3 * (k - 1) + 1], d[3 * (k - 1) + 2]);
      assert s == EncodeFull(d, k - 1, Group) + g;
      assert s[|s| - 1] == g[3] == gr.3 && s[|s| - 2] == g[2] == gr.2;
    } else {
      assert s[|s| - 1] == rest[3] && s[|s| - 2] == rest[2];
    }
  }

  /** `Tail` at the end of `f` reads only the characters after `f`. */
  lemma TailOfAppend(f: seq<Octet>, g: seq<Octet>, pad: int)
    requires |g| == 4
    ensures Tail(f + g, |f|, pad) == Tail(g, 0, pad)
  {
    var e := f + g;
    var n := |f|;
    assert e[n] == g[0] && e[n + 1] == g[1] && e[n + 2] == g[2];
  }

  /** Two characters whose sextets hold a byte decode, in the tail pass for two pads, to that byte. */
  lemma TailOfOne(c0: Octet, c1: Octet, c2: Octet, c3: Octet, b0: Octet, b1: Octet)
    requires Sextet(c0) == S0(b0) && Sextet(c1) == S1(b0, b1)
    ensures Tail([c0, c1, c2, c3], 0, 2) == [b0]
  {
    Regroup(b0, b1, 0);
  }

  /** Three characters whose sextets cut two bytes decode, in the tail pass for one pad, to those bytes. */
  lemma TailOfTwo(c0: Octet, c1: Octet, c2: Octet, b0: Octet, b1: Octet)
    requires Sextet(c0) == S0(b0) && Sextet(c1) == S1(b0, b1) && Sextet(c2) == S2(b1, 0)
    ensures Tail([c0, c1, c2, Pad], 0, 1) == [b0, b1]
  {
    Regroup(b0, b1, 0);
  }

  /** The tail pass decodes the leftover characters back to the leftover bytes. */
  lemma TailOfLeftover(rest: seq<Octet>)
    requires 0 < |rest| < 3
    ensures Tail(Leftover(rest), 0, 3 - |rest|) == rest
  {
    var b0 := rest[0];
    if |rest| == 1 {
      SextetOfAlphabet(S0(b0));
      SextetOfAlphabet(S1(b0, 0));
      TailOfOne(Alphabet(S0(b0)), Alphabet(S1(b0, 0)), Pad, Pad, b0, 0);
    } else {
      var b1 := rest[1];
      SextetOfAlphabet(S0(b0));
      SextetOfAlphabet(S1(b0, b1));
      SextetOfAlphabet(S2(b1, 0));
      TailOfTwo(Alphabet(S0(b0)), Alphabet(S1(b0, b1)), Alphabet(S2(b1, 0)), b0, b1);
    }
  }

  /** The tail of an encoding: the passes, the buffer size and the decoded tail bytes. */
  lemma RoundTripTail(d: seq<Octet>)
    requires 0 < |d|
    ensures 2 <= |Encode(d)| && Quartets(|Encode(d)|, PadCount(Encode(d))) == |d| / 3
    ensures BufferSize(Encode(d)) == |d|
    ensures Tail(Encode(d), 4 * (|d| / 3), PadCount(Encode(d))) == d[|d| / 3 * 3..]
  {
    var k := |d| / 3;
    var full, rest := EncodeFull(d, k, Group), Leftover(d[3 * k..]);
    PadOfEncode(d);
    if |d| % 3 != 0 {
      TailOfAppend(full, rest, PadCount(Encode(d)));
      TailOfLeftover(d[3 * k..]);
    }
  }

  /**
   * The decoder inverts the encoder on every non-empty input: the
   * encoding has a length the checked decoder accepts, its buffer has
   * the input's size, and the bytes written are the input. An empty
   * input encodes to the empty string, which every decoder rejects.
   */
  lemma RoundTrip(d: seq<Octet>)
    requires 0 < |d|
    ensures 2 <= |Encode(d)| && |Encode(d)| % 4 == 0
    ensures BufferSize(Encode(d)) == |d| && Writes(Encode(d)) == d
  {
    RoundTripBody(d);
    RoundTripTail(d);
    assert d == d[..|d| / 3 * 3] + d[|d| / 3 * 3..];
  }
}
