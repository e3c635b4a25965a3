// The UTF-8 reader `ctoi` and the glyph lookup `letter_index` of the
// built-in 8x8 font (src/graphics.c:1633-1670; graphics/graphics.c:1322-1360
// holds the same two functions). A C string is its bytes; `ctoi` reads the
// first byte through a `char`, taken here to be signed (as on x86; whether
// plain `char` is signed is up to the C implementation), so a byte of 128 or
// more that does not start a sequence comes back negative.
module Utf8 {
  import opened Colour
  import opened Grid

  /** `(i32)*c` where `char` is signed. */
  function Signed8(v: int): (r: int)
    requires 0 <= v < 256
    ensures -128 <= r < 128 && (r - v) % 256 == 0
  {
    if v < 128 then v else v - 256
  }

  /** Byte `k` of the string; index |s| is the terminating NUL, and every index outside the string reads as 0. */
  function ByteAt(s: seq<byte>, k: int): (v: int)
    ensures 0 <= v < 256
  {
    if 0 <= k < |s| then Val(s[k]) else 0
  }

  /** `(u & 0xC0) == 0xC0`: the byte starts a multi-byte sequence. */
  predicate IsLead(v: int) { (v / 64) % 4 == 3 }

  /** Bit `k` of `v` set, `v & (1 << k)`, for the bits the length test reads. */
  predicate Bit5(v: int) { (v / 32) % 2 == 1 }
  predicate Bit4(v: int) { (v / 16) % 2 == 1 }
  predicate Bit3(v: int) { (v / 8) % 2 == 1 }
  predicate Bit2(v: int) { (v / 4) % 2 == 1 }
  predicate Bit1(v: int) { (v / 2) % 2 == 1 }

  /** The nested test of src/graphics.c:1636: the sequence length a lead byte announces. */
  function LeadLength(v: int): (a: int)
    ensures 2 <= a <= 6
  {
    if Bit5(v) then (if Bit4(v) then (if Bit3(v) then (if Bit2(v) then 6 else 5) else 4) else 3) else 2
  }

  /** The length is the count of leading one bits, as section 3 of RFC 3629 lays out the lead byte. */
  lemma LeadLengthRanges(v: int)
    requires 0xC0 <= v < 256
    ensures LeadLength(v) == 2 <==> v < 0xE0
    ensures LeadLength(v) == 3 <==> 0xE0 <= v < 0xF0
    ensures LeadLength(v) == 4 <==> 0xF0 <= v < 0xF8
    ensures LeadLength(v) == 5 <==> 0xF8 <= v < 0xFC
    ensures LeadLength(v) == 6 <==> 0xFC <= v
  {
  }

  /** `1 << k` for the shift amounts `a + 1` the payload step uses. */
  function Shift(k: int): (r: int)
    requires 3 <= k <= 7
    ensures r >= 8
  {
    if k == 3 then 8 else if k == 4 then 16 else if k == 5 then 32 else if k == 6 then 64 else 128
  }

  /** `((u << (a + 1)) & 0xFF) >> (a + 1)`: the lead byte with its length bits shifted out. */
  function Payload(v: int, a: int): (p: int)
    requires 0 <= v < 256 && 2 <= a <= 6
  {
    (v * Shift(a + 1)) % 256 / Shift(a + 1)
  }

  lemma ModOfSum(q: int, t: int)
    requires 0 <= t < 256
    ensures (q * 256 + t) % 256 == t
  {
  }

  /** Shifting left by `k` inside a byte and back keeps the low bits below `m`, for `m * k == 256`. */
  lemma ShiftOutHighBits(v: int, m: int, k: int)
    requires 0 <= v && 0 < m && 0 < k && m * k == 256
    ensures (v * k) % 256 / k == v % m
  {
    var q, r := v / m, v % m;
    assert v * k == q * 256 + r * k by {
      assert v == q * m + r;
      assert v * k == q * (m * k) + r * k;
    }
    assert 0 <= r * k < 256 by {
      assert r * k <= (m - 1) * k;
    }
    ModOfSum(q, r * k);
    CellIndexInverse(k, 0, r);
  }

  /** What the payload step keeps: the low `7 - a` bits of the lead byte. */
  lemma PayloadLowBits(v: int, a: int)
    requires 0 <= v < 256 && 2 <= a <= 6
    ensures Payload(v, a) == v % (256 / Shift(a + 1))
  {
    ShiftOutHighBits(v, 256 / Shift(a + 1), Shift(a + 1));
  }

  /** `c & 0x3F`: the six payload bits of a continuation byte. */
  function Low6(v: int): int { v % 64 }

  /**
   * The value after `k` turns of the loop at src/graphics.c:1639-1640:
   * `u = (u << 6) | (c[l++] & 0x3F)`. `u` is never negative there, so the
   * shift is a multiplication and the OR an addition.
   */
  function Accum(s: seq<byte>, i: int, u0: int, k: nat): int {
    if k == 0 then u0 else Accum(s, i, u0, k - 1) * 64 + Low6(ByteAt(s, i + k))
  }

  /** The pair `(l, *out)` that `ctoi` returns for the string starting at byte `i`. */
  datatype Decoded = Decoded(len: int, cp: int)

  /**
   * `ctoi` read as a function: a byte that does not start a sequence
   * (ASCII, a continuation byte) and the lead bytes 0xFE and 0xFF are
   * returned alone through a signed `char`; any other lead byte of length
   * `a` takes its payload bits and `a - 1` following bytes.
   */
  function Decode(s: seq<byte>, i: int): (r: Decoded)
    requires 0 <= i < |s|
    ensures 1 <= r.len <= 6
    ensures !IsLead(Val(s[i])) ==> r == Decoded(1, Signed8(Val(s[i])))
    ensures Val(s[i]) < 0x80 ==> r == Decoded(1, Val(s[i]))
  {
    var v := Val(s[i]);
    if !IsLead(v) then Decoded(1, Signed8(v))
    else
      var a := LeadLength(v);
      if a < 6 || !Bit1(v) then Decoded(a, Accum(s, i, Payload(v, a), a - 1))
      else Decoded(1, Signed8(v))
  }

  /** `ctoi(c, &out)`: returns the sequence length and stores the code point. */
  method Ctoi(s: seq<byte>, i: int) returns (l: int, out: int)
    requires 0 <= i < |s|
    ensures Decoded(l, out) == Decode(s, i)
  {
    var v := Val(s[i]);
    var u := Signed8(v);
    l := 1;
    if IsLead(v) {
      var a := LeadLength(v);
      if a < 6 || !Bit1(v) {
        u := Payload(v, a);
        var b := 1;
        while b < a
          invariant 1 <= b <= a && l == b
          invariant u == Accum(s, i, Payload(v, a), b - 1)
        {
          u := u * 64 + Low6(ByteAt(s, i + l));
          l := l + 1;
          b := b + 1;
        }
      }
    }
    out := u;
  }

  /** The largest code point of section 3 of RFC 3629. */
  const MaxCodePoint: int := 0x10FFFF

  /** The UTF-8 encoding of a code point, section 3 of RFC 3629. */
  function Encode(cp: int): (r: seq<byte>)
    requires 0 <= cp <= MaxCodePoint
    ensures 1 <= |r| <= 4
    ensures |r| == 1 <==> cp < 0x80
  {
    if cp < 0x80 then [ToByte(cp)]
    else if cp < 0x800 then [ToByte(0xC0 + cp / 64), ToByte(0x80 + cp % 64)]
    else if cp < 0x10000 then [ToByte(0xE0 + cp / 4096), ToByte(0x80 + cp / 64 % 64), ToByte(0x80 + cp % 64)]
    else [ToByte(0xF0 + cp / 262144), ToByte(0x80 + cp / 4096 % 64), ToByte(0x80 + cp / 64 % 64), ToByte(0x80 + cp % 64)]
  }

  /** A continuation byte `0x80 + x` carries `x`. */
  lemma Low6Continuation(x: int)
    requires 0 <= x < 64
    ensures Low6(0x80 + x) == x
  {
  }

  /** A two-byte sequence `110hhhhh 10llllll` decodes to `hhhhhllllll`. */
  lemma DecodeTwoBytes(s: seq<byte>, hi: int, lo: int)
    requires |s| == 2 && 0 <= hi < 32 && 0 <= lo < 64
    requires Val(s[0]) == 0xC0 + hi && Val(s[1]) == 0x80 + lo
    ensures Decode(s, 0) == Decoded(2, hi * 64 + lo)
  {
    var v := Val(s[0]);
    assert IsLead(v) && !Bit5(v);
    PayloadLowBits(v, 2);
    assert Payload(v, 2) == hi;
    Low6Continuation(lo);
    assert Accum(s, 0, hi, 1) == hi * 64 + lo;
  }

  lemma DecodeTwo(cp: int)
    requires 0x80 <= cp < 0x800
    ensures Decode(Encode(cp), 0) == Decoded(2, cp)
  {
    DecodeTwoBytes(Encode(cp), cp / 64, cp % 64);
  }

  /** A three-byte sequence `1110hhhh 10mmmmmm 10llllll` decodes to `hhhhmmmmmmllllll`. */
  lemma DecodeThreeBytes(s: seq<byte>, hi: int, mid: int, lo: int)
    requires |s| == 3 && 0 <= hi < 16 && 0 <= mid < 64 && 0 <= lo < 64
    requires Val(s[0]) == 0xE0 + hi && Val(s[1]) == 0x80 + mid && Val(s[2]) == 0x80 + lo
    ensures Decode(s, 0) == Decoded(3, (hi * 64 + mid) * 64 + lo)
  {
    var v := Val(s[0]);
    assert IsLead(v) && Bit5(v) && !Bit4(v);
    PayloadLowBits(v, 3);
    assert Payload(v, 3) == hi;
    Low6Continuation(mid);
    Low6Continuation(lo);
    assert Accum(s, 0, hi, 1) == hi * 64 + mid;
  }

  lemma DecodeThree(cp: int)
    requires 0x800 <= cp < 0x10000
    ensures Decode(Encode(cp), 0) == Decoded(3, cp)
  {
    var hi, mid, lo := cp / 4096, cp / 64 % 64, cp % 64;
    assert cp / 64 == hi * 64 + mid;
    DecodeThreeBytes(Encode(cp), hi, mid, lo);
  }

  /** A four-byte sequence `11110ttt 10hhhhhh 10mmmmmm 10llllll` decodes to its 21 payload bits. */
  lemma DecodeFourBytes(s: seq<byte>, top: int, hi: int, mid: int, lo: int)
    requires |s| == 4 && 0 <= top < 8 && 0 <= hi < 64 && 0 <= mid < 64 && 0 <= lo < 64
    requires Val(s[0]) == 0xF0 + top && Val(s[1]) == 0x80 + hi
    requires Val(s[2]) == 0x80 + mid && Val(s[3]) == 0x80 + lo
    ensures Decode(s, 0) == Decoded(4, ((top * 64 + hi) * 64 + mid) * 64 + lo)
  {
    var v := Val(s[0]);
    assert IsLead(v) && Bit5(v) && Bit4(v) && !Bit3(v);
    PayloadLowBits(v, 4);
    assert Payload(v, 4) == top;
    Low6Continuation(hi);
    Low6Continuation(mid);
    Low6Continuation(lo);
    assert Accum(s, 0, top, 1) == top * 64 + hi;
    assert Accum(s, 0, top, 2) == (top * 64 + hi) * 64 + mid;
  }

  lemma DecodeFour(cp: int)
    requires 0x10000 <= cp <= MaxCodePoint
    ensures Decode(Encode(cp), 0) == Decoded(4, cp)
  {
    var top, hi, mid, lo := cp / 262144, cp / 4096 % 64, cp / 64 % 64, cp % 64;
    assert cp / 4096 == top * 64 + hi;
    assert cp / 64 == (top * 64 + hi) * 64 + mid;
    DecodeFourBytes(Encode(cp), top, hi, mid, lo);
  }

  /** `ctoi` reads back every well-formed sequence: its length and its code point. */
  lemma DecodeEncode(cp: int)
    requires 0 <= cp <= MaxCodePoint
    ensures Decode(Encode(cp), 0) == Decoded(|Encode(cp)|, cp)
  {
    if cp < 0x80 {
    } else if cp < 0x800 {
      DecodeTwo(cp);
    } else if cp < 0x10000 {
      DecodeThree(cp);
    } else {
      DecodeFour(cp);
    }
  }

  /** A byte that cannot start a sequence is read alone: continuation bytes come back negative. */
  lemma StrayContinuation(s: seq<byte>, i: int)
    requires 0 <= i < |s| && 0x80 <= Val(s[i]) < 0xC0
    ensures Decode(s, i) == Decoded(1, Val(s[i]) - 256)
  {
  }

  /** The lead bytes 0xFE and 0xFF are not decoded: `ctoi` returns them alone, negative. */
  lemma NoSevenByteForm(s: seq<byte>, i: int)
    requires 0 <= i < |s| && Val(s[i]) >= 0xFE
    ensures Decode(s, i) == Decoded(1, Val(s[i]) - 256)
  {
    LeadLengthRanges(Val(s[i]));
  }

  /** The ten code points past the font's ranges, glyphs 530 .. 539 (`extra_font_lookup`). */
  const ExtraGlyphs: seq<int> := [8359, 402, 9078, 9052, 8976, 8804, 8805, 96, 7922, 7923]

  /** The first index of `c` in `ExtraGlyphs[k..]`, or -1: the search of src/graphics.c:1664-1666. */
  function ExtraIndex(c: int, k: nat): (r: int)
    requires k <= |ExtraGlyphs|
    ensures r == -1 || (k <= r < |ExtraGlyphs| && ExtraGlyphs[r] == c)
    ensures r == -1 <==> forall j :: k <= j < |ExtraGlyphs| ==> ExtraGlyphs[j] != c
    ensures r != -1 ==> forall j :: k <= j < r ==> ExtraGlyphs[j] != c
    decreases |ExtraGlyphs| - k
  {
    if k == |ExtraGlyphs| then -1
    else if ExtraGlyphs[k] == c then k
    else ExtraIndex(c, k + 1)
  }

  /** The seven ranges of code points the font lays out in order. */
  predicate InRanges(c: int) {
    32 <= c <= 126 || 9600 <= c <= 9631 || 9472 <= c <= 9599 || 912 <= c <= 969 ||
    12352 <= c <= 12447 || 58689 <= c <= 58714 || 161 <= c <= 255
  }

  /** The code points the font draws: its seven ranges and the ten extras. */
  predicate InFont(c: int) { InRanges(c) || c in ExtraGlyphs }

  /** `letter_index(c)`: the glyph drawn for code point `c`; 0 (space) when there is none. */
  function GlyphIndex(c: int): (r: int)
    ensures 0 <= r < 540
    ensures 32 <= c <= 126 ==> r == c - 32
    ensures !InFont(c) ==> r == 0
    ensures r >= 530 ==> ExtraGlyphs[r - 530] == c && !InRanges(c)
  {
    if 32 <= c <= 126 then c - 32
    else if 9600 <= c <= 9631 then (c - 9600) + 95
    else if 9472 <= c <= 9599 then (c - 9472) + 127
    else if 912 <= c <= 969 then (c - 912) + 255
    else if 12352 <= c <= 12447 then (c - 12352) + 313
    else if 58689 <= c <= 58714 then (c - 58689) + 409
    else if 161 <= c <= 255 then (c - 161) + 435
    else
      var k := ExtraIndex(c, 0);
      if k == -1 then 0 else 530 + k
  }

  /** `letter_index` with its search loop over `extra_font_lookup`. */
  method LetterIndex(c: int) returns (r: int)
    ensures r == GlyphIndex(c)
  {
    if 32 <= c <= 126 { return c - 32; }
    else if 9600 <= c <= 9631 { return (c - 9600) + 95; }
    else if 9472 <= c <= 9599 { return (c - 9472) + 127; }
    else if 912 <= c <= 969 { return (c - 912) + 255; }
    else if 12352 <= c <= 12447 { return (c - 12352) + 313; }
    else if 58689 <= c <= 58714 { return (c - 58689) + 409; }
    else if 161 <= c <= 255 { return (c - 161) + 435; }
    var i := 0;
    while i < 10
      invariant 0 <= i <= 10
      invariant ExtraIndex(c, 0) == ExtraIndex(c, i)
    {
      if ExtraGlyphs[i] == c {
        return 530 + i;
      }
      i := i + 1;
    }
    return 0;
  }

  /** No two code points the font draws share a glyph. */
  lemma GlyphIndexInjective(c: int, d: int)
    requires InFont(c) && InFont(d) && GlyphIndex(c) == GlyphIndex(d)
    ensures c == d
  {
  }

  /**
   * The extra entry 96 (the backtick) lies inside the first range, so the
   * loop never reaches it: glyph 537 is never drawn.
   */
  lemma BacktickExtraUnused(c: int)
    ensures GlyphIndex(c) != 537
    ensures GlyphIndex(96) == 64
  {
  }

  /** Every other glyph from 0 to 539 is drawn for some code point. */
  lemma GlyphIndexOnto(r: int)
    requires 0 <= r < 540 && r != 537
    ensures exists c :: InFont(c) && GlyphIndex(c) == r
  {
    if r < 95 { assert GlyphIndex(r + 32) == r; }
    else if r < 127 { assert GlyphIndex(r - 95 + 9600) == r; }
    else if r < 255 { assert GlyphIndex(r - 127 + 9472) == r; }
    else if r < 313 { assert GlyphIndex(r - 255 + 912) == r; }
    else if r < 409 { assert GlyphIndex(r - 313 + 12352) == r; }
    else if r < 435 { assert GlyphIndex(r - 409 + 58689) == r; }
    else if r < 530 { assert GlyphIndex(r - 435 + 161) == r; }
    else {
      var c := ExtraGlyphs[r - 530];
      assert !InRanges(c);
      assert ExtraIndex(c, 0) == r - 530;
      assert InFont(c) && GlyphIndex(c) == r;
    }
  }
}
