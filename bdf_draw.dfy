// `bdf_character` and `bdf_writeln` of extra/graphics_bdf.c: a glyph
// looked up by its code point and painted through `pset`, and a string
// written glyph by glyph.
module BdfDraw {
  import opened Wrappers
  import opened Colour
  import opened Grid
  import opened HalSurface
  import opened BdfTokens
  import opened BdfBits
  import opened Bdf
  import EarlyGraphics
  import Utf8

  // bdf_character.

  /**
   * The lookup of extra/graphics_bdf.c:201-205 from slot `i`: the first
   * slot whose encoding is `code`, or slot 0 when none is.
   */
  function FirstCode(table: seq<U32>, count: int, code: U32, i: nat): (n: nat)
    requires count <= |table|
    ensures n == 0 || (i <= n < count && table[n] == code)
    decreases |table| - i
  {
    if i >= count then 0 else if table[i] == code then i else FirstCode(table, count, code, i + 1)
  }

  /** The slot found is the first from `i` holding `code`; slot 0 is the answer only when no slot holds it. */
  lemma {:induction false} FirstCodeFirst(table: seq<U32>, count: int, code: U32, i: nat)
    requires count <= |table|
    ensures var n := FirstCode(table, count, code, i);
      (i <= n < count && table[n] == code && forall k :: i <= k < n ==> table[k] != code) ||
      (n == 0 && forall k :: i <= k < count ==> table[k] != code)
    decreases |table| - i
  {
    if i < count && table[i] != code {
      FirstCodeFirst(table, count, code, i + 1);
    }
  }

  /** The loop of extra/graphics_bdf.c:201-205: `u`, an `int`, is compared with the `unsigned` entries. */
  method FindGlyph(f: Font, u: int) returns (n: int)
    requires f.nChars <= |f.table|
    ensures n == FirstCode(f.table, f.nChars, Unsigned(u), 0)
  {
    n := 0;
    var i := 0;
    while i < f.nChars
      invariant 0 <= i && (i <= f.nChars || f.nChars < 0)
      invariant FirstCode(f.table, f.nChars, Unsigned(u), 0) == FirstCode(f.table, f.nChars, Unsigned(u), i)
      decreases f.nChars - i
    {
      if f.table[i] == Unsigned(u) {
        n := i;
        break;
      }
      i := i + 1;
    }
  }

  /** How many bytes the loop `for (xx = 0; xx < fontbb.w; xx += 8)` visits. */
  function Columns(w: U32): nat { (w + 7) / 8 }

  /** `yoffset`: the rows above the glyph's box, computed in `unsigned` and stored in an `int`. */
  function YOffset(fontbb: Rect, g: Glyph): int {
    AsInt(Unsigned(fontbb.h - g.bb.h + (fontbb.y - g.bb.y)))
  }

  /** Byte `i` of a glyph's bitmap; a read outside it, or of a glyph with no bitmap, gives 0. */
  function BitmapByte(g: Glyph, i: int): bv8 {
    if g.bitmap.Some? && 0 <= i < |g.bitmap.value| then g.bitmap.value[i] else 0
  }

  /**
   * `cc` for row `yy` and byte `k` of the font's box (extra/graphics_bdf.c:210):
   * 0 above the glyph's rows and below them, where `yy > yoffset + bb.h`
   * compares as `unsigned`, the bitmap byte otherwise.
   */
  function GlyphByte(fontbb: Rect, g: Glyph, yy: int, k: int): bv8 {
    var yoffset := YOffset(fontbb, g);
    if yy < yoffset || Unsigned(yy) > Unsigned(yoffset + g.bb.h) then 0
    else BitmapByte(g, Unsigned((yy - yoffset) * Stride(fontbb.w) + k))
  }

  /** The foreground and background colour of a text. */
  datatype Ink = Ink(fg: bv32, bg: bv32)

  /** `cc & i ? fg : bg`. */
  function InkOf(ink: Ink, b: bv8, j: int): bv32
    requires 0 <= j < 8
  {
    if Bit(b, j) then ink.fg else ink.bg
  }

  /** The colours the bit loop of extra/graphics_bdf.c:212-213 gives the eight pixels of byte `b`. */
  function Inks(ink: Ink, b: bv8): (cs: seq<bv32>)
    ensures |cs| == 8
  {
    seq(8, j requires 0 <= j < 8 => InkOf(ink, b, j))
  }

  /** The colours of `cs` painted on row `py` from `px` on, one `pset` each, left to right. */
  function PaintRun(cells: seq<bv32>, w: int, h: int, px: int, py: int, cs: seq<bv32>): (r: seq<bv32>)
    requires 0 <= w && 0 <= h && |cells| == w * h
    ensures |r| == |cells|
    decreases |cs|
  {
    if cs == [] then cells else SetPixel(PaintRun(cells, w, h, px, py, cs[..|cs| - 1]), w, h, px + |cs| - 1, py, cs[|cs| - 1])
  }

  /** Colour `c` of the run lands on pixel `px + c` when that is on the surface; nothing else changes. */
  lemma {:induction false} PaintRunAt(cells: seq<bv32>, w: int, h: int, px: int, py: int, cs: seq<bv32>, qx: int, qy: int)
    requires 0 <= w && 0 <= h && |cells| == w * h
    ensures PixelAt(PaintRun(cells, w, h, px, py, cs), w, h, qx, qy) ==
      if qy == py && px <= qx < px + |cs| && InGrid(w, h, qx, qy) then cs[qx - px] else PixelAt(cells, w, h, qx, qy)
    decreases |cs|
  {
    if cs != [] {
      var init := cs[..|cs| - 1];
      var before := PaintRun(cells, w, h, px, py, init);
      PaintRunAt(cells, w, h, px, py, init, qx, qy);
      GetAfterSet(before, w, h, px + |cs| - 1, py, cs[|cs| - 1], qx, qy);
      if px <= qx < px + |init| {
        assert init[qx - px] == cs[qx - px];
      }
    }
  }

  /** One more colour paints one more pixel, just past the run. */
  lemma PaintRunSnoc(cells: seq<bv32>, w: int, h: int, px: int, py: int, cs: seq<bv32>, c: bv32)
    requires 0 <= w && 0 <= h && |cells| == w * h
    ensures PaintRun(cells, w, h, px, py, cs + [c]) == SetPixel(PaintRun(cells, w, h, px, py, cs), w, h, px + |cs|, py, c)
  {
    assert (cs + [c])[..|cs|] == cs;
  }

  /** Painting pixel `j` of byte `b` after the first `j` extends the run by one. */
  lemma PaintByteStep(cells: seq<bv32>, before: seq<bv32>, w: int, h: int, px: int, py: int, b: bv8, ink: Ink, j: int)
    requires 0 <= w && 0 <= h && |cells| == w * h && 0 <= j < 8
    requires before == PaintRun(cells, w, h, px, py, Inks(ink, b)[..j])
    ensures SetPixel(before, w, h, px + j, py, if b & Mask(j) != 0 then ink.fg else ink.bg) ==
      PaintRun(cells, w, h, px, py, Inks(ink, b)[..j + 1])
  {
    var cs := Inks(ink, b);
    PaintRunSnoc(cells, w, h, px, py, cs[..j], cs[j]);
    assert cs[..j] + [cs[j]] == cs[..j + 1];
  }

  /** A column before `8 n` lies in one of the first `n` bytes. */
  lemma ByteIndex(t: int, n: int)
    requires 0 <= t < 8 * n
    ensures 0 <= t / 8 < n && 0 <= t % 8 < 8
  {
  }

  /** Offset `t` within byte `c` of a row: `t / 8` and `t % 8`. */
  lemma ByteOffset(t: int, c: int)
    requires 8 * c <= t < 8 * c + 8
    ensures t / 8 == c && t % 8 == t - 8 * c
  {
  }

  /**
   * Where byte `k` of a row is painted: `x + xx` with `xx = 8 k` when
   * `advance`, as the layout of the bitmap means; `x` alone, as
   * extra/graphics_bdf.c:213 writes it, otherwise.
   */
  function ByteLeft(x: int, k: int, advance: bool): int {
    if advance then x + 8 * k else x
  }

  /** Row `yy` of the font's box as the loop over `xx` reads it: one byte per eight columns. */
  function RowOf(fontbb: Rect, g: Glyph, yy: int): (row: seq<bv8>)
    ensures |row| == Columns(fontbb.w)
  {
    seq(Columns(fontbb.w), k => GlyphByte(fontbb, g, yy, k))
  }

  /** The first `k` bytes of a row painted on row `py`. */
  function PaintRow(cells: seq<bv32>, w: int, h: int, row: seq<bv8>, x: int, py: int, ink: Ink, k: nat, advance: bool): (r: seq<bv32>)
    requires 0 <= w && 0 <= h && |cells| == w * h && k <= |row|
    ensures |r| == |cells|
  {
    if k == 0 then cells
    else PaintRun(PaintRow(cells, w, h, row, x, py, ink, k - 1, advance), w, h, ByteLeft(x, k - 1, advance), py, Inks(ink, row[k - 1]))
  }

  /** With the advance, bit `d` of byte `c` lands on pixel `x + 8 c + d`. */
  lemma {:induction false} PaintRowInside(cells: seq<bv32>, w: int, h: int, row: seq<bv8>, x: int, py: int, ink: Ink, k: nat, c: nat, d: nat, qy: int)
    requires 0 <= w && 0 <= h && |cells| == w * h && k <= |row| && c < k && d < 8
    ensures PixelAt(PaintRow(cells, w, h, row, x, py, ink, k, true), w, h, x + 8 * c + d, qy) ==
      if qy == py && InGrid(w, h, x + 8 * c + d, qy) then Inks(ink, row[c])[d] else PixelAt(cells, w, h, x + 8 * c + d, qy)
  {
    var before := PaintRow(cells, w, h, row, x, py, ink, k - 1, true);
    PaintRunAt(before, w, h, x + 8 * (k - 1), py, Inks(ink, row[k - 1]), x + 8 * c + d, qy);
    if c < k - 1 {
      PaintRowInside(cells, w, h, row, x, py, ink, k - 1, c, d, qy);
    } else {
      PaintRowOutside(cells, w, h, row, x, py, ink, k - 1, x + 8 * c + d, qy);
    }
  }

  /** With the advance, the pixels left of `x` and from `x + 8 k` on keep their colour. */
  lemma {:induction false} PaintRowOutside(cells: seq<bv32>, w: int, h: int, row: seq<bv8>, x: int, py: int, ink: Ink, k: nat, qx: int, qy: int)
    requires 0 <= w && 0 <= h && |cells| == w * h && k <= |row| && (qx < x || x + 8 * k <= qx || qy != py)
    ensures PixelAt(PaintRow(cells, w, h, row, x, py, ink, k, true), w, h, qx, qy) == PixelAt(cells, w, h, qx, qy)
  {
    if k > 0 {
      var before := PaintRow(cells, w, h, row, x, py, ink, k - 1, true);
      PaintRunAt(before, w, h, x + 8 * (k - 1), py, Inks(ink, row[k - 1]), qx, qy);
      PaintRowOutside(cells, w, h, row, x, py, ink, k - 1, qx, qy);
    }
  }

  /** With the advance, byte `c / 8` of the row gives pixel `x + c` its colour by bit `c % 8`; nothing else changes. */
  lemma PaintRowAt(cells: seq<bv32>, w: int, h: int, row: seq<bv8>, x: int, py: int, ink: Ink, k: nat, qx: int, qy: int)
    requires 0 <= w && 0 <= h && |cells| == w * h && k <= |row|
    ensures PixelAt(PaintRow(cells, w, h, row, x, py, ink, k, true), w, h, qx, qy) ==
      if qy == py && x <= qx < x + 8 * k && InGrid(w, h, qx, qy) then InkOf(ink, row[(qx - x) / 8], (qx - x) % 8)
      else PixelAt(cells, w, h, qx, qy)
  {
    if qy == py && x <= qx < x + 8 * k {
      ByteIndex(qx - x, k);
      var c, d := (qx - x) / 8, (qx - x) % 8;
      assert qx == x + 8 * c + d;
      PaintRowInside(cells, w, h, row, x, py, ink, k, c, d, qy);
    } else {
      PaintRowOutside(cells, w, h, row, x, py, ink, k, qx, qy);
    }
  }

  /**
   * As written, every byte of a row is painted on the same eight pixels
   * from `x`: the last byte of the row wins, and the pixels from `x + 8`
   * on are never painted.
   */
  lemma {:induction false} PaintRowAsWritten(cells: seq<bv32>, w: int, h: int, row: seq<bv8>, x: int, py: int, ink: Ink, k: nat, qx: int, qy: int)
    requires 0 <= w && 0 <= h && |cells| == w * h && 1 <= k <= |row|
    ensures PixelAt(PaintRow(cells, w, h, row, x, py, ink, k, false), w, h, qx, qy) ==
      if qy == py && x <= qx < x + 8 && InGrid(w, h, qx, qy) then InkOf(ink, row[k - 1], qx - x)
      else PixelAt(cells, w, h, qx, qy)
  {
    var before := PaintRow(cells, w, h, row, x, py, ink, k - 1, false);
    PaintRunAt(before, w, h, x, py, Inks(ink, row[k - 1]), qx, qy);
    if k > 1 {
      PaintRowAsWritten(cells, w, h, row, x, py, ink, k - 1, qx, qy);
    }
  }

  /** The font's box as `bdf_character` reads it for glyph `g`: `fontbb.h` rows. */
  function Box(fontbb: Rect, g: Glyph): (box: seq<seq<bv8>>)
    ensures |box| == fontbb.h && forall r :: 0 <= r < |box| ==> box[r] == RowOf(fontbb, g, r)
  {
    seq(fontbb.h, r => RowOf(fontbb, g, r))
  }

  /** Rows of `n` bytes each. */
  predicate Rows(box: seq<seq<bv8>>, n: int) {
    forall r :: 0 <= r < |box| ==> |box[r]| == n
  }

  /** The first `m` rows of a box, row `yy` painted on `y + yy`. */
  function PaintRows(cells: seq<bv32>, w: int, h: int, box: seq<seq<bv8>>, x: int, y: int, ink: Ink, m: nat, advance: bool): (r: seq<bv32>)
    requires 0 <= w && 0 <= h && |cells| == w * h && m <= |box|
    ensures |r| == |cells|
  {
    if m == 0 then cells
    else PaintRow(PaintRows(cells, w, h, box, x, y, ink, m - 1, advance), w, h, box[m - 1], x, y + m - 1, ink, |box[m - 1]|, advance)
  }

  /** One more row of a box: row `m` painted on `y + m`. */
  lemma PaintRowsStep(cells: seq<bv32>, w: int, h: int, box: seq<seq<bv8>>, x: int, y: int, ink: Ink, m: nat, advance: bool)
    requires 0 <= w && 0 <= h && |cells| == w * h && m < |box|
    ensures PaintRows(cells, w, h, box, x, y, ink, m + 1, advance) ==
      PaintRow(PaintRows(cells, w, h, box, x, y, ink, m, advance), w, h, box[m], x, y + m, ink, |box[m]|, advance)
  {
  }

  /**
   * With the advance, a box of rows of `n` bytes covers the `8 n` by `m`
   * pixels from `(x, y)`: pixel `(x + c, y + r)` has the colour of bit
   * `c % 8` of byte `c / 8` of row `r`; every other pixel keeps its colour.
   */
  lemma {:induction false} PaintRowsAt(cells: seq<bv32>, w: int, h: int, box: seq<seq<bv8>>, n: int, x: int, y: int, ink: Ink, m: nat, qx: int, qy: int)
    requires 0 <= w && 0 <= h && |cells| == w * h && m <= |box| && Rows(box, n)
    ensures PixelAt(PaintRows(cells, w, h, box, x, y, ink, m, true), w, h, qx, qy) ==
      if y <= qy < y + m && x <= qx < x + 8 * n && InGrid(w, h, qx, qy) then InkOf(ink, box[qy - y][(qx - x) / 8], (qx - x) % 8)
      else PixelAt(cells, w, h, qx, qy)
  {
    if m > 0 {
      var before := PaintRows(cells, w, h, box, x, y, ink, m - 1, true);
      PaintRowsAt(cells, w, h, box, n, x, y, ink, m - 1, qx, qy);
      PaintRowAt(before, w, h, box[m - 1], x, y + m - 1, ink, |box[m - 1]|, qx, qy);
    }
  }

  /**
   * As written, each row's bytes all land on the eight pixels from `x`:
   * pixel `(x + c, y + r)` for `c < 8` has the colour of bit `c` of the
   * row's last byte, and nothing from `x + 8` on is painted.
   */
  lemma {:induction false} PaintRowsAsWritten(cells: seq<bv32>, w: int, h: int, box: seq<seq<bv8>>, n: int, x: int, y: int, ink: Ink, m: nat, qx: int, qy: int)
    requires 0 <= w && 0 <= h && |cells| == w * h && m <= |box| && Rows(box, n) && 1 <= n
    ensures PixelAt(PaintRows(cells, w, h, box, x, y, ink, m, false), w, h, qx, qy) ==
      if y <= qy < y + m && x <= qx < x + 8 && InGrid(w, h, qx, qy) then InkOf(ink, box[qy - y][n - 1], qx - x)
      else PixelAt(cells, w, h, qx, qy)
  {
    if m > 0 {
      var before := PaintRows(cells, w, h, box, x, y, ink, m - 1, false);
      PaintRowsAsWritten(cells, w, h, box, n, x, y, ink, m - 1, qx, qy);
      PaintRowAsWritten(before, w, h, box[m - 1], x, y + m - 1, ink, |box[m - 1]|, qx, qy);
    }
  }

  // ---------------------------------------------------------------------
  // The painting methods.

  /** The glyph a string starting at byte `i` selects: its code point looked up in the encoding table. */
  function GlyphFor(font: FontState, s: seq<byte>, i: int): Glyph
    requires 0 <= i < |s| && font.nChars <= |font.table|
  {
    GlyphAt(font.chars, FirstCode(font.table, font.nChars, Unsigned(Utf8.Decode(s, i).cp), 0))
  }

  /** A glyph's box painted with its top left corner at `(x, y)`, byte `k` of a row from column `x + 8 k`. */
  function Painted(cells: seq<bv32>, w: int, h: int, fontbb: Rect, g: Glyph, x: int, y: int, ink: Ink): (r: seq<bv32>)
    requires 0 <= w && 0 <= h && |cells| == w * h
    ensures |r| == |cells|
  {
    PaintRows(cells, w, h, Box(fontbb, g), x, y, ink, fontbb.h, true)
  }

  /**
   * Pixel by pixel: the `8 * Columns(w)` by `h` pixels from `(x, y)`
   * take bit `c % 8` of byte `c / 8` of row `r` of the glyph, the rest of
   * the surface keeps its colours.
   */
  lemma PaintedAt(cells: seq<bv32>, w: int, h: int, fontbb: Rect, g: Glyph, x: int, y: int, ink: Ink, qx: int, qy: int)
    requires 0 <= w && 0 <= h && |cells| == w * h
    ensures PixelAt(Painted(cells, w, h, fontbb, g, x, y, ink), w, h, qx, qy) ==
      if y <= qy < y + fontbb.h && x <= qx < x + 8 * Columns(fontbb.w) && InGrid(w, h, qx, qy) then
        InkOf(ink, GlyphByte(fontbb, g, qy - y, (qx - x) / 8), (qx - x) % 8)
      else PixelAt(cells, w, h, qx, qy)
  {
    var box := Box(fontbb, g);
    PaintRowsAt(cells, w, h, box, Columns(fontbb.w), x, y, ink, fontbb.h, qx, qy);
    if y <= qy < y + fontbb.h && x <= qx < x + 8 * Columns(fontbb.w) {
      ByteIndex(qx - x, Columns(fontbb.w));
      assert box[qy - y] == RowOf(fontbb, g, qy - y);
    }
  }

  /**
   * The bit loop of extra/graphics_bdf.c:212-213: `i` runs from 128
   * down, halving, and bit `j` of `b` is painted at `px + j`.
   */
  method PaintByte(surf: EarlyGraphics.Surface, px: int, py: int, b: bv8, ink: Ink)
    requires surf.Valid()
    modifies surf.buf
    ensures surf.buf[..] == PaintRun(old(surf.buf[..]), surf.w, surf.h, px, py, Inks(ink, b))
  {
    ghost var cells := surf.buf[..];
    var i: bv8 := 128;
    var j := 0;
    while i != 0
      invariant 0 <= j <= 8 && i == (if j < 8 then Mask(j) else 0)
      invariant surf.buf[..] == PaintRun(cells, surf.w, surf.h, px, py, Inks(ink, b)[..j])
      decreases 8 - j
    {
      HalveMask(j);
      PaintByteStep(cells, surf.buf[..], surf.w, surf.h, px, py, b, ink, j);
      var ok := surf.Pset(px + j, py, if b & i != 0 then ink.fg else ink.bg);
      i := i / 2;
      j := j + 1;
    }
    assert Inks(ink, b)[..j] == Inks(ink, b);
  }

  /** `8 k < w` exactly while `k` is short of the row's byte count. */
  lemma ColumnsBound(w: U32, k: nat)
    ensures 8 * k < w <==> k < Columns(w)
  {
  }

  /**
   * The loop over `xx` for row `yy` (extra/graphics_bdf.c:209-214), with
   * byte `xx / 8` painted from `x + xx`.
   */
  method PaintGlyphRow(surf: EarlyGraphics.Surface, fontbb: Rect, g: Glyph, x: int, y: int, yy: int, ink: Ink)
    requires surf.Valid()
    modifies surf.buf
    ensures surf.buf[..] == PaintRow(old(surf.buf[..]), surf.w, surf.h, RowOf(fontbb, g, yy), x, y + yy, ink, Columns(fontbb.w), true)
  {
    var xx := 0;
    ghost var k := 0;
    while xx < fontbb.w
      invariant xx == 8 * k && k <= Columns(fontbb.w)
      invariant surf.buf[..] == PaintRow(old(surf.buf[..]), surf.w, surf.h, RowOf(fontbb, g, yy), x, y + yy, ink, k, true)
      decreases fontbb.w - xx
    {
      ColumnsBound(fontbb.w, k);
      var cc := GlyphByte(fontbb, g, yy, xx / 8);
      assert cc == RowOf(fontbb, g, yy)[k];
      PaintByte(surf, x + xx, y + yy, cc, ink);
      xx := xx + 8;
      k := k + 1;
    }
    ColumnsBound(fontbb.w, k);
  }

  /** The loop over `yy` (extra/graphics_bdf.c:208-215): the rows of the font's box from `(x, y)`. */
  method PaintGlyph(surf: EarlyGraphics.Surface, fontbb: Rect, g: Glyph, x: int, y: int, ink: Ink)
    requires surf.Valid()
    modifies surf.buf
    ensures surf.buf[..] == Painted(old(surf.buf[..]), surf.w, surf.h, fontbb, g, x, y, ink)
  {
    ghost var box := Box(fontbb, g);
    var yy := 0;
    while yy < fontbb.h
      invariant 0 <= yy <= fontbb.h
      invariant surf.buf[..] == PaintRows(old(surf.buf[..]), surf.w, surf.h, box, x, y, ink, yy, true)
    {
      PaintGlyphRow(surf, fontbb, g, x, y, yy, ink);
      PaintRowsStep(old(surf.buf[..]), surf.w, surf.h, box, x, y, ink, yy, true);
      assert box[yy] == RowOf(fontbb, g, yy);
      yy := yy + 1;
    }
  }

  /**
   * `bdf_character(s, f, ch, x, y, fg, bg)` (extra/graphics_bdf.c:189-218)
   * with each byte painted from `x + xx`: the code point read as `ctoi`
   * reads it, the glyph looked up, its box painted from `(x, y)`; the
   * result is the number of bytes read.
   */
  method Character(surf: EarlyGraphics.Surface, f: Font, s: seq<byte>, i: int, x: int, y: int, ink: Ink) returns (l: int)
    requires surf.Valid() && 0 <= i < |s| && f.nChars <= |f.table|
    modifies surf.buf
    ensures l == Utf8.Decode(s, i).len
    ensures surf.buf[..] == Painted(old(surf.buf[..]), surf.w, surf.h, f.fontbb, GlyphFor(f.State(), s, i), x, y, ink)
  {
    var u;
    l, u := Utf8.Ctoi(s, i);
    var n := FindGlyph(f, u);
    var g := GlyphAt(f.chars, n);
    assert g == GlyphFor(f.State(), s, i);
    PaintGlyph(surf, f.fontbb, g, x, y, ink);
  }

  // ---------------------------------------------------------------------
  // bdf_writeln.

  /** One call of `bdf_character`: glyph `g` painted with its corner at `(x, y)`. */
  datatype Draw = Draw(g: Glyph, x: int, y: int)

  /** The glyphs of the text from byte `i` with the pen at `(u, v)`, in the order `bdf_writeln` paints them. */
  function Layout(font: FontState, s: seq<byte>, i: nat, x: int, u: int, v: int): (ds: seq<Draw>)
    requires font.nChars <= |font.table|
    decreases |s| - i
  {
    if i >= |s| || s[i] == 0 then []
    else if s[i] == 10 then Layout(font, s, i + 1, x, x, LineBelow(v, font.fontbb))
    else [Draw(GlyphFor(font, s, i), u, v)] + Layout(font, s, i + Utf8.Decode(s, i).len, x, u + 8, v)
  }

  /** `v += f->fontbb.h + 2`: the sum taken as `unsigned int` and stored back in the `int`. */
  function LineBelow(v: int, bb: Rect): int {
    AsInt(Unsigned(v + bb.h + 2))
  }

  /** The glyphs painted one after the other, the first one first. */
  function PaintAll(cells: seq<bv32>, w: int, h: int, fontbb: Rect, ink: Ink, ds: seq<Draw>): (r: seq<bv32>)
    requires 0 <= w && 0 <= h && |cells| == w * h
    ensures |r| == |cells|
    decreases |ds|
  {
    if ds == [] then cells
    else PaintAll(Painted(cells, w, h, fontbb, ds[0].g, ds[0].x, ds[0].y, ink), w, h, fontbb, ink, ds[1..])
  }

  /** A newline moves the pen and paints nothing. */
  lemma LayoutNewline(cells: seq<bv32>, w: int, h: int, ink: Ink, font: FontState, s: seq<byte>, i: nat, x: int, u: int, v: int, v': int)
    requires 0 <= w && 0 <= h && |cells| == w * h
    requires font.nChars <= |font.table| && i < |s| && s[i] == 10 && v' == LineBelow(v, font.fontbb)
    ensures Layout(font, s, i, x, u, v) == Layout(font, s, i + 1, x, x, v')
    ensures PaintAll(cells, w, h, font.fontbb, ink, Layout(font, s, i, x, u, v)) == PaintAll(cells, w, h, font.fontbb, ink, Layout(font, s, i + 1, x, x, v'))
  {
  }

  /**
   * Any other byte but the NUL starts a glyph: painted at the pen, it
   * leaves the rest of the text, `l` bytes on and 8 columns right, to paint.
   */
  lemma LayoutGlyph(cells: seq<bv32>, after: seq<bv32>, w: int, h: int, ink: Ink, font: FontState, s: seq<byte>, i: nat, l: int, x: int, u: int, v: int)
    requires 0 <= w && 0 <= h && |cells| == w * h
    requires font.nChars <= |font.table| && i < |s| && s[i] != 0 && s[i] != 10
    requires l == Utf8.Decode(s, i).len && after == Painted(cells, w, h, font.fontbb, GlyphFor(font, s, i), u, v, ink)
    ensures PaintAll(cells, w, h, font.fontbb, ink, Layout(font, s, i, x, u, v)) == PaintAll(after, w, h, font.fontbb, ink, Layout(font, s, i + l, x, u + 8, v))
  {
    var d := Draw(GlyphFor(font, s, i), u, v);
    var rest := Layout(font, s, i + l, x, u + 8, v);
    assert Layout(font, s, i, x, u, v) == [d] + rest;
    assert ([d] + rest)[0] == d && ([d] + rest)[1..] == rest;
  }

  /**
   * A turn of the loop of `bdf_writeln` (extra/graphics_bdf.c:228-230) on
   * a byte that is neither the NUL nor a newline: its glyph painted at the
   * pen, which moves 8 columns right and past the bytes of its UTF-8
   * sequence. What is left to paint afterwards is what was left before,
   * less that glyph.
   */
  method GlyphStep(surf: EarlyGraphics.Surface, f: Font, ghost font: FontState, s: seq<byte>, i: nat, x: int, u: int, v: int, ink: Ink)
      returns (l: int)
    requires surf.Valid() && font == f.State() && f.nChars <= |f.table| && i < |s| && s[i] != 0 && s[i] != 10
    modifies surf.buf
    ensures 1 <= l
    ensures PaintAll(old(surf.buf[..]), surf.w, surf.h, font.fontbb, ink, Layout(font, s, i, x, u, v)) ==
      PaintAll(surf.buf[..], surf.w, surf.h, font.fontbb, ink, Layout(font, s, i + l, x, u + 8, v))
  {
    ghost var before := surf.buf[..];
    l := Character(surf, f, s, i, u, v, ink);
    LayoutGlyph(before, surf.buf[..], surf.w, surf.h, ink, font, s, i, l, x, u, v);
  }

  /**
   * The loop of `bdf_writeln` (extra/graphics_bdf.c:223-232) from byte
   * `i0` with the pen at `(u0, v0)`: the glyphs of the layout painted in
   * order.
   */
  method WriteFrom(surf: EarlyGraphics.Surface, f: Font, s: seq<byte>, i0: nat, x: int, u0: int, v0: int, ink: Ink)
    requires surf.Valid() && f.nChars <= |f.table|
    modifies surf.buf
    ensures surf.buf[..] == PaintAll(old(surf.buf[..]), surf.w, surf.h, f.fontbb, ink, Layout(f.State(), s, i0, x, u0, v0))
  {
    ghost var font := f.State();
    ghost var goal := PaintAll(surf.buf[..], surf.w, surf.h, font.fontbb, ink, Layout(font, s, i0, x, u0, v0));
    var i, u, v := i0, u0, v0;
    while i < |s| && s[i] != 0
      invariant f.State() == font
      invariant goal == PaintAll(surf.buf[..], surf.w, surf.h, font.fontbb, ink, Layout(font, s, i, x, u, v))
      decreases |s| - i
    {
      if s[i] == 10 {
        var v' := LineBelow(v, f.fontbb);
        LayoutNewline(surf.buf[..], surf.w, surf.h, ink, font, s, i, x, u, v, v');
        i, u, v := i + 1, x, v';
      } else {
        var l := GlyphStep(surf, f, font, s, i, x, u, v, ink);
        i, u := i + l, u + 8;
      }
    }
    assert Layout(font, s, i, x, u, v) == [];
  }

  /**
   * `bdf_writeln(s, f, x, y, fg, bg, str)` (extra/graphics_bdf.c:220-233):
   * NULL writes nothing; a string has the glyphs of its layout from
   * `(x, y)` painted in order.
   */
  method Writeln(surf: EarlyGraphics.Surface, f: Font, x: int, y: int, ink: Ink, str: Option<seq<byte>>)
    requires surf.Valid() && f.nChars <= |f.table|
    modifies surf.buf
    ensures str.None? ==> surf.buf[..] == old(surf.buf[..])
    ensures str.Some? ==> surf.buf[..] == PaintAll(old(surf.buf[..]), surf.w, surf.h, f.fontbb, ink, Layout(f.State(), str.value, 0, x, x, y))
  {
    if str.Some? {
      WriteFrom(surf, f, str.value, 0, x, x, y, ink);
    }
  }

  /** Printable ASCII and tabs: no NUL, no newline, no byte of a multi-byte sequence. */
  predicate Plain(t: seq<byte>) {
    forall k :: 0 <= k < |t| ==> 0 < t[k] < 0x80 && t[k] != 10
  }

  /** The glyph whose encoding is byte `k` of the line, with its corner at `(x + 8 k, y)`. */
  function AsciiDraw(font: FontState, t: seq<byte>, x: int, y: int, k: int): Draw
    requires font.nChars <= |font.table| && 0 <= k < |t|
  {
    Draw(GlyphAt(font.chars, FirstCode(font.table, font.nChars, Val(t[k]), 0)), x + 8 * k, y)
  }

  /** From byte `k` of a plain line with the pen at `x + 8 k`, the rest of the line, 8 columns apart. */
  lemma {:induction false} LayoutAsciiFrom(font: FontState, t: seq<byte>, x: int, y: int, k: nat)
    requires font.nChars <= |font.table| && k <= |t| && Plain(t)
    ensures Layout(font, t, k, x, x + 8 * k, y) == seq(|t| - k, j requires 0 <= j < |t| - k => AsciiDraw(font, t, x, y, k + j))
    decreases |t| - k
  {
    if k < |t| {
      assert Utf8.Decode(t, k) == Utf8.Decoded(1, Val(t[k]));
      LayoutAsciiFrom(font, t, x, y, k + 1);
      assert x + 8 * k + 8 == x + 8 * (k + 1);
    }
  }

  /**
   * `bdf_writeln` of a plain line paints, in order, glyph `k` (the one
   * whose encoding is byte `k`) at `(x + 8 k, y)`, one per byte.
   */
  lemma LayoutAscii(font: FontState, t: seq<byte>, x: int, y: int)
    requires font.nChars <= |font.table| && Plain(t)
    ensures var ds := Layout(font, t, 0, x, x, y);
      |ds| == |t| && forall k :: 0 <= k < |t| ==> ds[k] == AsciiDraw(font, t, x, y, k)
  {
    LayoutAsciiFrom(font, t, x, y, 0);
  }
}
