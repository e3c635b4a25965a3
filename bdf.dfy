// The BDF font loader of extra/graphics_bdf.c (Glyph Bitmap Distribution
// Format 2.1): `htoi`, the line-driven parser `bdf`, `bdf_destroy`, the
// glyph painter `bdf_character` and the text cursor `bdf_writeln`. The
// `rect_t` it includes is the one of the top-level graphics.h, with
// `unsigned int` fields, and it paints through that file's surface. A BDF
// file is given as its lines, each split into the tokens `strtok` cuts at
// blanks; reading the file is not part of this model.
module Bdf {
  import opened Wrappers
  import opened HalSurface
  import opened BdfTokens
  import opened BdfBits


  // ---------------------------------------------------------------------
  // The font.

  /** `bdf_char_t`: the advance width, the bitmap (NULL until its BITMAP line) and the bounding box. */
  datatype Glyph = Glyph(width: U32, bitmap: Option<seq<bv8>>, bb: Rect)

  /** A glyph record that no line has written to; `malloc`'s garbage is read as zeros. */
  const Blank: Glyph := Glyph(0, None, Zero)

  /** The value of a `bdf_t`. */
  datatype FontState = FontState(fontbb: Rect, nChars: int, table: seq<U32>, chars: seq<Glyph>)

  /** What `bdf_destroy` leaves: no glyphs, no table, a zero bounding box. */
  const Destroyed: FontState := FontState(Zero, 0, [], [])

  /** `chars[n]`; a slot past the allocated ones reads as a blank record. */
  function GlyphAt(chars: seq<Glyph>, n: int): Glyph {
    if 0 <= n < |chars| then chars[n] else Blank
  }

  /** `chars[n] = g`; a store past the allocated slots is left out. */
  function SetGlyph(chars: seq<Glyph>, n: int, g: Glyph): (r: seq<Glyph>)
    ensures |r| == |chars|
  {
    if 0 <= n < |chars| then chars[n := g] else chars
  }

  /** `encoding_table[n] = v`, with the same bound. */
  function SetCode(table: seq<U32>, n: int, v: U32): (r: seq<U32>)
    ensures |r| == |table|
  {
    if 0 <= n < |table| then table[n := v] else table
  }

  /** The four numbers after a keyword, read as `w h x y` into a `rect_t`. */
  function ReadRect(line: Line): Rect {
    Rect(Unsigned(Arg(line, 3)), Unsigned(Arg(line, 4)), Unsigned(Arg(line, 1)), Unsigned(Arg(line, 2)))
  }

  // ---------------------------------------------------------------------
  // The header loop.

  /** Where the header loop stops, with what it has read. */
  datatype Header = Header(fontbb: Rect, nChars: int, rest: nat)

  /**
   * The header loop (extra/graphics_bdf.c:57-72) from line `i`: the last
   * FONTBOUNDINGBOX wins; CHARS sets the count and ends the header; so
   * does an empty line or the end of the file. `rest` is the first line
   * the glyph loop reads.
   */
  function HeaderFrom(lines: seq<Line>, i: nat, fontbb: Rect, nChars: int): (r: Header)
    requires i <= |lines|
    ensures i <= r.rest <= |lines|
    decreases |lines| - i
  {
    if i == |lines| then Header(fontbb, nChars, i)
    else if |lines[i]| == 0 then Header(fontbb, nChars, i + 1)
    else if Is(lines[i][0], "FONTBOUNDINGBOX") then HeaderFrom(lines, i + 1, ReadRect(lines[i]), nChars)
    else if Is(lines[i][0], "CHARS") then Header(fontbb, Arg(lines[i], 1), i + 1)
    else HeaderFrom(lines, i + 1, fontbb, nChars)
  }

  /** A line that neither sets the header nor ends it. */
  predicate Ordinary(line: Line) {
    |line| > 0 && !Is(line[0], "FONTBOUNDINGBOX") && !Is(line[0], "CHARS")
  }

  /**
   * Ordinary lines are passed over, and CHARS ends the header whatever
   * follows: the count is its argument and the glyph loop starts on the
   * next line.
   */
  lemma {:induction false} HeaderEndsAtChars(pre: seq<Line>, line: Line, post: seq<Line>, i: nat, fontbb: Rect, nChars: int)
    requires i <= |pre| && forall k :: i <= k < |pre| ==> Ordinary(pre[k])
    requires |line| > 0 && Is(line[0], "CHARS")
    ensures HeaderFrom(pre + [line] + post, i, fontbb, nChars) == Header(fontbb, Arg(line, 1), |pre| + 1)
    decreases |pre| - i
  {
    var lines := pre + [line] + post;
    if i < |pre| {
      assert lines[i] == pre[i];
      HeaderEndsAtChars(pre, line, post, i + 1, fontbb, nChars);
    } else {
      assert lines[i] == line;
    }
  }

  /**
   * `FONTBOUNDINGBOX w h x y` followed by ordinary lines up to the end of
   * the header leaves that box, whatever box came before it.
   */
  lemma {:induction false} HeaderKeepsBox(lines: seq<Line>, i: nat, fontbb: Rect, nChars: int, j: nat)
    requires i < j <= |lines| && |lines[i]| > 0 && Is(lines[i][0], "FONTBOUNDINGBOX")
    requires forall k :: i < k < j ==> Ordinary(lines[k])
    requires j == |lines| || |lines[j]| == 0 || Is(lines[j][0], "CHARS")
    ensures HeaderFrom(lines, i, fontbb, nChars).fontbb == ReadRect(lines[i])
  {
    SkipOrdinary(lines, i + 1, ReadRect(lines[i]), nChars, j);
  }

  lemma {:induction false} SkipOrdinary(lines: seq<Line>, i: nat, fontbb: Rect, nChars: int, j: nat)
    requires i <= j <= |lines| && forall k :: i <= k < j ==> Ordinary(lines[k])
    requires j == |lines| || |lines[j]| == 0 || Is(lines[j][0], "CHARS")
    ensures HeaderFrom(lines, i, fontbb, nChars).fontbb == fontbb
    decreases j - i
  {
    if i < j {
      SkipOrdinary(lines, i + 1, fontbb, nChars, j);
    }
  }

  /** The header loop as the method of extra/graphics_bdf.c:57-72. */
  method ScanHeader(lines: seq<Line>, fontbb0: Rect, nChars0: int) returns (fontbb: Rect, nChars: int, rest: nat)
    ensures Header(fontbb, nChars, rest) == HeaderFrom(lines, 0, fontbb0, nChars0)
  {
    fontbb, nChars := fontbb0, nChars0;
    var i := 0;
    while true
      invariant 0 <= i <= |lines|
      invariant HeaderFrom(lines, i, fontbb, nChars) == HeaderFrom(lines, 0, fontbb0, nChars0)
      decreases |lines| - i
    {
      if i == |lines| {
        rest := i;
        return;
      }
      var line := lines[i];
      i := i + 1;
      if |line| == 0 {
        rest := i;
        return;
      }
      if Is(line[0], "FONTBOUNDINGBOX") {
        fontbb := ReadRect(line);
      } else if Is(line[0], "CHARS") {
        nChars := Arg(line, 1);
        rest := i;
        return;
      }
    }
  }

  // ---------------------------------------------------------------------
  // The glyph loop.

  /** The font and the locals `encoding`, `width`, `scanline` and `n` of the glyph loop. */
  datatype Loader = Loader(font: FontState, encoding: int, width: int, scanline: int, n: int)

  /** `bdf` after the header checks: every slot blank, the table zero, no glyph begun. */
  function Start(fontbb: Rect, nChars: nat): (ld: Loader) {
    Loader(FontState(fontbb, nChars, seq(nChars, _ => 0), seq(nChars, _ => Blank)), 0, -1, -1, 0)
  }

  /** A bitmap of `size` bytes cleared by `memset`. */
  function Zeros(size: nat): (r: seq<bv8>)
    ensures |r| == size && forall k :: 0 <= k < size ==> r[k] == 0
  {
    seq(size, _ => 0)
  }

  /**
   * The BITMAP branch (extra/graphics_bdf.c:112-141) once its checks
   * pass. `bb.x < 0` never holds for an `unsigned` field, so the width
   * grows only when the unsigned `bb.x + bb.w` exceeds `width` read as
   * unsigned; then the cleared bitmap, the width and the encoding are
   * stored, and the scanline restarts.
   */
  function BeginBitmap(ld: Loader): Loader {
    var f := ld.font;
    var g := GlyphAt(f.chars, ld.n);
    var extent := Unsigned(g.bb.x + g.bb.w);
    var width := if extent > Unsigned(ld.width) then AsInt(extent) else ld.width;
    var g' := g.(width := Unsigned(width), bitmap := Some(Zeros(Size(f.fontbb))));
    ld.(font := f.(chars := SetGlyph(f.chars, ld.n, g'), table := SetCode(f.table, ld.n, Unsigned(ld.encoding))),
        width := width, scanline := 0)
  }

  /**
   * Whether the two loops of the ENDCHAR shift visit each byte of the
   * bitmap once, row after row: the row size does not wrap and the
   * bitmap holds whole rows.
   */
  predicate WholeRows(fontbb: Rect, bitmap: seq<bv8>) {
    fontbb.w + 7 < Word && 0 < Stride(fontbb.w) && |bitmap| == Stride(fontbb.w) * fontbb.h
  }

  /**
   * The ENDCHAR branch (extra/graphics_bdf.c:142-160): a horizontal
   * offset above 7 skips the rest of the loop body, so the glyph stays
   * open; an offset of 1 to 7 shifts the bitmap right; then the glyph is
   * closed and the next one begins.
   */
  function EndChar(ld: Loader): Loader {
    var f := ld.font;
    var g := GlyphAt(f.chars, ld.n);
    if g.bb.x > 7 then ld
    else
      var chars :=
        if g.bb.x != 0 && g.bitmap.Some? && WholeRows(f.fontbb, g.bitmap.value) then
          SetGlyph(f.chars, ld.n, g.(bitmap := Some(Shifted(g.bitmap.value, Stride(f.fontbb.w), Small(g.bb.x)))))
        else f.chars;
      ld.(font := f.(chars := chars), scanline := -1, width := -1, n := ld.n + 1)
  }

  /**
   * Any other line (extra/graphics_bdf.c:161-182): a row of the open
   * glyph's bitmap, written at `scanline * stride`, unless there is no
   * open glyph.
   */
  function Row(ld: Loader, tok: string): Loader {
    var f := ld.font;
    var g := GlyphAt(f.chars, ld.n);
    if ld.n >= f.nChars || g.bitmap.None? || ld.scanline < 0 then ld
    else
      var bytes := RowBytes(tok);
      var bitmap := StoreFrom(g.bitmap.value, ld.scanline * Stride(f.fontbb.w), bytes, |bytes|);
      ld.(font := f.(chars := SetGlyph(f.chars, ld.n, g.(bitmap := Some(bitmap)))), scanline := ld.scanline + 1)
  }

  /** One line of the glyph loop; `None` when `bdf` gives up, having destroyed the font. */
  function Step(ld: Loader, line: Line): Option<Loader>
    requires |line| > 0
  {
    var kw := line[0];
    var f := ld.font;
    if Is(kw, "ENCODING") then Some(ld.(encoding := Arg(line, 1)))
    else if Is(kw, "DWIDTH") then Some(ld.(width := Arg(line, 1)))
    else if Is(kw, "BBX") then
      Some(ld.(font := f.(chars := SetGlyph(f.chars, ld.n, GlyphAt(f.chars, ld.n).(bb := ReadRect(line))))))
    else if Is(kw, "BITMAP") then
      if ld.n == f.nChars || ld.width == -1 then None else Some(BeginBitmap(ld))
    else if Is(kw, "ENDCHAR") then Some(EndChar(ld))
    else Some(Row(ld, kw))
  }

  /** The glyph loop from line `i` to the end of the file or the first empty line. */
  function Run(ld: Loader, lines: seq<Line>, i: nat): Option<Loader>
    requires i <= |lines|
    decreases |lines| - i
  {
    if i == |lines| || |lines[i]| == 0 then Some(ld)
    else match Step(ld, lines[i])
      case None => None
      case Some(ld') => Run(ld', lines, i + 1)
  }

  /**
   * `bdf(out, path)` on the lines of the file: the header, its checks
   * (an `unsigned` size `<= 0` is a size of 0), then the glyph loop. A
   * failed check returns 0 with the header's values in `out`; a failure
   * in the glyph loop returns 0 with the font destroyed.
   */
  function Parse(f0: FontState, lines: seq<Line>): (bool, FontState) {
    var hd := HeaderFrom(lines, 0, f0.fontbb, f0.nChars);
    var f := f0.(fontbb := hd.fontbb, nChars := hd.nChars);
    if hd.fontbb.w == 0 || hd.fontbb.h == 0 || hd.nChars <= 0 then (false, f)
    else match Run(Start(hd.fontbb, hd.nChars), lines, hd.rest)
      case None => (false, Destroyed)
      case Some(ld) => (true, ld.font)
  }

  // ---------------------------------------------------------------------
  // Properties of the loader.

  /** A font of `nChars` slots on the box `fontbb`: a table entry per slot and every bitmap of the size `bdf` allocates. */
  predicate Shaped(f: FontState, fontbb: Rect, nChars: int) {
    f.fontbb == fontbb && f.nChars == nChars && |f.table| == nChars && |f.chars| == nChars &&
    forall i :: 0 <= i < |f.chars| && f.chars[i].bitmap.Some? ==> |f.chars[i].bitmap.value| == Size(fontbb)
  }

  /** Every line keeps the shape: the size, the slots and the bitmap sizes never change. */
  lemma StepShaped(ld: Loader, line: Line)
    requires |line| > 0 && Shaped(ld.font, ld.font.fontbb, ld.font.nChars)
    ensures Step(ld, line).Some? ==> Shaped(Step(ld, line).value.font, ld.font.fontbb, ld.font.nChars)
  {
    var f := ld.font;
    var g := GlyphAt(f.chars, ld.n);
    assert g.bitmap.Some? ==> |g.bitmap.value| == Size(f.fontbb);
  }

  /** Only a BITMAP line can fail: when it comes with no slot left or with no DWIDTH since the last glyph. */
  lemma StepFails(ld: Loader, line: Line)
    requires |line| > 0
    ensures Step(ld, line).None? <==> Is(line[0], "BITMAP") && (ld.n == ld.font.nChars || ld.width == -1)
  {
    if Is(line[0], "BITMAP") {
      assert Lower(line[0][0]) == 'b';
    }
  }

  lemma {:induction false} RunShaped(ld: Loader, lines: seq<Line>, i: nat)
    requires i <= |lines| && Shaped(ld.font, ld.font.fontbb, ld.font.nChars)
    ensures Run(ld, lines, i).Some? ==> Shaped(Run(ld, lines, i).value.font, ld.font.fontbb, ld.font.nChars)
    decreases |lines| - i
  {
    if i < |lines| && |lines[i]| > 0 {
      StepShaped(ld, lines[i]);
      if Step(ld, lines[i]).Some? {
        RunShaped(Step(ld, lines[i]).value, lines, i + 1);
      }
    }
  }

  /**
   * What `bdf` promises its caller: on success a nonempty box of a
   * positive number of glyphs, an encoding per glyph and every bitmap of
   * `((w + 7) / 8) * h` bytes; on failure either the header's values
   * (a missing size or count) or the destroyed font.
   */
  lemma ParseResult(f0: FontState, lines: seq<Line>)
    ensures var (ok, f) := Parse(f0, lines);
      var hd := HeaderFrom(lines, 0, f0.fontbb, f0.nChars);
      var headerOk := hd.fontbb.w != 0 && hd.fontbb.h != 0 && hd.nChars > 0;
      (ok ==> headerOk && Shaped(f, hd.fontbb, hd.nChars)) &&
      (!ok && !headerOk ==> f == f0.(fontbb := hd.fontbb, nChars := hd.nChars)) &&
      (!ok && headerOk ==> f == Destroyed)
  {
    var hd := HeaderFrom(lines, 0, f0.fontbb, f0.nChars);
    if hd.fontbb.w != 0 && hd.fontbb.h != 0 && hd.nChars > 0 {
      RunShaped(Start(hd.fontbb, hd.nChars), lines, hd.rest);
    }
  }

  /**
   * A BITMAP line that passes its checks opens the glyph: its width
   * covers its box (as `unsigned` values), its bitmap is cleared to the
   * size of the font's rows, its encoding is recorded and row 0 is next.
   */
  lemma BeginBitmapOpens(ld: Loader)
    requires 0 <= ld.n < |ld.font.chars| && ld.n < |ld.font.table|
    ensures var ld' := BeginBitmap(ld);
      var g := ld.font.chars[ld.n];
      var g' := ld'.font.chars[ld.n];
      g'.width >= Unsigned(g.bb.x + g.bb.w) && g'.width >= Unsigned(ld.width) && Unsigned(ld'.width) == g'.width &&
      g'.bb == g.bb && g'.bitmap == Some(Zeros(Size(ld.font.fontbb))) &&
      ld'.font.table[ld.n] == Unsigned(ld.encoding) && ld'.scanline == 0 && ld'.n == ld.n &&
      (forall i :: 0 <= i < |ld.font.chars| && i != ld.n ==> ld'.font.chars[i] == ld.font.chars[i])
  {
  }

  /**
   * ENDCHAR closes the open glyph and moves to the next slot, unless its
   * horizontal offset is above 7, when the line changes nothing. The
   * bitmap changes only for an offset of 1 to 7, by `Shifted`.
   */
  lemma EndCharCloses(ld: Loader)
    ensures var g := GlyphAt(ld.font.chars, ld.n);
      var ld' := EndChar(ld);
      (g.bb.x > 7 ==> ld' == ld) &&
      (g.bb.x <= 7 ==>
         ld'.n == ld.n + 1 && ld'.scanline == -1 && ld'.width == -1 &&
         ld'.font.fontbb == ld.font.fontbb && ld'.font.table == ld.font.table &&
         (g.bb.x == 0 ==> ld'.font.chars == ld.font.chars))
  {
  }

  /**
   * A row line of an open glyph whose bytes fit the bitmap from
   * `scanline * stride` on writes exactly those bytes there and moves to
   * the next scanline.
   */
  lemma RowWrites(ld: Loader, tok: string, k: int)
    requires var g := GlyphAt(ld.font.chars, ld.n);
      ld.n < ld.font.nChars && g.bitmap.Some? && 0 <= ld.scanline
    requires ld.scanline * Stride(ld.font.fontbb.w) + |RowBytes(tok)| <= Word
    requires 0 <= k < |GlyphAt(ld.font.chars, ld.n).bitmap.value|
    ensures var g := GlyphAt(ld.font.chars, ld.n);
      var ld' := Row(ld, tok);
      var base := ld.scanline * Stride(ld.font.fontbb.w);
      ld'.scanline == ld.scanline + 1 &&
      GlyphAt(ld'.font.chars, ld.n).bitmap.Some? &&
      |GlyphAt(ld'.font.chars, ld.n).bitmap.value| == |g.bitmap.value| &&
      GlyphAt(ld'.font.chars, ld.n).bitmap.value[k] ==
        if base <= k < base + |RowBytes(tok)| then RowBytes(tok)[k - base] else g.bitmap.value[k]
  {
    var g := GlyphAt(ld.font.chars, ld.n);
    var base := ld.scanline * Stride(ld.font.fontbb.w);
    StoreFromAt(g.bitmap.value, base, RowBytes(tok), |RowBytes(tok)|, k);
  }

  // ---------------------------------------------------------------------
  // bdf_t and the loader as code.

  /** `bdf_t`, the font a caller hands to `bdf` and `bdf_destroy`. */
  class Font {
    var fontbb: Rect
    var nChars: int
    var table: seq<U32>
    var chars: seq<Glyph>

    function State(): FontState
      reads this
    {
      FontState(fontbb, nChars, table, chars)
    }

    /** A zeroed `bdf_t`. */
    constructor ()
      ensures State() == Destroyed
    {
      fontbb, nChars, table, chars := Zero, 0, [], [];
    }
  }

  /**
   * `bdf_destroy(f)` (extra/graphics_bdf.c:25-43): for a font, its
   * bitmaps, glyph records and table released, the count and the box
   * zeroed; NULL is left alone.
   */
  method Destroy(f: Font?)
    modifies if f != null then {f} else {}
    ensures f != null ==> f.State() == Destroyed
  {
    if f != null {
      f.chars := [];
      f.table := [];
      f.nChars := 0;
      f.fontbb := Zero;
    }
  }

  /** The buffer `cur` holds the bitmap of the open glyph `n`, if it has one. */
  ghost predicate Current(f: FontState, n: int, cur: array<bv8>)
    reads cur
  {
    GlyphAt(f.chars, n).bitmap.Some? ==> cur[..] == GlyphAt(f.chars, n).bitmap.value
  }

  /** No slot after `n` has a bitmap yet. */
  predicate Untouched(f: FontState, n: int) {
    forall i :: 0 <= i < |f.chars| && n < i ==> f.chars[i].bitmap.None?
  }

  /** The BITMAP branch (extra/graphics_bdf.c:124-141) after its checks, with a fresh buffer for the glyph. */
  method OpenGlyph(f: Font, encoding: int, width: int, scanline: int, n: int) returns (width': int, cur: array<bv8>)
    requires 0 <= n && Untouched(f.State(), n)
    modifies f
    ensures fresh(cur)
    ensures BeginBitmap(Loader(old(f.State()), encoding, width, scanline, n)) == Loader(f.State(), encoding, width', 0, n)
    ensures Current(f.State(), n, cur) && Untouched(f.State(), n)
  {
    var g := GlyphAt(f.chars, n);
    width' := width;
    if Unsigned(g.bb.x + g.bb.w) > Unsigned(width) {
      width' := AsInt(Unsigned(g.bb.x + g.bb.w));
    }
    cur := new bv8[Size(f.fontbb)](_ => 0);
    assert cur[..] == Zeros(Size(f.fontbb));
    f.chars := SetGlyph(f.chars, n, g.(width := Unsigned(width'), bitmap := Some(cur[..])));
    f.table := SetCode(f.table, n, Unsigned(encoding));
  }

  /** The ENDCHAR branch (extra/graphics_bdf.c:142-160) on the buffer of the open glyph. */
  method CloseGlyph(f: Font, cur: array<bv8>, encoding: int, width: int, scanline: int, n: int)
      returns (width': int, scanline': int, n': int)
    requires 0 <= n && Current(f.State(), n, cur) && Untouched(f.State(), n)
    modifies f, cur
    ensures EndChar(Loader(old(f.State()), encoding, width, scanline, n)) == Loader(f.State(), encoding, width', scanline', n')
    ensures 0 <= n' && Current(f.State(), n', cur) && Untouched(f.State(), n')
  {
    var g := GlyphAt(f.chars, n);
    if g.bb.x > 7 {
      return width, scanline, n;
    }
    if g.bb.x != 0 && g.bitmap.Some? && WholeRows(f.fontbb, g.bitmap.value) {
      ShiftGlyph(cur, Stride(f.fontbb.w), f.fontbb.h, Small(g.bb.x));
      f.chars := SetGlyph(f.chars, n, g.(bitmap := Some(cur[..])));
    }
    width', scanline', n' := -1, -1, n + 1;
  }

  /** A row line (extra/graphics_bdf.c:162-181) written into the buffer of the open glyph. */
  method RowLine(f: Font, cur: array<bv8>, encoding: int, width: int, scanline: int, n: int, tok: string)
      returns (scanline': int)
    requires 0 <= n && Current(f.State(), n, cur) && Untouched(f.State(), n)
    modifies f, cur
    ensures Row(Loader(old(f.State()), encoding, width, scanline, n), tok) == Loader(f.State(), encoding, width, scanline', n)
    ensures Current(f.State(), n, cur) && Untouched(f.State(), n)
  {
    var g := GlyphAt(f.chars, n);
    if n >= f.nChars || g.bitmap.None? || scanline < 0 {
      return scanline;
    }
    StoreRow(cur, scanline * Stride(f.fontbb.w), tok);
    f.chars := SetGlyph(f.chars, n, g.(bitmap := Some(cur[..])));
    scanline' := scanline + 1;
  }

  /**
   * One turn of the glyph loop (extra/graphics_bdf.c:103-182) on the
   * locals `encoding`, `width`, `scanline`, `n` and the buffer of the
   * open glyph, which a BITMAP line allocates anew. False when the loop
   * gives up, with the font destroyed.
   */
  method GlyphLine(f: Font, cur: array<bv8>, encoding: int, width: int, scanline: int, n: int, line: Line)
      returns (ok: bool, encoding': int, width': int, scanline': int, n': int, cur': array<bv8>)
    requires |line| > 0 && 0 <= n && Current(f.State(), n, cur) && Untouched(f.State(), n)
    modifies f, cur
    ensures cur' == cur || fresh(cur')
    ensures var r := Step(Loader(old(f.State()), encoding, width, scanline, n), line);
      ok == r.Some? &&
      (ok ==> r.value == Loader(f.State(), encoding', width', scanline', n')) &&
      (!ok ==> f.State() == Destroyed)
    ensures ok ==> 0 <= n' && Current(f.State(), n', cur') && Untouched(f.State(), n')
  {
    encoding', width', scanline', n', cur' := encoding, width, scanline, n, cur;
    ok := true;
    var kw := line[0];
    if Is(kw, "ENCODING") {
      encoding' := Arg(line, 1);
    } else if Is(kw, "DWIDTH") {
      width' := Arg(line, 1);
    } else if Is(kw, "BBX") {
      f.chars := SetGlyph(f.chars, n, GlyphAt(f.chars, n).(bb := ReadRect(line)));
    } else if Is(kw, "BITMAP") {
      if n == f.nChars || width == -1 {
        Destroy(f);
        return false, encoding', width', scanline', n', cur';
      }
      width', cur' := OpenGlyph(f, encoding, width, scanline, n);
      scanline' := 0;
    } else if Is(kw, "ENDCHAR") {
      width', scanline', n' := CloseGlyph(f, cur, encoding, width, scanline, n);
    } else {
      scanline' := RowLine(f, cur, encoding, width, scanline, n, kw);
    }
  }

  /**
   * The glyph loop of `bdf` (extra/graphics_bdf.c:96-184) on a font just
   * set up by `Start`: line by line from `rest` until the end of the file
   * or an empty line; false, with the font destroyed, when a line makes
   * it give up.
   */
  method GlyphLoop(f: Font, lines: seq<Line>, rest: nat, fontbb: Rect, nChars: nat) returns (ok: bool)
    requires rest <= |lines| && f.State() == Start(fontbb, nChars).font
    modifies f
    ensures ok <==> Run(Start(fontbb, nChars), lines, rest).Some?
    ensures ok ==> Run(Start(fontbb, nChars), lines, rest).value.font == f.State()
    ensures !ok ==> f.State() == Destroyed
  {
    ghost var start := Start(fontbb, nChars);
    var encoding, width, scanline, n := 0, -1, -1, 0;
    var cur := new bv8[0];
    var i := rest;
    while i < |lines|
      invariant rest <= i <= |lines| && 0 <= n && fresh(cur)
      invariant Run(start, lines, rest) == Run(Loader(f.State(), encoding, width, scanline, n), lines, i)
      invariant Current(f.State(), n, cur) && Untouched(f.State(), n)
      decreases |lines| - i
    {
      if |lines[i]| == 0 {
        break;
      }
      ok, encoding, width, scanline, n, cur := GlyphLine(f, cur, encoding, width, scanline, n, lines[i]);
      if !ok {
        return false;
      }
      i := i + 1;
    }
    return true;
  }

  /**
   * `bdf(out, path)` (extra/graphics_bdf.c:49-187) on the lines of the
   * file: the header loop, its checks, the tables allocated, then the
   * glyph loop until the end of the file or an empty line.
   */
  method Load(f: Font, lines: seq<Line>) returns (ok: bool)
    modifies f
    ensures (ok, f.State()) == Parse(old(f.State()), lines)
  {
    ghost var f0 := f.State();
    var fontbb, nChars, rest := ScanHeader(lines, f.fontbb, f.nChars);
    f.fontbb, f.nChars := fontbb, nChars;
    if fontbb.w == 0 || fontbb.h == 0 {
      return false;
    }
    if nChars <= 0 {
      return false;
    }
    f.table := seq(nChars, _ => 0);
    f.chars := seq(nChars, _ => Blank);
    ok := GlyphLoop(f, lines, rest, fontbb, nChars);
  }
}
