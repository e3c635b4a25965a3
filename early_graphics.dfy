// The first generation of the framebuffer, graphics.c at the top of the
// repository: a `surface_t` of w·h unsigned pixels written through the
// raw `XYSET`/`XYGET` index `y * w + x`, with `fill`, `pset`/`pget`,
// `blit`, `xline`/`yline`, Bresenham's `line`, the bounds test of
// `circle` and the sizing of `string`.
module EarlyGraphics {
  import opened Wrappers
  import opened Colour
  import opened Grid
  import opened HalSurface
  import LegacyGraphics

  // ---------------------------------------------------------------------
  // Comparisons of an `int` with an `unsigned int` field.

  /**
   * `v > bound` where `bound` is an `unsigned int` field: C converts `v`
   * to unsigned first, so a negative `v` compares as a value above any
   * bound a buffer of `int`-indexed size can have.
   */
  predicate AboveUnsigned(v: int, bound: int) { v < 0 || v > bound }

  /** `v >= bound` against an `unsigned int` field, by the same conversion. */
  predicate AtLeastUnsigned(v: int, bound: int) { v < 0 || v >= bound }

  // ---------------------------------------------------------------------
  // surface_t.

  class Surface {
    var buf: array<bv32>
    var w: int
    var h: int

    /** The buffer holds the w·h pixels (the extra byte `surface` allocates holds none). */
    ghost predicate Valid()
      reads this
    {
      0 <= w && 0 <= h && buf.Length == w * h
    }

    /** `surface(w, h)`: the pixels `memset` to zero. */
    constructor (width: int, height: int)
      requires 0 <= width && 0 <= height
      ensures Valid() && w == width && h == height && fresh(buf)
      ensures forall i :: 0 <= i < buf.Length ==> buf[i] == 0
    {
      w, h := width, height;
      buf := new bv32[width * height](_ => 0);
    }

    /** `create_surface(w, h)` of app.c: the size recorded, the pixels not cleared, so nothing is known of them. */
    constructor Allocated(width: int, height: int)
      requires 0 <= width && 0 <= height
      ensures Valid() && w == width && h == height && fresh(buf)
    {
      w, h := width, height;
      buf := new bv32[width * height];
    }

    /** One column of `fill`: the points of column `x`, top to bottom, set to `col`. */
    method FillColumn(x: int, col: bv32)
      requires Valid() && 0 <= x < w
      modifies buf
      ensures buf[..] == YRun(old(buf[..]), w, h, x, 0, h, col)
    {
      ghost var cells := buf[..];
      var y := 0;
      while y < h
        invariant 0 <= y <= h
        invariant buf[..] == YRun(cells, w, h, x, 0, y, col)
      {
        CellIndexInRange(w, h, x, y);
        buf[y * w + x] := col;
        y := y + 1;
      }
    }

    /** `fill(s, col)` (graphics.c:177-182): column by column, every pixel set to `col`. */
    method Fill(col: bv32)
      requires Valid()
      modifies buf
      ensures forall i :: 0 <= i < buf.Length ==> buf[i] == col
    {
      ghost var cells := buf[..];
      var x := 0;
      while x < w
        invariant 0 <= x <= w
        invariant buf[..] == FillColumns(cells, w, h, x, col)
      {
        FillColumn(x, col);
        x := x + 1;
      }
      FillColumnsAll(cells, w, h, col);
    }

    /**
     * `pset(s, x, y, col)` (graphics.c:184-191) with the bounds test it
     * evidently intends, `x < w` and `y < h`; `AcceptsAsWritten` is the
     * test as written. True and one pixel written on the surface, false
     * and nothing changed off it.
     */
    method Pset(x: int, y: int, col: bv32) returns (ok: bool)
      requires Valid()
      modifies buf
      ensures ok == InGrid(w, h, x, y)
      ensures buf[..] == SetPixel(old(buf[..]), w, h, x, y, col)
    {
      if AboveUnsigned(x, w - 1) || AboveUnsigned(y, h - 1) || x < 0 || y < 0 {
        return false;
      }
      CellIndexInRange(w, h, x, y);
      buf[y * w + x] := col;
      return true;
    }

    /** `pget(s, x, y)` (graphics.c:193-199) with the intended test: the pixel, or 0 off the surface. */
    function Pget(x: int, y: int): (c: bv32)
      requires Valid()
      reads this, buf
      ensures InGrid(w, h, x, y) ==> 0 <= CellIndex(w, x, y) < buf.Length && c == buf[CellIndex(w, x, y)]
      ensures !InGrid(w, h, x, y) ==> c == 0
    {
      PixelAt(buf[..], w, h, x, y)
    }

    /**
     * `xline(s, y, x1, x2, col)` (graphics.c:250-269) as written: the
     * endpoints swapped into order, the signed start compared with the
     * unsigned width, the end clamped, then `XYSET` along the row.
     */
    method Xline(y: int, x1: int, x2: int, col: bv32) returns (ok: bool)
      requires Valid()
      modifies buf
      ensures ok == (0 <= y < h && XlineSpan(x1, x2, w).Some?)
      ensures buf[..] == if ok then XRun(old(buf[..]), w, h, y, XlineSpan(x1, x2, w).value.0, XlineSpan(x1, x2, w).value.1 + 1, col)
                         else old(buf[..])
    {
      var lo, hi := x1, x2;
      if hi < lo {
        lo, hi := hi, lo;
      }
      if hi < 0 || AtLeastUnsigned(lo, w) || y < 0 || AtLeastUnsigned(y, h) {
        return false;
      }
      if lo < 0 { lo := 0; }
      if hi >= w { hi := w - 1; }
      ghost var cells := buf[..];
      var x := lo;
      while x <= hi
        invariant lo <= x <= hi + 1
        invariant buf[..] == XRun(cells, w, h, y, lo, x, col)
      {
        CellIndexInRange(w, h, x, y);
        buf[y * w + x] := col;
        x := x + 1;
      }
      return true;
    }

    /** `yline(s, x, y1, y2, col)` (graphics.c:229-248) as written, down a column. */
    method Yline(x: int, y1: int, y2: int, col: bv32) returns (ok: bool)
      requires Valid()
      modifies buf
      ensures ok == (0 <= x < w && XlineSpan(y1, y2, h).Some?)
      ensures buf[..] == if ok then YRun(old(buf[..]), w, h, x, XlineSpan(y1, y2, h).value.0, XlineSpan(y1, y2, h).value.1 + 1, col)
                         else old(buf[..])
    {
      var lo, hi := y1, y2;
      if hi < lo {
        lo, hi := hi, lo;
      }
      if hi < 0 || AtLeastUnsigned(lo, h) || x < 0 || AtLeastUnsigned(x, w) {
        return false;
      }
      if lo < 0 { lo := 0; }
      if hi >= h { hi := h - 1; }
      ghost var cells := buf[..];
      var y := lo;
      while y <= hi
        invariant lo <= y <= hi + 1
        invariant buf[..] == YRun(cells, w, h, x, lo, y, col)
      {
        CellIndexInRange(w, h, x, y);
        buf[y * w + x] := col;
        y := y + 1;
      }
      return true;
    }
  }

  // ---------------------------------------------------------------------
  // pset / pget as written.

  /**
   * The bounds test of `pset`/`pget` in graphics.c (lines 185 and 194)
   * as written: `x > s->w || y > s->h || x < 0 || y < 0` rejects.
   */
  predicate AcceptsAsWritten(w: int, h: int, x: int, y: int) {
    !(AboveUnsigned(x, w) || AboveUnsigned(y, h) || x < 0 || y < 0)
  }

  /** It accepts exactly the surface plus the column x == w and the row y == h just past it. */
  lemma AcceptsAsWrittenExactly(w: int, h: int, x: int, y: int)
    requires 0 <= w && 0 <= h
    ensures AcceptsAsWritten(w, h, x, y) <==> InGrid(w, h, x, y) || (x == w && 0 <= y <= h) || (y == h && 0 <= x <= w)
  {
  }

  /**
   * Two consequences: `pset(s, w, 0, c)` writes the pixel (0, 1), and
   * `pset(s, w, h - 1, c)` writes the cell one past the buffer.
   */
  lemma PsetAcceptsPastEdge(w: int, h: int)
    requires 0 < w && 1 < h
    ensures AcceptsAsWritten(w, h, w, 0) && CellIndex(w, w, 0) == CellIndex(w, 0, 1)
    ensures AcceptsAsWritten(w, h, w, h - 1) && CellIndex(w, w, h - 1) == w * h
  {
    assert (h - 1) * w + w == w * h;
  }

  // ---------------------------------------------------------------------
  // xline / yline.

  /**
   * The span `xline` draws along an axis of length `extent` as written:
   * after ordering the endpoints it rejects a negative end, and it also
   * rejects a negative start, since that start compared with the unsigned
   * extent wraps to a huge value. So the clamp of the start to 0 at lines
   * 239-240 and 261-262 is never reached, and only the end is clamped.
   */
  function XlineSpan(a: int, b: int, extent: int): (r: Option<(int, int)>)
    ensures r.Some? <==> 0 <= Min(a, b) < extent
    ensures r.Some? ==> r.value == (Min(a, b), Min(Max(a, b), extent - 1))
  {
    var lo := if b < a then b else a;
    var hi := if b < a then a else b;
    if hi < 0 || AtLeastUnsigned(lo, extent) then None
    else Some((if lo < 0 then 0 else lo, if hi >= extent then extent - 1 else hi))
  }

  /** With a start on the surface the span is the clamped one of src/graphics.c's `hal_hline`. */
  lemma XlineSpanIsSpan(a: int, b: int, extent: int)
    requires 0 <= Min(a, b)
    ensures XlineSpan(a, b, extent) == Span(a, b, extent)
  {
  }

  /** A segment from -1 to 3 on an 8-wide surface draws nothing, where the clamp intends 0 … 3. */
  lemma XlineDropsNegativeStart()
    ensures XlineSpan(-1, 3, 8).None?
    ensures Span(-1, 3, 8) == Some((0, 3))
  {
  }

  /** `XYSET(s, x, y, col)` for x = lo … x-1 of row y. */
  function XRun(cells: seq<bv32>, w: int, h: int, y: int, lo: int, x: int, c: bv32): (r: seq<bv32>)
    requires 0 <= w && 0 <= h && |cells| == w * h
    ensures |r| == |cells|
    decreases x - lo
  {
    if x <= lo then cells else SetPixel(XRun(cells, w, h, y, lo, x - 1, c), w, h, x - 1, y, c)
  }

  /** `XYSET(s, x, y, col)` for y = lo … y-1 of column x. */
  function YRun(cells: seq<bv32>, w: int, h: int, x: int, lo: int, y: int, c: bv32): (r: seq<bv32>)
    requires 0 <= w && 0 <= h && |cells| == w * h
    ensures |r| == |cells|
    decreases y - lo
  {
    if y <= lo then cells else SetPixel(YRun(cells, w, h, x, lo, y - 1, c), w, h, x, y - 1, c)
  }

  /** After `XRun`, the points lo … x-1 of row y hold `c`; every other point keeps its colour. */
  lemma {:induction false} XRunAt(cells: seq<bv32>, w: int, h: int, y: int, lo: int, x: int, c: bv32, px: int, py: int)
    requires 0 <= w && 0 <= h && |cells| == w * h && InGrid(w, h, px, py)
    ensures PixelAt(XRun(cells, w, h, y, lo, x, c), w, h, px, py) ==
      if py == y && lo <= px < x then c else PixelAt(cells, w, h, px, py)
    decreases x - lo
  {
    if x > lo {
      XRunAt(cells, w, h, y, lo, x - 1, c, px, py);
      GetAfterSet(XRun(cells, w, h, y, lo, x - 1, c), w, h, x - 1, y, c, px, py);
    }
  }

  /** After `YRun`, the points lo … y-1 of column x hold `c`; every other point keeps its colour. */
  lemma {:induction false} YRunAt(cells: seq<bv32>, w: int, h: int, x: int, lo: int, y: int, c: bv32, px: int, py: int)
    requires 0 <= w && 0 <= h && |cells| == w * h && InGrid(w, h, px, py)
    ensures PixelAt(YRun(cells, w, h, x, lo, y, c), w, h, px, py) ==
      if px == x && lo <= py < y then c else PixelAt(cells, w, h, px, py)
    decreases y - lo
  {
    if y > lo {
      YRunAt(cells, w, h, x, lo, y - 1, c, px, py);
      GetAfterSet(YRun(cells, w, h, x, lo, y - 1, c), w, h, x, y - 1, c, px, py);
    }
  }

  /** The outer loop of `fill`: columns 0 … m-1 in full. */
  function FillColumns(cells: seq<bv32>, w: int, h: int, m: int, c: bv32): (r: seq<bv32>)
    requires 0 <= w && 0 <= h && |cells| == w * h
    ensures |r| == |cells|
    decreases m
  {
    if m <= 0 then cells else YRun(FillColumns(cells, w, h, m - 1, c), w, h, m - 1, 0, h, c)
  }

  /** After m columns, the points of columns 0 … m-1 hold `c` and the rest keep their colour. */
  lemma {:induction false} FillColumnsAt(cells: seq<bv32>, w: int, h: int, m: int, c: bv32, px: int, py: int)
    requires 0 <= w && 0 <= h && |cells| == w * h && InGrid(w, h, px, py)
    ensures PixelAt(FillColumns(cells, w, h, m, c), w, h, px, py) == if px < m then c else PixelAt(cells, w, h, px, py)
    decreases m
  {
    if m > 0 {
      FillColumnsAt(cells, w, h, m - 1, c, px, py);
      YRunAt(FillColumns(cells, w, h, m - 1, c), w, h, m - 1, 0, h, c, px, py);
    }
  }

  /** All w columns filled leave every cell of the buffer `c`. */
  lemma FillColumnsAll(cells: seq<bv32>, w: int, h: int, c: bv32)
    requires 0 <= w && 0 <= h && |cells| == w * h
    ensures forall i :: 0 <= i < |cells| ==> FillColumns(cells, w, h, w, c)[i] == c
  {
    forall i | 0 <= i < |cells|
      ensures FillColumns(cells, w, h, w, c)[i] == c
    {
      RowOfCell(i, w, h);
      FillColumnsAt(cells, w, h, w, c, i % w, i / w);
    }
  }

  /** `xline` colours exactly the points of the row from its start to its clamped end. */
  lemma XlineAt(cells: seq<bv32>, w: int, h: int, y: int, x1: int, x2: int, c: bv32, px: int, py: int)
    requires 0 <= w && 0 <= h && |cells| == w * h && InGrid(w, h, px, py)
    requires 0 <= y < h && XlineSpan(x1, x2, w).Some?
    ensures PixelAt(XRun(cells, w, h, y, XlineSpan(x1, x2, w).value.0, XlineSpan(x1, x2, w).value.1 + 1, c), w, h, px, py) ==
      if py == y && Min(x1, x2) <= px <= Max(x1, x2) then c else PixelAt(cells, w, h, px, py)
  {
    XRunAt(cells, w, h, y, XlineSpan(x1, x2, w).value.0, XlineSpan(x1, x2, w).value.1 + 1, c, px, py);
  }

  // ---------------------------------------------------------------------
  // blit(dst, p, src, r).

  /** `point_t`, with its `unsigned int` fields. */
  datatype Point = Point(x: nat, y: nat)

  /** `rect_t`, with its `unsigned int` fields. */
  datatype Rect = Rect(x: nat, y: nat, w: nat, h: nat)

  /** The offset of a blit: `p`, or (0, 0) for a null `p`. */
  function Offset(p: Option<Point>): Point { if p.Some? then p.value else Point(0, 0) }

  /** The source block of a blit: `r`, or the whole source for a null `r`. */
  function Block(r: Option<Rect>, sw: nat, sh: nat): Rect { if r.Some? then r.value else Rect(0, 0, sw, sh) }

  /** `XYGET(src, x, y)`: the raw cell `y * sw + x`, which runs on into the next row for x ≥ sw. */
  function RawCell(src: seq<bv32>, sw: int, x: int, y: int): bv32 {
    if 0 <= y * sw + x < |src| then src[y * sw + x] else 0
  }

  /** Every raw cell the block reads lies in the source buffer: the last one read does. */
  predicate Readable(src: seq<bv32>, sw: int, k: Rect) {
    k.w == 0 || k.h == 0 || (k.y + k.h - 1) * sw + k.x + k.w - 1 < |src|
  }

  /** That block read raw lies inside the buffer at every cell it reads. */
  lemma ReadableCell(src: seq<bv32>, sw: int, k: Rect, i: int, j: int)
    requires 0 <= sw && Readable(src, sw, k) && 0 <= i < k.w && 0 <= j < k.h
    ensures 0 <= (k.y + j) * sw + k.x + i < |src|
  {
    MulMono(k.y + j, k.y + k.h - 1, sw);
    MulMono(0, k.y + j, sw);
  }

  /** The inner loop of `blit`: rows 0 … n-1 of block column `i`. */
  function BlitColumn(cells: seq<bv32>, w: int, h: int, src: seq<bv32>, sw: int, o: Point, k: Rect, i: int, n: int): (r: seq<bv32>)
    requires 0 <= w && 0 <= h && |cells| == w * h
    ensures |r| == |cells|
    decreases n
  {
    if n <= 0 then cells
    else SetPixel(BlitColumn(cells, w, h, src, sw, o, k, i, n - 1), w, h, o.x + i, o.y + n - 1, RawCell(src, sw, k.x + i, k.y + n - 1))
  }

  /** The outer loop of `blit`: block columns 0 … m-1. */
  function BlitColumns(cells: seq<bv32>, w: int, h: int, src: seq<bv32>, sw: int, o: Point, k: Rect, m: int): (r: seq<bv32>)
    requires 0 <= w && 0 <= h && |cells| == w * h
    ensures |r| == |cells|
    decreases m
  {
    if m <= 0 then cells else BlitColumn(BlitColumns(cells, w, h, src, sw, o, k, m - 1), w, h, src, sw, o, k, m - 1, k.h)
  }

  lemma {:induction false} BlitColumnAt(cells: seq<bv32>, w: int, h: int, src: seq<bv32>, sw: int, o: Point, k: Rect, i: int, n: int, px: int, py: int)
    requires 0 <= w && 0 <= h && |cells| == w * h && InGrid(w, h, px, py)
    requires o.x + i < w && o.y + n <= h
    ensures PixelAt(BlitColumn(cells, w, h, src, sw, o, k, i, n), w, h, px, py) ==
      if px == o.x + i && o.y <= py < o.y + n then RawCell(src, sw, k.x + i, k.y + py - o.y) else PixelAt(cells, w, h, px, py)
    decreases n
  {
    if n > 0 {
      var before := BlitColumn(cells, w, h, src, sw, o, k, i, n - 1);
      BlitColumnAt(cells, w, h, src, sw, o, k, i, n - 1, px, py);
      GetAfterSet(before, w, h, o.x + i, o.y + n - 1, RawCell(src, sw, k.x + i, k.y + n - 1), px, py);
    }
  }

  /**
   * After `blit`, every destination point of the block holds the source
   * cell at the same offset in the source block; every other keeps its
   * colour.
   */
  lemma {:induction false} BlitColumnsAt(cells: seq<bv32>, w: int, h: int, src: seq<bv32>, sw: int, o: Point, k: Rect, m: int, px: int, py: int)
    requires 0 <= w && 0 <= h && |cells| == w * h && InGrid(w, h, px, py)
    requires 0 <= m <= k.w && o.x + k.w <= w && o.y + k.h <= h
    ensures PixelAt(BlitColumns(cells, w, h, src, sw, o, k, m), w, h, px, py) ==
      if o.x <= px < o.x + m && o.y <= py < o.y + k.h then RawCell(src, sw, k.x + px - o.x, k.y + py - o.y)
      else PixelAt(cells, w, h, px, py)
    decreases m
  {
    if m > 0 {
      BlitColumnsAt(cells, w, h, src, sw, o, k, m - 1, px, py);
      BlitColumnAt(BlitColumns(cells, w, h, src, sw, o, k, m - 1), w, h, src, sw, o, k, m - 1, k.h, px, py);
    }
  }

  /** Whether `blit` accepts: the block placed at the offset fits the destination. */
  predicate BlitFits(dst: Surface, o: Point, k: Rect)
    reads dst
  {
    !(AboveUnsigned(o.x + k.w, dst.w) || AboveUnsigned(o.y + k.h, dst.h))
  }

  /** The inner loop of `blit`: block column `i`, row by row. */
  method BlitColumnLoop(dst: Surface, o: Point, src: Surface, k: Rect, i: int)
    requires dst.Valid() && src.Valid() && dst.buf != src.buf
    requires 0 <= i < k.w && o.x + k.w <= dst.w && o.y + k.h <= dst.h && Readable(src.buf[..], src.w, k)
    modifies dst.buf
    ensures dst.buf[..] == BlitColumn(old(dst.buf[..]), dst.w, dst.h, src.buf[..], src.w, o, k, i, k.h)
  {
    ghost var cells, pixels := dst.buf[..], src.buf[..];
    var j := 0;
    while j < k.h
      invariant 0 <= j <= k.h && src.buf[..] == pixels
      invariant dst.buf[..] == BlitColumn(cells, dst.w, dst.h, pixels, src.w, o, k, i, j)
    {
      ReadableCell(pixels, src.w, k, i, j);
      CellIndexInRange(dst.w, dst.h, o.x + i, o.y + j);
      dst.buf[(o.y + j) * dst.w + o.x + i] := src.buf[(k.y + j) * src.w + k.x + i];
      j := j + 1;
    }
  }

  /**
   * `blit(dst, p, src, r)` (graphics.c:202-227): false with nothing
   * written when the block does not fit the destination, otherwise true
   * and the block copied column by column.
   */
  method Blit(dst: Surface, p: Option<Point>, src: Surface, r: Option<Rect>) returns (ok: bool)
    requires dst.Valid() && src.Valid() && dst.buf != src.buf
    requires Readable(src.buf[..], src.w, Block(r, src.w, src.h))
    modifies dst.buf
    ensures ok == BlitFits(dst, Offset(p), Block(r, src.w, src.h))
    ensures dst.buf[..] == if ok then BlitColumns(old(dst.buf[..]), dst.w, dst.h, src.buf[..], src.w, Offset(p), Block(r, src.w, src.h), Block(r, src.w, src.h).w)
                           else old(dst.buf[..])
  {
    var o := Offset(p);
    var k := Block(r, src.w, src.h);
    if AboveUnsigned(o.x + k.w, dst.w) || AboveUnsigned(o.y + k.h, dst.h) {
      return false;
    }
    var i := 0;
    while i < k.w
      invariant 0 <= i <= k.w
      invariant dst.buf[..] == BlitColumns(old(dst.buf[..]), dst.w, dst.h, src.buf[..], src.w, o, k, i)
    {
      BlitColumnLoop(dst, o, src, k, i);
      i := i + 1;
    }
    return true;
  }

  // ---------------------------------------------------------------------
  // line(s, x1, y1, x2, y2, col).

  function Abs(v: int): int { if v < 0 then -v else v }

  /** `p` steps from `a` toward `b`: the increments `xi`/`yi` are 1 when `b >= a`, otherwise -1. */
  function Toward(a: int, b: int, p: int): int { if b >= a then a + p else a - p }

  /**
   * The error term of `line` at the start of step `p`: the minor-axis
   * steps taken so far and `n`, starting at `d / 2`; each step adds `na`
   * and, once `n` reaches `d`, takes `d` off and steps the minor axis.
   */
  function Walk(d: int, na: int, p: nat): (int, int)
  {
    if p == 0 then (0, d / 2)
    else
      var prev := Walk(d, na, p - 1);
      if prev.1 + na >= d then (prev.0 + 1, prev.1 + na - d) else (prev.0, prev.1 + na)
  }

  /** Step counts as products, kept out of the error-term lemmas' arithmetic. */
  function Scaled(k: int, d: int): int { k * d }

  /** The error term in closed form: k·d + n == d/2 + p·na with 0 ≤ n < d. */
  lemma {:induction false} WalkClosed(d: int, na: int, p: nat)
    requires 0 < d && 0 <= na <= d
    ensures Scaled(Walk(d, na, p).0, d) + Walk(d, na, p).1 == d / 2 + Scaled(p, na)
    ensures 0 <= Walk(d, na, p).1 < d
  {
    if p > 0 {
      WalkClosed(d, na, p - 1);
      MulStep(Walk(d, na, p - 1).0, d);
      MulStep(p - 1, na);
    }
  }

  /** The minor axis moves from 0 to exactly `na` steps in `d` steps of the major one. */
  lemma WalkBounds(d: int, na: int, p: nat)
    requires 0 < d && 0 <= na <= d && p <= d
    ensures 0 <= Walk(d, na, p).0 <= na
    ensures p == d ==> Walk(d, na, p).0 == na
  {
    WalkClosed(d, na, p);
    var k, n := Walk(d, na, p).0, Walk(d, na, p).1;
    MulMono(p, d, na);
    assert d * na == Scaled(na, d);
    if k > na {
      MulMono(na + 1, k, d);
      MulStep(na, d);
      assert false;
    }
    if k < 0 {
      MulMono(k, -1, d);
      MulMono(0, p, na);
      assert false;
    }
    if p == d && k < na {
      MulMono(k + 1, na, d);
      MulStep(k, d);
      assert false;
    }
  }

  /** The minor axis takes at most one step per step of the major one. */
  lemma WalkStep(d: int, na: int, p: nat)
    ensures Walk(d, na, p + 1).0 - Walk(d, na, p).0 in {0, 1}
  {
  }

  /** The number of steps the loop takes after the first pixel: `max(dx, dy)`. */
  function LineLength(x1: int, y1: int, x2: int, y2: int): int { Max(Abs(x2 - x1), Abs(y2 - y1)) }

  /** Point `p` of `line(s, x1, y1, x2, y2, col)`: p steps along the major axis, `Walk` steps along the minor. */
  function LinePoint(x1: int, y1: int, x2: int, y2: int, p: nat): (int, int)
  {
    var dx, dy := Abs(x2 - x1), Abs(y2 - y1);
    if dx >= dy then (Toward(x1, x2, p), Toward(y1, y2, Walk(dx, dy, p).0))
    else (Toward(x1, x2, Walk(dy, dx, p).0), Toward(y1, y2, p))
  }

  /**
   * The increments and error-term constants `line` sets up before its
   * loop: along the major axis `xi2`/`yi2` step every time, along the
   * minor one `xi1`/`yi1` step when the error term carries.
   */
  predicate LineSetup(x1: int, y1: int, x2: int, y2: int, xi1: int, xi2: int, yi1: int, yi2: int, d: int, na: int, np: int) {
    var dx, dy := Abs(x2 - x1), Abs(y2 - y1);
    var sx, sy := (if x2 >= x1 then 1 else -1), (if y2 >= y1 then 1 else -1);
    if dx >= dy then xi1 == 0 && xi2 == sx && yi1 == sy && yi2 == 0 && d == dx && na == dy && np == dx
    else xi1 == sx && xi2 == 0 && yi1 == 0 && yi2 == sy && d == dy && na == dx && np == dy
  }

  /** One pass of the loop of `line` takes point `p` and its error term to those of point `p + 1`. */
  lemma LineStepped(x1: int, y1: int, x2: int, y2: int, xi1: int, xi2: int, yi1: int, yi2: int, d: int, na: int, np: int, p: nat,
                    x: int, y: int, n: int, x': int, y': int, n': int)
    requires LineSetup(x1, y1, x2, y2, xi1, xi2, yi1, yi2, d, na, np)
    requires n == Walk(d, na, p).1 && (x, y) == LinePoint(x1, y1, x2, y2, p)
    requires n' == (if n + na >= d then n + na - d else n + na)
    requires x' == x + (if n + na >= d then xi1 else 0) + xi2 && y' == y + (if n + na >= d then yi1 else 0) + yi2
    ensures n' == Walk(d, na, p + 1).1 && (x', y') == LinePoint(x1, y1, x2, y2, p + 1)
  {
  }

  /** The line starts at (x1, y1) and its last pixel is (x2, y2). */
  lemma LineEnds(x1: int, y1: int, x2: int, y2: int)
    ensures LinePoint(x1, y1, x2, y2, 0) == (x1, y1)
    ensures LinePoint(x1, y1, x2, y2, LineLength(x1, y1, x2, y2)) == (x2, y2)
  {
    var dx, dy := Abs(x2 - x1), Abs(y2 - y1);
    if dx >= dy && dx > 0 {
      WalkBounds(dx, dy, dx);
    } else if dy > dx {
      WalkBounds(dy, dx, dy);
    }
  }

  /** Every pixel of the line lies in the box its endpoints span. */
  lemma LineInBox(x1: int, y1: int, x2: int, y2: int, p: nat)
    requires p <= LineLength(x1, y1, x2, y2)
    ensures Min(x1, x2) <= LinePoint(x1, y1, x2, y2, p).0 <= Max(x1, x2)
    ensures Min(y1, y2) <= LinePoint(x1, y1, x2, y2, p).1 <= Max(y1, y2)
  {
    var dx, dy := Abs(x2 - x1), Abs(y2 - y1);
    if dx >= dy && dx > 0 {
      WalkBounds(dx, dy, p);
    } else if dy > dx {
      WalkBounds(dy, dx, p);
    }
  }

  /** Consecutive pixels are neighbours: one step on the major axis, at most one on the minor. */
  lemma LineSteps(x1: int, y1: int, x2: int, y2: int, p: nat)
    ensures Abs(LinePoint(x1, y1, x2, y2, p + 1).0 - LinePoint(x1, y1, x2, y2, p).0) <= 1
    ensures Abs(LinePoint(x1, y1, x2, y2, p + 1).1 - LinePoint(x1, y1, x2, y2, p).1) <= 1
    ensures LinePoint(x1, y1, x2, y2, p + 1) != LinePoint(x1, y1, x2, y2, p)
  {
    var dx, dy := Abs(x2 - x1), Abs(y2 - y1);
    WalkStep(dx, dy, p);
    WalkStep(dy, dx, p);
  }

  /** Distinct steps write distinct pixels, so the line colours `max(dx, dy) + 1` pixels. */
  lemma LineDistinct(x1: int, y1: int, x2: int, y2: int, p: nat, q: nat)
    requires p != q
    ensures LinePoint(x1, y1, x2, y2, p) != LinePoint(x1, y1, x2, y2, q)
  {
  }

  /** Whether (px, py) is one of the first `k` pixels of the line. */
  ghost predicate OnLine(x1: int, y1: int, x2: int, y2: int, k: nat, px: int, py: int) {
    exists p: nat :: p < k && LinePoint(x1, y1, x2, y2, p) == (px, py)
  }

  /** The buffer after the first `k` writes of `line`. */
  function LineCells(cells: seq<bv32>, w: int, h: int, x1: int, y1: int, x2: int, y2: int, k: nat, c: bv32): (r: seq<bv32>)
    requires 0 <= w && 0 <= h && |cells| == w * h
    ensures |r| == |cells|
  {
    if k == 0 then cells
    else
      var pt := LinePoint(x1, y1, x2, y2, k - 1);
      SetPixel(LineCells(cells, w, h, x1, y1, x2, y2, k - 1, c), w, h, pt.0, pt.1, c)
  }

  /** After `k` writes, exactly the first `k` pixels of the line hold `c`. */
  lemma {:induction false} LineCellsAt(cells: seq<bv32>, w: int, h: int, x1: int, y1: int, x2: int, y2: int, k: nat, c: bv32, px: int, py: int)
    requires 0 <= w && 0 <= h && |cells| == w * h && InGrid(w, h, px, py)
    ensures PixelAt(LineCells(cells, w, h, x1, y1, x2, y2, k, c), w, h, px, py) ==
      if OnLine(x1, y1, x2, y2, k, px, py) then c else PixelAt(cells, w, h, px, py)
  {
    if k > 0 {
      var pt := LinePoint(x1, y1, x2, y2, k - 1);
      LineCellsAt(cells, w, h, x1, y1, x2, y2, k - 1, c, px, py);
      GetAfterSet(LineCells(cells, w, h, x1, y1, x2, y2, k - 1, c), w, h, pt.0, pt.1, c, px, py);
      if pt == (px, py) {
        assert OnLine(x1, y1, x2, y2, k, px, py);
      } else if OnLine(x1, y1, x2, y2, k, px, py) {
        var p: nat :| p < k && LinePoint(x1, y1, x2, y2, p) == (px, py);
        assert OnLine(x1, y1, x2, y2, k - 1, px, py);
      }
    }
  }

  /** Whether `line` accepts: both endpoints on the surface. */
  predicate LineFits(w: int, h: int, x1: int, y1: int, x2: int, y2: int) {
    InGrid(w, h, x1, y1) && InGrid(w, h, x2, y2)
  }

  /** With both endpoints on the surface, so is every pixel of the line. */
  lemma LineOnSurface(w: int, h: int, x1: int, y1: int, x2: int, y2: int, p: nat)
    requires LineFits(w, h, x1, y1, x2, y2) && p <= LineLength(x1, y1, x2, y2)
    ensures InGrid(w, h, LinePoint(x1, y1, x2, y2, p).0, LinePoint(x1, y1, x2, y2, p).1)
  {
    LineInBox(x1, y1, x2, y2, p);
  }

  /** `XYSET(s, x % s->w, y % s->h, col)` for a point on the surface, where the remainders change nothing. */
  method LinePlot(s: Surface, x: int, y: int, col: bv32)
    requires s.Valid() && InGrid(s.w, s.h, x, y)
    modifies s.buf
    ensures s.buf[..] == SetPixel(old(s.buf[..]), s.w, s.h, x, y, col)
  {
    ModInRange(x, s.w);
    ModInRange(y, s.h);
    var xm, ym := x % s.w, y % s.h;
    CellIndexInRange(s.w, s.h, x, y);
    s.buf[CellIndex(s.w, xm, ym)] := col;
  }

  /** The loop of `line`: steps 0 … np, each writing the current point and advancing it. */
  method LineWalk(s: Surface, x1: int, y1: int, x2: int, y2: int, col: bv32,
                  xi1: int, xi2: int, yi1: int, yi2: int, d: int, n0: int, na: int, np: int)
    requires s.Valid() && LineFits(s.w, s.h, x1, y1, x2, y2)
    requires LineSetup(x1, y1, x2, y2, xi1, xi2, yi1, yi2, d, na, np) && n0 == d / 2 && np == LineLength(x1, y1, x2, y2)
    modifies s.buf
    ensures s.buf[..] == LineCells(old(s.buf[..]), s.w, s.h, x1, y1, x2, y2, np + 1, col)
  {
    ghost var cells := s.buf[..];
    var x, y, n := x1, y1, n0;
    var p := 0;
    while p <= np
      invariant 0 <= p <= np + 1
      invariant n == Walk(d, na, p).1
      invariant (x, y) == LinePoint(x1, y1, x2, y2, p)
      invariant s.buf[..] == LineCells(cells, s.w, s.h, x1, y1, x2, y2, p, col)
    {
      LineOnSurface(s.w, s.h, x1, y1, x2, y2, p);
      LinePlot(s, x, y, col);
      ghost var x0, y0, n1 := x, y, n;
      n := n + na;
      if n >= d {
        n := n - d;
        x := x + xi1;
        y := y + yi1;
      }
      x := x + xi2;
      y := y + yi2;
      LineStepped(x1, y1, x2, y2, xi1, xi2, yi1, yi2, d, na, np, p, x0, y0, n1, x, y, n);
      p := p + 1;
    }
  }

  /**
   * `line(s, x1, y1, x2, y2, col)` (graphics.c:271-325): false with
   * nothing written unless both endpoints lie on the surface, otherwise
   * true and the `max(dx, dy) + 1` pixels of `LinePoint` written.
   */
  method Line(s: Surface, x1: int, y1: int, x2: int, y2: int, col: bv32) returns (ok: bool)
    requires s.Valid()
    modifies s.buf
    ensures ok == LineFits(s.w, s.h, x1, y1, x2, y2)
    ensures s.buf[..] == if ok then LineCells(old(s.buf[..]), s.w, s.h, x1, y1, x2, y2, LineLength(x1, y1, x2, y2) + 1, col)
                         else old(s.buf[..])
  {
    if x1 < 0 || x1 > s.w - 1 || x2 < 0 || x2 > s.w - 1 || y1 < 0 || y1 > s.h - 1 || y2 < 0 || y2 > s.h - 1 {
      return false;
    }
    var dx, dy := Abs(x2 - x1), Abs(y2 - y1);
    var xi1, xi2, yi1, yi2, d, n, na, np;
    if x2 >= x1 {
      xi1, xi2 := 1, 1;
    } else {
      xi1, xi2 := -1, -1;
    }
    if y2 >= y1 {
      yi1, yi2 := 1, 1;
    } else {
      yi1, yi2 := -1, -1;
    }
    if dx >= dy {
      xi1, yi2 := 0, 0;
      d, n, na, np := dx, dx / 2, dy, dx;
    } else {
      xi2, yi1 := 0, 0;
      d, n, na, np := dy, dy / 2, dx, dy;
    }
    LineWalk(s, x1, y1, x2, y2, col, xi1, xi2, yi1, yi2, d, n, na, np);
    return true;
  }

  // ---------------------------------------------------------------------
  // circle's bounds test and string's size.

  /** The test of `circle` (graphics.c:327-331): it draws only when this holds. */
  predicate CircleFits(w: int, h: int, xc: int, yc: int, r: int) {
    !(xc - r < 0 || AtLeastUnsigned(xc + r, w) || yc - r < 0 || AtLeastUnsigned(yc + r, h))
  }

  /** For a radius r ≥ 0 the test passes exactly when the box [xc-r, xc+r] × [yc-r, yc+r] lies on the surface. */
  lemma CircleFitsBox(w: int, h: int, xc: int, yc: int, r: int)
    requires 0 <= r
    ensures CircleFits(w, h, xc, yc, r) <==>
      forall x, y :: xc - r <= x <= xc + r && yc - r <= y <= yc + r ==> InGrid(w, h, x, y)
  {
    if !CircleFits(w, h, xc, yc, r) {
      if xc - r < 0 || AtLeastUnsigned(xc + r, w) {
        if xc - r < 0 { assert !InGrid(w, h, xc - r, yc); } else { assert !InGrid(w, h, xc + r, yc); }
      } else {
        if yc - r < 0 { assert !InGrid(w, h, xc, yc - r); } else { assert !InGrid(w, h, xc, yc + r); }
      }
    }
  }

  /** `LINE_HEIGHT`. */
  const LineHeight := 10

  /**
   * The size `string(col, str)` gives its surface (graphics.c:588-607):
   * 8 per character of the longest line across, 8 plus `LINE_HEIGHT` per
   * newline down; a null string gives 0 by 8. The string is the bytes
   * before its terminating NUL.
   */
  method StringSize(str: Option<seq<byte>>) returns (w: int, h: int)
    requires str.Some? ==> forall k :: 0 <= k < |str.value| ==> str.value[k] != 0
    ensures str.None? ==> w == 0 && h == 8
    ensures str.Some? ==> w == 8 * LegacyGraphics.LongestLine(str.value) && h == 8 + LineHeight * LegacyGraphics.Newlines(str.value)
  {
    w, h := 0, 8;
    var x := 0;
    if str.None? {
      return;
    }
    var s := str.value;
    var i := 0;
    while i < |s| && s[i] != 0
      invariant 0 <= i <= |s| && 0 <= w
      invariant x == 8 * LegacyGraphics.Run(s[..i], 0)
      invariant Max(w, x) == 8 * LegacyGraphics.Widest(s[..i], 0)
      invariant h + LineHeight * LegacyGraphics.Newlines(s[i..]) == 8 + LineHeight * LegacyGraphics.Newlines(s)
    {
      var q := s[..i + 1];
      assert q[..|q| - 1] == s[..i] && q[|q| - 1] == s[i];
      LegacyGraphics.NewlinesSnoc(s, i);
      if s[i] == 10 {
        h := h + LineHeight;
        if x > w {
          w := x;
        }
        x := 0;
      } else {
        x := x + 8;
      }
      i := i + 1;
    }
    assert s[..i] == s && s[i..] == [];
    if x > w {
      w := x;
    }
  }

  /** `string(col, str)`: a fresh zeroed surface of `StringSize`; the text drawn onto it is not modelled. */
  method String(str: Option<seq<byte>>) returns (ret: Surface)
    requires str.Some? ==> forall k :: 0 <= k < |str.value| ==> str.value[k] != 0
    ensures fresh(ret) && ret.Valid()
    ensures str.None? ==> ret.w == 0 && ret.h == 8
    ensures str.Some? ==> ret.w == 8 * LegacyGraphics.LongestLine(str.value) && ret.h == 8 + LineHeight * LegacyGraphics.Newlines(str.value)
  {
    var w, h := StringSize(str);
    if str.Some? {
      LegacyGraphics.LongestLineAttained(str.value);
    }
    ret := new Surface(w, h);
  }
}
