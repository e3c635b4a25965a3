// The framebuffer of src/graphics.c: a `struct surface_t` holding an `i32`
// buffer of w·h pixels, row-major, changed in place by pset, fill, cls,
// blend, the horizontal and vertical line primitives and the scanline
// flood fill.
module HalSurface {
  import opened Wrappers
  import opened Colour
  import opened Grid

  /** `hal_pget` on a buffer: the pixel, or 0 for a point outside the surface. */
  function PixelAt(cells: seq<bv32>, w: int, h: int, x: int, y: int): (c: bv32)
    requires 0 <= w && 0 <= h && |cells| == w * h
    ensures InGrid(w, h, x, y) ==> 0 <= CellIndex(w, x, y) < |cells| && c == cells[CellIndex(w, x, y)]
    ensures !InGrid(w, h, x, y) ==> c == 0
  {
    if InGrid(w, h, x, y) then CellIndexInRange(w, h, x, y); cells[CellIndex(w, x, y)] else 0
  }

  /** `hal_pset` on a buffer: one pixel replaced, or nothing for a point outside. */
  function SetPixel(cells: seq<bv32>, w: int, h: int, x: int, y: int, c: bv32): (r: seq<bv32>)
    requires 0 <= w && 0 <= h && |cells| == w * h
    ensures |r| == |cells|
  {
    if InGrid(w, h, x, y) then CellIndexInRange(w, h, x, y); cells[CellIndex(w, x, y) := c] else cells
  }

  /** Reading after a write gives the written colour at that point and the old colour everywhere else. */
  lemma GetAfterSet(cells: seq<bv32>, w: int, h: int, x: int, y: int, c: bv32, x2: int, y2: int)
    requires 0 <= w && 0 <= h && |cells| == w * h
    ensures PixelAt(SetPixel(cells, w, h, x, y, c), w, h, x2, y2) ==
      if x2 == x && y2 == y && InGrid(w, h, x, y) then c else PixelAt(cells, w, h, x2, y2)
  {
    if InGrid(w, h, x, y) && InGrid(w, h, x2, y2) && (x2 != x || y2 != y) {
      if CellIndex(w, x, y) == CellIndex(w, x2, y2) {
        CellIndexInjective(w, x, y, x2, y2);
      }
    }
  }

  /** `x / k <= y` whenever `x <= y * k`. */
  lemma DivAtMost(x: int, y: int, k: int)
    requires 0 <= x && 0 < k && x <= y * k
    ensures x / k <= y
  {
    var q := x / k;
    assert q * k <= x;
    if q > y {
      assert false;
    }
  }

  /** The `BLEND(c0, c1, a0, a1)` macro on one channel. */
  function BlendChannel(c0: int, c1: int, a0: int, a1: int): int {
    (c0 * a0 / 255) + (c1 * a1 * (255 - a0) / 65025)
  }

  /** `(x / k) * k <= x` for the Euclidean division. */
  lemma DivMul(x: int, k: int)
    requires 0 <= x && 0 < k
    ensures 0 <= x / k && (x / k) * k <= x
  {
  }

  /** A blended channel lies between 0 and the larger of the two input channels, so it fits its byte. */
  lemma BlendChannelBound(c0: int, c1: int, a0: int, a1: int)
    requires 0 <= c0 <= 255 && 0 <= c1 <= 255 && 0 <= a0 <= 255 && 0 <= a1 <= 255
    ensures 0 <= BlendChannel(c0, c1, a0, a1) <= Max(c0, c1)
  {
    var m := Max(c0, c1);
    var t0 := c0 * a0;
    var u := c1 * a1;
    var t1 := u * (255 - a0);
    MulMono(0, c0, a0);
    MulMono(0, c1, a1);
    MulMono(0, u, 255 - a0);
    MulMono(c0, m, a0);
    MulMono(a1, 255, c1);
    MulMono(c1, m, 255);
    MulMono(u, m * 255, 255 - a0);
    var p := t0 / 255;
    var q := t1 / 65025;
    DivMul(t0, 255);
    DivMul(t1, 65025);
    MulMono(p * 255, t0, 255);
    assert (p + q) * 65025 == p * 255 * 255 + q * 65025;
    assert t0 * 255 <= m * a0 * 255 by { MulMono(t0, m * a0, 255); }
    assert m * a0 * 255 + m * 255 * (255 - a0) == m * 65025;
    DivAtMost((p + q) * 65025, m, 65025);
    assert (p + q) * 65025 / 65025 == p + q;
    assert BlendChannel(c0, c1, a0, a1) == p + q;
  }

  /** The alpha of a blend: `a + (b * (255 - a) >> 8)`. */
  function BlendAlpha(a: int, b: int): int { a + b * (255 - a) / 256 }

  lemma BlendAlphaBound(a: int, b: int)
    requires 0 <= a <= 255 && 0 <= b <= 255
    ensures a <= BlendAlpha(a, b) <= 255
  {
    assert 0 <= b * (255 - a) <= 255 * (255 - a);
    DivAtMost(b * (255 - a), 255 - a, 256) by {
      assert 255 * (255 - a) <= (255 - a) * 256;
    }
  }

  /**
   * The colour `blend` writes over `dst` (src/graphics.c:228-241): the
   * source itself when it is opaque or the destination is fully
   * transparent, otherwise every channel mixed by `BLEND`. The channel
   * macros `HAL_R`, `HAL_G`, `HAL_B`, `HAL_A` and `HAL_RGBA` it uses are
   * not defined in src/graphics.c; they are read here with the layout of
   * include/graphics.h:68-73, alpha in the top byte, then red, green, blue.
   */
  function BlendPixel(dst: bv32, c: bv32): (r: bv32)
    ensures A(c) == 0xFF || A(dst) == 0 ==> r == c
  {
    if A(c) == 0xFF || A(dst) == 0 then c
    else
      var a, b := Val(A(c)), Val(A(dst));
      Rgba(MixChannel(R(c), R(dst), a, b), MixChannel(G(c), G(dst), a, b), MixChannel(B(c), B(dst), a, b), MixAlpha(a, b))
  }

  /** One channel of a blend as a byte: `BLEND` never leaves 0..255. */
  function MixChannel(c0: byte, c1: byte, a: int, b: int): (r: byte)
    requires 0 <= a <= 255 && 0 <= b <= 255
    ensures Val(r) == BlendChannel(Val(c0), Val(c1), a, b) <= Max(Val(c0), Val(c1))
  {
    BlendChannelBound(Val(c0), Val(c1), a, b);
    ToByte(BlendChannel(Val(c0), Val(c1), a, b))
  }

  /** The alpha of a blend as a byte. */
  function MixAlpha(a: int, b: int): (r: byte)
    requires 0 <= a <= 255 && 0 <= b <= 255
    ensures a <= Val(r) == BlendAlpha(a, b)
  {
    BlendAlphaBound(a, b);
    ToByte(BlendAlpha(a, b))
  }

  /**
   * Over a visible destination a translucent colour is mixed: every
   * channel by `BLEND`, the alpha by the `a + (b * (255 - a) >> 8)` rule,
   * which never drops below the colour's own alpha.
   */
  lemma BlendPixelMixes(dst: bv32, c: bv32)
    requires A(c) != 0xFF && A(dst) != 0
    ensures Val(R(BlendPixel(dst, c))) == BlendChannel(Val(R(c)), Val(R(dst)), Val(A(c)), Val(A(dst)))
    ensures Val(G(BlendPixel(dst, c))) == BlendChannel(Val(G(c)), Val(G(dst)), Val(A(c)), Val(A(dst)))
    ensures Val(B(BlendPixel(dst, c))) == BlendChannel(Val(B(c)), Val(B(dst)), Val(A(c)), Val(A(dst)))
    ensures Val(A(BlendPixel(dst, c))) == BlendAlpha(Val(A(c)), Val(A(dst))) >= Val(A(c))
  {
    var a, b := Val(A(c)), Val(A(dst));
    ChannelValues(MixChannel(R(c), R(dst), a, b), MixChannel(G(c), G(dst), a, b), MixChannel(B(c), B(dst), a, b), MixAlpha(a, b));
  }

  /** No blended channel is brighter than the brighter of the two colours mixed. */
  lemma BlendNeverBrightens(dst: bv32, c: bv32)
    ensures Val(R(BlendPixel(dst, c))) <= Max(Val(R(c)), Val(R(dst)))
    ensures Val(G(BlendPixel(dst, c))) <= Max(Val(G(c)), Val(G(dst)))
    ensures Val(B(BlendPixel(dst, c))) <= Max(Val(B(c)), Val(B(dst)))
  {
    if A(c) != 0xFF && A(dst) != 0 {
      var a, b := Val(A(c)), Val(A(dst));
      BlendPixelMixes(dst, c);
      BlendChannelBound(Val(R(c)), Val(R(dst)), a, b);
      BlendChannelBound(Val(G(c)), Val(G(dst)), a, b);
      BlendChannelBound(Val(B(c)), Val(B(dst)), a, b);
    }
  }

  function Max(a: int, b: int): int { if a < b then b else a }

  /** `blend(s, x, y, c)` on a buffer: nothing for a transparent source or a point outside. */
  function BlendAt(cells: seq<bv32>, w: int, h: int, x: int, y: int, c: bv32): (r: seq<bv32>)
    requires 0 <= w && 0 <= h && |cells| == w * h
    ensures |r| == |cells|
    ensures A(c) == 0 || !InGrid(w, h, x, y) ==> r == cells
  {
    if A(c) == 0 || !InGrid(w, h, x, y) then cells
    else CellIndexInRange(w, h, x, y); cells[CellIndex(w, x, y) := BlendPixel(cells[CellIndex(w, x, y)], c)]
  }

  /**
   * The endpoints of `hal_hline`/`hal_vline` (src/graphics.c:615-651)
   * along an axis of length `extent`: swapped into order, rejected when the
   * low end is past the surface, and clamped to [0, extent-1].
   */
  function Span(a: int, b: int, extent: int): (r: Option<(int, int)>)
    ensures r.None? <==> (if a <= b then a else b) >= extent
    ensures r.Some? ==> 0 <= r.value.0 && r.value.1 < extent
  {
    var lo := if b < a then b else a;
    var hi := if b < a then a else b;
    if lo >= extent then None
    else Some((if lo < 0 then 0 else lo, if hi >= extent then extent - 1 else hi))
  }


  /** Whether cell `i` is one `hal_hline(s, y, x0, x1, col)` passes over. */
  predicate OnHline(w: int, h: int, y: int, x0: int, x1: int, i: int) {
    0 <= y < h && Span(x0, x1, w).Some? &&
    y * w + Span(x0, x1, w).value.0 <= i <= y * w + Span(x0, x1, w).value.1
  }

  /** Whether cell `i` is one `hal_vline(s, x, y0, y1, col)` passes over. */
  predicate OnVline(w: int, h: int, x: int, y0: int, y1: int, i: int) {
    0 <= x < w && Span(y0, y1, h).Some? &&
    exists y :: Span(y0, y1, h).value.0 <= y <= Span(y0, y1, h).value.1 && i == CellIndex(w, x, y)
  }

  /** The clamped span is exactly the part of the segment inside the surface. */
  lemma HlineCovers(w: int, h: int, y: int, x0: int, x1: int, x: int)
    requires 0 <= x < w
    ensures OnHline(w, h, y, x0, x1, CellIndex(w, x, y)) <==>
      0 <= y < h && Min(x0, x1) <= x <= Max(x0, x1)
  {
  }

  /** The same for vertical lines. */
  lemma VlineCovers(w: int, h: int, x: int, y0: int, y1: int, y: int)
    requires 0 <= x < w && 0 <= y < h
    ensures OnVline(w, h, x, y0, y1, CellIndex(w, x, y)) <==> Min(y0, y1) <= y <= Max(y0, y1)
  {
    if OnVline(w, h, x, y0, y1, CellIndex(w, x, y)) {
      var y' :| Span(y0, y1, h).value.0 <= y' <= Span(y0, y1, h).value.1 && CellIndex(w, x, y) == CellIndex(w, x, y');
      CellIndexInjective(w, x, y, x, y');
    }
  }

  function Min(a: int, b: int): int { if a < b then a else b }

  /** Blending `c` at (lo, y) … (x-1, y) in turn, as the `hal_hline` loop does. */
  function HlineFold(cells: seq<bv32>, w: int, h: int, y: int, lo: int, x: int, c: bv32): (r: seq<bv32>)
    requires 0 <= w && 0 <= h && |cells| == w * h
    ensures |r| == |cells|
    decreases x - lo
  {
    if x <= lo then cells else BlendAt(HlineFold(cells, w, h, y, lo, x - 1, c), w, h, x - 1, y, c)
  }

  lemma {:induction false} HlineFoldAt(cells: seq<bv32>, w: int, h: int, y: int, lo: int, x: int, c: bv32, i: int)
    requires 0 <= w && 0 <= h && |cells| == w * h
    requires 0 <= y < h && 0 <= lo && x <= w && 0 <= i < |cells|
    ensures HlineFold(cells, w, h, y, lo, x, c)[i] ==
      if A(c) != 0 && y * w + lo <= i < y * w + x then BlendPixel(cells[i], c) else cells[i]
    decreases x - lo
  {
    if x > lo {
      HlineFoldAt(cells, w, h, y, lo, x - 1, c, i);
      CellIndexInRange(w, h, x - 1, y);
    }
  }

  /** Blending `c` at (x, lo) … (x, y-1) in turn, as the `hal_vline` loop does. */
  function VlineFold(cells: seq<bv32>, w: int, h: int, x: int, lo: int, y: int, c: bv32): (r: seq<bv32>)
    requires 0 <= w && 0 <= h && |cells| == w * h
    ensures |r| == |cells|
    decreases y - lo
  {
    if y <= lo then cells else BlendAt(VlineFold(cells, w, h, x, lo, y - 1, c), w, h, x, y - 1, c)
  }

  lemma {:induction false} VlineFoldAt(cells: seq<bv32>, w: int, h: int, x: int, lo: int, y: int, c: bv32, i: int)
    requires 0 <= w && 0 <= h && |cells| == w * h
    requires 0 <= x < w && 0 <= lo && y <= h && 0 <= i < |cells|
    ensures VlineFold(cells, w, h, x, lo, y, c)[i] ==
      if A(c) != 0 && exists y' :: lo <= y' < y && i == CellIndex(w, x, y') then BlendPixel(cells[i], c) else cells[i]
    decreases y - lo
  {
    if y > lo {
      VlineFoldAt(cells, w, h, x, lo, y - 1, c, i);
      CellIndexInRange(w, h, x, y - 1);
      if exists y' :: lo <= y' < y - 1 && CellIndex(w, x, y - 1) == CellIndex(w, x, y') {
        var y' :| lo <= y' < y - 1 && CellIndex(w, x, y - 1) == CellIndex(w, x, y');
        CellIndexInjective(w, x, y - 1, x, y');
      }
    }
  }

  /** The buffer after `hal_hline(s, y, x0, x1, c)`. */
  function HlineCells(cells: seq<bv32>, w: int, h: int, y: int, x0: int, x1: int, c: bv32): (r: seq<bv32>)
    requires 0 <= w && 0 <= h && |cells| == w * h
    ensures |r| == |cells|
  {
    if 0 <= y < h && Span(x0, x1, w).Some? then HlineFold(cells, w, h, y, Span(x0, x1, w).value.0, Span(x0, x1, w).value.1 + 1, c)
    else cells
  }

  /** `hal_hline` blends `c` into exactly the cells of the clamped span and leaves all others alone. */
  lemma HlineCellsAt(cells: seq<bv32>, w: int, h: int, y: int, x0: int, x1: int, c: bv32, i: int)
    requires 0 <= w && 0 <= h && |cells| == w * h && 0 <= i < |cells|
    ensures HlineCells(cells, w, h, y, x0, x1, c)[i] ==
      if A(c) != 0 && OnHline(w, h, y, x0, x1, i) then BlendPixel(cells[i], c) else cells[i]
  {
    if 0 <= y < h && Span(x0, x1, w).Some? {
      HlineFoldAt(cells, w, h, y, Span(x0, x1, w).value.0, Span(x0, x1, w).value.1 + 1, c, i);
    }
  }

  /** The buffer after `hal_vline(s, x, y0, y1, c)`. */
  function VlineCells(cells: seq<bv32>, w: int, h: int, x: int, y0: int, y1: int, c: bv32): (r: seq<bv32>)
    requires 0 <= w && 0 <= h && |cells| == w * h
    ensures |r| == |cells|
  {
    if 0 <= x < w && Span(y0, y1, h).Some? then VlineFold(cells, w, h, x, Span(y0, y1, h).value.0, Span(y0, y1, h).value.1 + 1, c)
    else cells
  }

  /** `hal_vline` blends `c` into exactly the cells of the clamped span and leaves all others alone. */
  lemma VlineCellsAt(cells: seq<bv32>, w: int, h: int, x: int, y0: int, y1: int, c: bv32, i: int)
    requires 0 <= w && 0 <= h && |cells| == w * h && 0 <= i < |cells|
    ensures VlineCells(cells, w, h, x, y0, y1, c)[i] ==
      if A(c) != 0 && OnVline(w, h, x, y0, y1, i) then BlendPixel(cells[i], c) else cells[i]
  {
    if 0 <= x < w && Span(y0, y1, h).Some? {
      var lo, hi := Span(y0, y1, h).value.0, Span(y0, y1, h).value.1;
      VlineFoldAt(cells, w, h, x, lo, hi + 1, c, i);
      assert (exists y' :: lo <= y' < hi + 1 && i == CellIndex(w, x, y')) <==> OnVline(w, h, x, y0, y1, i);
    }
  }

  /** How many cells hold `v`. */
  function CountOf(cells: seq<bv32>, v: bv32): nat
    decreases |cells|
  {
    if cells == [] then 0 else CountOf(cells[..|cells| - 1], v) + (if cells[|cells| - 1] == v then 1 else 0)
  }

  /** `after` differs from `before` only where a cell of colour `from` became `to`. */
  predicate Repainted(before: seq<bv32>, after: seq<bv32>, from: bv32, to: bv32) {
    |before| == |after| && forall i :: 0 <= i < |before| ==> after[i] == before[i] || (before[i] == from && after[i] == to)
  }

  lemma {:induction false} RepaintedCount(before: seq<bv32>, after: seq<bv32>, from: bv32, to: bv32)
    requires Repainted(before, after, from, to)
    ensures CountOf(after, from) <= CountOf(before, from)
    decreases |before|
  {
    if before != [] {
      var n := |before| - 1;
      assert Repainted(before[..n], after[..n], from, to);
      RepaintedCount(before[..n], after[..n], from, to);
    }
  }

  lemma {:induction false} PaintCount(cells: seq<bv32>, i: int, from: bv32, to: bv32)
    requires 0 <= i < |cells| && cells[i] == from && to != from
    ensures CountOf(cells[i := to], from) == CountOf(cells, from) - 1
    decreases |cells|
  {
    var n := |cells| - 1;
    if i < n {
      assert cells[i := to][..n] == cells[..n][i := to];
      PaintCount(cells[..n], i, from, to);
    } else {
      assert cells[i := to][..n] == cells[..n];
    }
  }

  lemma RepaintedTrans(a: seq<bv32>, b: seq<bv32>, c: seq<bv32>, from: bv32, to: bv32)
    requires Repainted(a, b, from, to) && Repainted(b, c, from, to) && from != to
    ensures Repainted(a, c, from, to)
  {
  }

  /** A cell already painted `to` stays `to` through a repaint from `from`. */
  lemma RepaintedKeeps(a: seq<bv32>, b: seq<bv32>, from: bv32, to: bv32, i: int)
    requires Repainted(a, b, from, to) && from != to && 0 <= i < |a| && a[i] == to
    ensures b[i] == to
  {
  }

  /** `hal_surface_t`: a w·h pixel buffer, row-major. */
  class Surface {
    var buf: array?<bv32>
    var w: int
    var h: int

    /** A surface whose buffer was allocated: w·h pixels, index arithmetic inside `i32`. */
    ghost predicate Valid()
      reads this
    {
      buf != null && 0 <= w && 0 <= h && buf.Length == w * h && w * h < 0x8000_0000
    }

    /** `hal_surface(&s, w, h)`: a zeroed buffer of w·h pixels. */
    constructor (width: int, height: int)
      requires 0 <= width && 0 <= height && width * height < 0x8000_0000
      ensures Valid() && w == width && h == height
      ensures fresh(buf) && buf[..] == seq(width * height, _ => 0)
    {
      w, h := width, height;
      buf := new bv32[width * height](_ => 0);
    }

    /** `hal_fill`: every one of the w·h pixels set to `col`. */
    method Fill(col: bv32)
      requires Valid()
      modifies buf
      ensures forall i :: 0 <= i < buf.Length ==> buf[i] == col
    {
      var i := 0;
      while i < w * h
        invariant 0 <= i <= w * h
        invariant forall j :: 0 <= j < i ==> buf[j] == col
      {
        buf[i] := col;
        i := i + 1;
      }
    }

    /** `hal_cls`: the `memset` of w·h pixels to zero. */
    method Cls()
      requires Valid()
      modifies buf
      ensures forall i :: 0 <= i < buf.Length ==> buf[i] == 0
    {
      Fill(0);
    }

    /** `hal_pset`: one pixel replaced when the point lies on the surface. */
    method Pset(x: int, y: int, c: bv32)
      requires Valid()
      modifies buf
      ensures buf[..] == SetPixel(old(buf[..]), w, h, x, y, c)
    {
      if x >= 0 && y >= 0 && x < w && y < h {
        CellIndexInRange(w, h, x, y);
        buf[y * w + x] := c;
      }
    }

    /** `blend`: the point's pixel mixed with `c` (src/graphics.c:228-241). */
    method Blend(x: int, y: int, c: bv32)
      requires Valid()
      modifies buf
      ensures buf[..] == BlendAt(old(buf[..]), w, h, x, y, c)
    {
      var a := A(c);
      if a == 0 || x < 0 || y < 0 || x >= w || y >= h {
        return;
      }
      CellIndexInRange(w, h, x, y);
      var p := buf[y * w + x];
      buf[y * w + x] := BlendPixel(p, c);
    }

    /** `hal_hline(s, y, x0, x1, col)`: the clamped span blended with `col` (see `HlineCellsAt`). */
    method Hline(y: int, x0: int, x1: int, col: bv32)
      requires Valid()
      modifies buf
      ensures buf[..] == HlineCells(old(buf[..]), w, h, y, x0, x1, col)
    {
      var lo, hi := x0, x1;
      if hi < lo {
        lo, hi := hi, lo;
      }
      if y < 0 || y >= h || lo >= w {
        return;
      }
      if lo < 0 { lo := 0; }
      if hi >= w { hi := w - 1; }
      assert Span(x0, x1, w) == Some((lo, hi));
      var x := lo;
      while x <= hi
        invariant lo <= x && (lo <= hi ==> x <= hi + 1) && (hi < lo ==> x == lo)
        invariant buf[..] == HlineFold(old(buf[..]), w, h, y, lo, x, col)
      {
        Blend(x, y, col);
        x := x + 1;
      }
      if hi < lo {
        assert HlineFold(old(buf[..]), w, h, y, lo, x, col) == old(buf[..]);
        assert HlineFold(old(buf[..]), w, h, y, lo, hi + 1, col) == old(buf[..]);
      } else {
        assert x == hi + 1;
      }
    }

    /** `hal_vline(s, x, y0, y1, col)`: the clamped span blended with `col` (see `VlineCellsAt`). */
    method Vline(x: int, y0: int, y1: int, col: bv32)
      requires Valid()
      modifies buf
      ensures buf[..] == VlineCells(old(buf[..]), w, h, x, y0, y1, col)
    {
      var lo, hi := y0, y1;
      if hi < lo {
        lo, hi := hi, lo;
      }
      if x < 0 || x >= w || lo >= h {
        return;
      }
      if lo < 0 { lo := 0; }
      if hi >= h { hi := h - 1; }
      assert Span(y0, y1, h) == Some((lo, hi));
      var y := lo;
      while y <= hi
        invariant lo <= y && (lo <= hi ==> y <= hi + 1) && (hi < lo ==> y == lo)
        invariant buf[..] == VlineFold(old(buf[..]), w, h, x, lo, y, col)
      {
        Blend(x, y, col);
        y := y + 1;
      }
      if hi < lo {
        assert VlineFold(old(buf[..]), w, h, x, lo, y, col) == old(buf[..]);
        assert VlineFold(old(buf[..]), w, h, x, lo, hi + 1, col) == old(buf[..]);
      } else {
        assert y == hi + 1;
      }
    }

    /**
     * The first two loops of `flood_fn` on the row starting at cell `row`:
     * from `x1` rightwards (or leftwards) while the cells hold `oldc`,
     * painting them `newc`.
     */
    method PaintRun(row: int, x1: int, newc: bv32, oldc: bv32, right: bool)
      requires Valid() && 0 <= row && row + w <= buf.Length && -1 <= x1 <= w && newc != oldc
      modifies buf
      ensures Repainted(old(buf[..]), buf[..], oldc, newc)
      ensures CountOf(buf[..], oldc) <= CountOf(old(buf[..]), oldc)
      ensures 0 <= x1 < w && old(buf[row + x1]) == oldc ==>
        buf[row + x1] == newc && CountOf(buf[..], oldc) < CountOf(old(buf[..]), oldc)
    {
      ghost var start := buf[..];
      var x := x1;
      while 0 <= x < w && buf[row + x] == oldc
        invariant -1 <= x <= w && (if right then x1 <= x else x <= x1)
        invariant Repainted(start, buf[..], oldc, newc)
        invariant CountOf(buf[..], oldc) <= CountOf(start, oldc)
        invariant x != x1 ==> 0 <= x1 < w && buf[row + x1] == newc && CountOf(buf[..], oldc) < CountOf(start, oldc)
        invariant x == x1 ==> buf[..] == start
        decreases if right then w - x else x + 1
      {
        ghost var before := buf[..];
        PaintCount(before, row + x, oldc, newc);
        buf[row + x] := newc;
        assert buf[..] == before[row + x := newc];
        x := if right then x + 1 else x - 1;
      }
    }

    /**
     * `flood_fn` (src/graphics.c:165-208): the scanline fill from (x, y)
     * of the region of colour `oldc`. Each call paints its start cell
     * before recursing, so the number of `oldc` cells drops on every call.
     */
    method FloodFn(row: int, x: int, y: int, newc: bv32, oldc: bv32)
      requires Valid() && InGrid(w, h, x, y) && row == y * w && 0 <= row && row + w <= buf.Length
      modifies buf
      ensures Repainted(old(buf[..]), buf[..], oldc, newc)
      ensures newc != oldc && old(buf[row + x]) == oldc ==> buf[row + x] == newc
      decreases CountOf(buf[..], oldc)
    {
      if newc == oldc || buf[row + x] != oldc {
        return;
      }
      ghost var start := buf[..];
      ghost var count := CountOf(start, oldc);
      PaintRun(row, x, newc, oldc, true);
      ghost var s1 := buf[..];
      PaintRun(row, x - 1, newc, oldc, false);
      RepaintedTrans(start, s1, buf[..], oldc, newc);
      RepaintedCount(s1, buf[..], oldc, newc);
      ghost var painted := buf[..];
      assert painted[row + x] == newc;
      ScanRow(row, x, y, newc, oldc, start, count, true, -1);
      ghost var s2 := buf[..];
      ScanRow(row, x, y, newc, oldc, start, count, false, -1);
      ghost var s3 := buf[..];
      ScanRow(row, x, y, newc, oldc, start, count, true, 1);
      ghost var s4 := buf[..];
      ScanRow(row, x, y, newc, oldc, start, count, false, 1);
      RepaintedKeeps(painted, s2, oldc, newc, row + x);
      RepaintedKeeps(s2, s3, oldc, newc, row + x);
      RepaintedKeeps(s3, s4, oldc, newc, row + x);
      RepaintedKeeps(s4, buf[..], oldc, newc, row + x);
    }

    /**
     * One of the four neighbour scans of `flood_fn`: along row `y` (whose
     * first cell is `row`) from x rightwards or from x-1 leftwards while the
     * cells hold `newc`, filling from every cell of row `y + dy` that still
     * holds `oldc`.
     */
    method ScanRow(row: int, x: int, y: int, newc: bv32, oldc: bv32, ghost start: seq<bv32>, ghost count: nat, right: bool, dy: int)
      requires Valid() && InGrid(w, h, x, y) && row == y * w && (dy == -1 || dy == 1)
      requires newc != oldc && count == CountOf(start, oldc)
      requires Repainted(start, buf[..], oldc, newc) && CountOf(buf[..], oldc) < count
      modifies buf
      ensures Repainted(start, buf[..], oldc, newc) && CountOf(buf[..], oldc) < count
      ensures Repainted(old(buf[..]), buf[..], oldc, newc)
      decreases count, 0
    {
      RowBase(w, h, y);
      ghost var entry := buf[..];
      var x1 := if right then x else x - 1;
      var ny := y + dy;
      while 0 <= x1 < w && buf[row + x1] == newc
        invariant (if right then x <= x1 <= w else -1 <= x1 < x)
        invariant Repainted(start, buf[..], oldc, newc) && CountOf(buf[..], oldc) < count
        invariant Repainted(entry, buf[..], oldc, newc)
        decreases if right then w - x1 else x1 + 1
      {
        if 0 <= ny < h {
          RowBase(w, h, ny);
          var nrow := ny * w;
          if buf[nrow + x1] == oldc {
            ghost var before := buf[..];
            FloodFn(nrow, x1, ny, newc, oldc);
            RepaintedTrans(start, before, buf[..], oldc, newc);
            RepaintedTrans(entry, before, buf[..], oldc, newc);
            RepaintedCount(before, buf[..], oldc, newc);
          }
        }
        x1 := if right then x1 + 1 else x1 - 1;
      }
    }

    /** `hal_flood`: nothing outside the surface; otherwise fill from the start cell's colour. */
    method Flood(x: int, y: int, col: bv32)
      requires Valid()
      modifies buf
      ensures !InGrid(w, h, x, y) ==> buf[..] == old(buf[..])
      ensures InGrid(w, h, x, y) ==> (0 <= CellIndex(w, x, y) < buf.Length &&
        Repainted(old(buf[..]), buf[..], old(buf[CellIndex(w, x, y)]), col) && buf[CellIndex(w, x, y)] == col)
    {
      if x < 0 || y < 0 || x >= w || y >= h {
        return;
      }
      RowBase(w, h, y);
      var row := y * w;
      var start := buf[row + x];
      FloodFn(row, x, y, col, start);
    }
  }

  /** `hal_pget` (src/graphics.c:244-246): 0 for a missing surface or buffer and for a point outside. */
  function Pget(s: Surface?, x: int, y: int): (c: bv32)
    reads s
    reads if s != null && s.buf != null then {s.buf} else {}
    requires s != null && s.buf != null ==> s.Valid()
    ensures s == null || s.buf == null ==> c == 0
    ensures s != null && s.buf != null ==> c == PixelAt(s.buf[..], s.w, s.h, x, y)
  {
    if s == null || s.buf == null || x < 0 || y < 0 || x >= s.w || y >= s.h then 0
    else CellIndexInRange(s.w, s.h, x, y); s.buf[y * s.w + x]
  }
}
