// app.c, the application shell that came with the first framebuffer:
// `create_surface`, `free_surface`, `fill_surface`, `pset`/`pget` and
// `blit_surface` over the same `surface_t` of w·h unsigned pixels. The
// window code of the file is not part of this model.
module EarlyApp {
  import opened Wrappers
  import opened Colour
  import opened Grid
  import opened HalSurface
  import EarlyGraphics

  /**
   * `RGB2INT(r, g, b)` (app.c:11): the `int` arguments converted to
   * `unsigned int`, so each is its 32-bit pattern, shifted and or-ed
   * with no masking.
   */
  function Rgb2Int(r: bv32, g: bv32, b: bv32): bv32 {
    (r << 16) | (g << 8) | b
  }

  /** For bytes it is the packed colour with alpha 0. */
  lemma Rgb2IntIsRgba(r: byte, g: byte, b: byte)
    ensures Rgb2Int(r as bv32, g as bv32, b as bv32) == Rgba(r, g, b, 0)
  {
  }

  /** For bytes the channel macros read back red, green and blue, and alpha is 0. */
  lemma Rgb2IntChannels(r: byte, g: byte, b: byte)
    ensures var c := Rgb2Int(r as bv32, g as bv32, b as bv32);
      R(c) == r && G(c) == g && B(c) == b && A(c) == 0
  {
    Rgb2IntIsRgba(r, g, b);
    RgbaChannels(r, g, b, 0);
  }

  /** Nothing masks the arguments: a green of 256 lands in the red byte. */
  lemma Rgb2IntSpills()
    ensures Rgb2Int(0, 256, 0) == Rgb2Int(1, 0, 0)
  {
  }

  /** The `surface_t*` variable that `free_surface(surface_t** s)` is handed the address of. */
  class Handle {
    var surface: EarlyGraphics.Surface?

    constructor (s: EarlyGraphics.Surface?)
      ensures surface == s
    {
      surface := s;
    }
  }

  /**
   * `create_surface(w, h)` (app.c:15-31): a surface recording `w` and
   * `h` whose w·h pixels are allocated and not cleared. The
   * `malloc` failures that return NULL are not modelled.
   */
  method CreateSurface(w: nat, h: nat) returns (s: EarlyGraphics.Surface)
    ensures fresh(s) && fresh(s.buf) && s.Valid() && s.w == w && s.h == h
  {
    s := new EarlyGraphics.Surface.Allocated(w, h);
  }

  /** `free_surface(s)` (app.c:33-38): `*s` is NULL afterwards. It dereferences `*s` unchecked. */
  method FreeSurface(s: Handle)
    requires s.surface != null
    modifies s
    ensures s.surface == null
  {
    s.surface := null;
  }

  /** `fill_surface(s, r, g, b)` (app.c:40-44): column by column, every pixel set to `RGB2INT(r, g, b)`. */
  method FillSurface(s: EarlyGraphics.Surface, r: bv32, g: bv32, b: bv32)
    requires s.Valid()
    modifies s.buf
    ensures forall i :: 0 <= i < s.buf.Length ==> s.buf[i] == Rgb2Int(r, g, b)
  {
    s.Fill(Rgb2Int(r, g, b));
  }

  /**
   * The bounds test of `pset`/`pget` in app.c as written: only
   * `x > s->w || y > s->h` rejects, the signed coordinates compared with
   * the unsigned fields, so a negative coordinate is rejected as a huge
   * one is.
   */
  predicate AcceptsAsWritten(w: int, h: int, x: int, y: int) {
    !(EarlyGraphics.AboveUnsigned(x, w) || EarlyGraphics.AboveUnsigned(y, h))
  }

  /** It accepts what the test of graphics.c accepts: the surface, the column x == w and the row y == h. */
  lemma AcceptsAsWrittenExactly(w: int, h: int, x: int, y: int)
    requires 0 <= w && 0 <= h
    ensures AcceptsAsWritten(w, h, x, y) == EarlyGraphics.AcceptsAsWritten(w, h, x, y)
    ensures AcceptsAsWritten(w, h, x, y) <==> InGrid(w, h, x, y) || (x == w && 0 <= y <= h) || (y == h && 0 <= x <= w)
  {
    EarlyGraphics.AcceptsAsWrittenExactly(w, h, x, y);
  }

  /** So `pset(s, w, h, …)` writes `buf[h * w + w]`, past the w·h pixels and the spare byte. */
  lemma PsetWritesPastBuffer(w: int, h: int)
    requires 0 < w && 0 < h
    ensures AcceptsAsWritten(w, h, w, h) && CellIndex(w, w, h) == w * h + w
  {
  }

  /**
   * `pset(s, x, y, r, g, b)` (app.c:46-53) with the test it evidently
   * intends: true and the pixel set to `RGB2INT(r, g, b)` on the surface,
   * false and nothing written off it.
   */
  method Pset(s: EarlyGraphics.Surface, x: int, y: int, r: bv32, g: bv32, b: bv32) returns (ok: bool)
    requires s.Valid()
    modifies s.buf
    ensures ok == InGrid(s.w, s.h, x, y)
    ensures s.buf[..] == SetPixel(old(s.buf[..]), s.w, s.h, x, y, Rgb2Int(r, g, b))
  {
    ok := s.Pset(x, y, Rgb2Int(r, g, b));
  }

  /**
   * `pget(s, x, y)` (app.c:55-61) with the intended test: the pixel read
   * as the `int` the function returns, or 0 off the surface.
   */
  function Pget(s: EarlyGraphics.Surface, x: int, y: int): (c: int)
    requires s.Valid()
    reads s, s.buf
    ensures InGrid(s.w, s.h, x, y) ==> 0 <= CellIndex(s.w, x, y) < s.buf.Length && c == Signed(s.buf[CellIndex(s.w, x, y)])
    ensures !InGrid(s.w, s.h, x, y) ==> c == 0
  {
    if InGrid(s.w, s.h, x, y) then Signed(s.Pget(x, y)) else 0
  }

  /**
   * `blit_surface(dst, p, src, r)` (app.c:63-93): false with nothing
   * written when either surface is null or the block does not fit the
   * destination; otherwise true and the block copied column by column.
   */
  method BlitSurface(dst: EarlyGraphics.Surface?, p: Option<EarlyGraphics.Point>, src: EarlyGraphics.Surface?, r: Option<EarlyGraphics.Rect>) returns (ok: bool)
    requires dst != null ==> dst.Valid()
    requires src != null ==> src.Valid() && EarlyGraphics.Readable(src.buf[..], src.w, EarlyGraphics.Block(r, src.w, src.h))
    requires dst != null && src != null ==> dst.buf != src.buf
    modifies if dst != null then {dst.buf} else {}
    ensures dst == null || src == null ==> !ok
    ensures dst != null && src != null ==>
      var o, k := EarlyGraphics.Offset(p), EarlyGraphics.Block(r, src.w, src.h);
      ok == EarlyGraphics.BlitFits(dst, o, k) &&
      dst.buf[..] == if ok then EarlyGraphics.BlitColumns(old(dst.buf[..]), dst.w, dst.h, src.buf[..], src.w, o, k, k.w) else old(dst.buf[..])
  {
    if src == null || dst == null {
      return false;
    }
    ok := EarlyGraphics.Blit(dst, p, src, r);
  }
}
