// The surface library of graphics/graphics.c: the `LINKEDLIST` helpers,
// `pset` under the three draw modes, `clip_paste`, the nearest-neighbour
// `__resize`, the clamped `hline`/`vline` that draw through `pset`, and the
// text measure `str_size`. Its `struct surface_t` has the same shape as the
// one of src/graphics.c, so `HalSurface.Surface` stands for both; `pget`
// (graphics/graphics.c:252-254) is `HalSurface.Pget`. The static
// `draw_mode` that `graphics_draw_mode` sets is passed as a parameter.
module LegacyGraphics {
  import opened Wrappers
  import opened Colour
  import opened Grid
  import opened HalSurface

  // ---------------------------------------------------------------------
  // LINKEDLIST(NAME, TYPE): lists of data pointers, kept as the sequence of
  // the data the nodes hold, head first.

  /** `NAME_push(head, data)`: a new head node holding `data` in front of the old list. */
  function Push<T>(list: seq<T>, d: T): (r: seq<T>)
    ensures |r| == |list| + 1 && r[0] == d && r[1..] == list
  {
    [d] + list
  }

  /** The list `NAME_pop(head, data)` returns: the first node holding `data` unlinked. */
  function RemoveFirst<T(==)>(list: seq<T>, d: T): (r: seq<T>)
    decreases |list|
  {
    if |list| == 0 then []
    else if list[0] == d then list[1..]
    else [list[0]] + RemoveFirst(list[1..], d)
  }

  /** Unlinking after the first `i` nodes, none of which holds `d`. */
  lemma {:induction false} RemoveFirstSkips<T>(list: seq<T>, d: T, i: int)
    requires 0 <= i <= |list| && forall j :: 0 <= j < i ==> list[j] != d
    ensures RemoveFirst(list, d) == list[..i] + RemoveFirst(list[i..], d)
    decreases i
  {
    if i > 0 {
      RemoveFirstSkips(list[1..], d, i - 1);
      assert list[1..][..i - 1] == list[1..i];
      assert list[1..][i - 1..] == list[i..];
      assert list[..i] == [list[0]] + list[1..i];
    }
  }

  /** `NAME_pop`: the cursor walks to the first node holding `d` and unlinks it. */
  method Pop<T(==)>(list: seq<T>, d: T) returns (r: seq<T>)
    ensures r == RemoveFirst(list, d)
  {
    var i := 0;
    while i < |list| && list[i] != d
      invariant 0 <= i <= |list|
      invariant forall j :: 0 <= j < i ==> list[j] != d
    {
      i := i + 1;
    }
    RemoveFirstSkips(list, d, i);
    if i < |list| {
      assert list[i..] == [d] + list[i + 1..];
      r := list[..i] + list[i + 1..];
    } else {
      assert list[i..] == [];
      r := list;
    }
  }

  /** The list is unchanged when no node holds `d`. */
  lemma RemoveAbsent<T>(list: seq<T>, d: T)
    requires d !in list
    ensures RemoveFirst(list, d) == list
  {
    RemoveFirstSkips(list, d, |list|);
    assert list[..|list|] == list && list[|list|..] == [];
  }

  /** The position of the first node holding `d`. */
  function FirstIndex<T(==)>(list: seq<T>, d: T): (i: int)
    requires d in list
    ensures 0 <= i < |list| && list[i] == d && forall j :: 0 <= j < i ==> list[j] != d
  {
    if list[0] == d then 0 else 1 + FirstIndex(list[1..], d)
  }

  /**
   * When some node holds `d`, exactly the first such node goes and the
   * others keep their order.
   */
  lemma RemovePresent<T>(list: seq<T>, d: T)
    requires d in list
    ensures RemoveFirst(list, d) == list[..FirstIndex(list, d)] + list[FirstIndex(list, d) + 1..]
  {
    var i := FirstIndex(list, d);
    RemoveFirstSkips(list, d, i);
    var rest := list[i..];
    assert rest[0] == d && rest[1..] == list[i + 1..];
    assert RemoveFirst(rest, d) == list[i + 1..];
  }

  /** Popping a present datum removes one node and one occurrence of it, and nothing else. */
  lemma RemovePresentCount<T>(list: seq<T>, d: T)
    requires d in list
    ensures |RemoveFirst(list, d)| == |list| - 1
    ensures multiset(RemoveFirst(list, d)) == multiset(list) - multiset{d}
  {
    RemovePresent(list, d);
    var i := FirstIndex(list, d);
    var before, after := list[..i], list[i + 1..];
    assert list == before + [d] + after;
    assert multiset(list) == multiset(before) + multiset{d} + multiset(after);
  }

  /** Pushing then popping the same data gives the old list back. */
  lemma PopPush<T>(list: seq<T>, d: T)
    ensures RemoveFirst(Push(list, d), d) == list
  {
  }

  // ---------------------------------------------------------------------
  // pset under the draw modes.

  /** `enum draw_mode` as `pset` switches on it. */
  datatype DrawMode = Normal | Mask | Alpha

  /**
   * The colour `pset` leaves at a point that held `dst`: MASK drops a
   * colour that is not fully opaque and otherwise falls through to
   * NORMAL, which writes `c`; ALPHA writes the blend of
   * graphics/graphics.c:239-245, the same formula as `blend` of
   * src/graphics.c.
   */
  function PointWrite(dst: bv32, mode: DrawMode, c: bv32): bv32
  {
    match mode
    case Normal => c
    case Mask => if A(c) < 0xFF then dst else c
    case Alpha => BlendPixel(dst, c)
  }

  /** An opaque colour is written as it is in every mode. */
  lemma OpaqueOverwrites(dst: bv32, mode: DrawMode, c: bv32)
    requires A(c) == 0xFF
    ensures PointWrite(dst, mode, c) == c
  {
  }

  /** MASK writes a colour exactly when it is opaque; a translucent one leaves the point alone. */
  lemma MaskWritesOnlyOpaque(dst: bv32, c: bv32)
    ensures PointWrite(dst, Mask, c) == (if A(c) == 0xFF then c else dst)
  {
  }

  /** ALPHA over a fully transparent point writes the colour itself; there is nothing to mix with. */
  lemma AlphaOverTransparent(dst: bv32, c: bv32)
    requires A(dst) == 0
    ensures PointWrite(dst, Alpha, c) == c
  {
  }

  /**
   * ALPHA with translucent colour over a visible point mixes: the
   * resulting alpha is at least the colour's, and no channel is brighter
   * than the brighter of the two colours.
   */
  lemma AlphaMixes(dst: bv32, c: bv32)
    requires A(c) != 0xFF && A(dst) != 0
    ensures Val(A(PointWrite(dst, Alpha, c))) >= Val(A(c))
    ensures Val(R(PointWrite(dst, Alpha, c))) <= Max(Val(R(c)), Val(R(dst)))
    ensures Val(G(PointWrite(dst, Alpha, c))) <= Max(Val(G(c)), Val(G(dst)))
    ensures Val(B(PointWrite(dst, Alpha, c))) <= Max(Val(B(c)), Val(B(dst)))
  {
    BlendPixelMixes(dst, c);
    BlendNeverBrightens(dst, c);
  }

  /**
   * The rule a point write applies: new colour from the old one, the mode
   * and the colour drawn. The raster functions below take it as a
   * parameter so that their lemmas speak of positions only; the methods
   * that model the C functions pass `PointWrite`.
   */
  type Rule = (bv32, DrawMode, bv32) -> bv32

  /** The buffer after `pset(s, x, y, c)`: the point rewritten by the mode, or nothing off the surface. */
  function PsetCells(cells: seq<bv32>, w: int, h: int, rule: Rule, mode: DrawMode, x: int, y: int, c: bv32): (r: seq<bv32>)
    requires 0 <= w && 0 <= h && |cells| == w * h
    ensures |r| == |cells|
  {
    if InGrid(w, h, x, y) then
      CellIndexInRange(w, h, x, y);
      cells[CellIndex(w, x, y) := rule(cells[CellIndex(w, x, y)], mode, c)]
    else cells
  }

  /** Reading after `pset`: the rewritten colour at that point, the old colour at every other. */
  lemma PgetAfterPset(cells: seq<bv32>, w: int, h: int, rule: Rule, mode: DrawMode, x: int, y: int, c: bv32, x2: int, y2: int)
    requires 0 <= w && 0 <= h && |cells| == w * h
    ensures PixelAt(PsetCells(cells, w, h, rule, mode, x, y, c), w, h, x2, y2) ==
      if x2 == x && y2 == y && InGrid(w, h, x, y) then rule(PixelAt(cells, w, h, x, y), mode, c)
      else PixelAt(cells, w, h, x2, y2)
  {
    if InGrid(w, h, x, y) && InGrid(w, h, x2, y2) && (x2 != x || y2 != y) {
      if CellIndex(w, x, y) == CellIndex(w, x2, y2) {
        CellIndexInjective(w, x, y, x2, y2);
      }
    }
  }

  /** `pset(s, x, y, c)` under draw mode `mode` (graphics/graphics.c:226-250). */
  method Pset(s: Surface, mode: DrawMode, x: int, y: int, c: bv32)
    requires s.Valid()
    modifies s.buf
    ensures s.buf[..] == PsetCells(old(s.buf[..]), s.w, s.h, PointWrite, mode, x, y, c)
  {
    if x < 0 || y < 0 || x >= s.w || y >= s.h {
      return;
    }
    CellIndexInRange(s.w, s.h, x, y);
    var i := y * s.w + x;
    match mode {
      case Mask =>
        if A(c) < 0xFF {
          return;
        }
        s.buf[i] := c;
      case Normal =>
        s.buf[i] := c;
      case Alpha =>
        var p := s.buf[i];
        var a := A(c);
        var b := A(p);
        if a == 0xFF || b == 0 {
          s.buf[i] := c;
        } else {
          s.buf[i] := BlendPixel(p, c);
        }
    }
  }

  // ---------------------------------------------------------------------
  // clip_paste(dst, src, x, y, rx, ry, rw, rh).

  /** The block `rw`×`rh` at (`rx`, `ry`) of the source goes to (`x`, `y`) of the destination. */
  datatype Clip = Clip(x: int, y: int, rx: int, ry: int, rw: int, rh: int)

  /** The inner loop: rows 0 … n-1 of block column `ox` written through `pget`/`pset`. */
  function PasteColumn(cells: seq<bv32>, w: int, h: int, rule: Rule, mode: DrawMode, src: seq<bv32>, sw: int, sh: int,
                       k: Clip, ox: int, n: int): (r: seq<bv32>)
    requires 0 <= w && 0 <= h && |cells| == w * h && 0 <= sw && 0 <= sh && |src| == sw * sh
    ensures |r| == |cells|
    decreases n
  {
    if n <= 0 then cells
    else
      PsetCells(PasteColumn(cells, w, h, rule, mode, src, sw, sh, k, ox, n - 1), w, h, rule, mode,
                ox + k.x, n - 1 + k.y, PixelAt(src, sw, sh, ox + k.rx, n - 1 + k.ry))
  }

  /** The outer loop: block columns 0 … m-1, each of `rh` rows. */
  function PasteColumns(cells: seq<bv32>, w: int, h: int, rule: Rule, mode: DrawMode, src: seq<bv32>, sw: int, sh: int,
                        k: Clip, m: int): (r: seq<bv32>)
    requires 0 <= w && 0 <= h && |cells| == w * h && 0 <= sw && 0 <= sh && |src| == sw * sh
    ensures |r| == |cells|
    decreases m
  {
    if m <= 0 then cells
    else PasteColumn(PasteColumns(cells, w, h, rule, mode, src, sw, sh, k, m - 1), w, h, rule, mode, src, sw, sh, k, m - 1, k.rh)
  }

  /** Whether destination point (px, py) lies in the first `m` block columns and `n` rows of the paste. */
  predicate InBlock(k: Clip, m: int, n: int, px: int, py: int) {
    k.x <= px < k.x + m && k.y <= py < k.y + n
  }

  /** The colour a pasted point ends with: its old colour rewritten by the source colour it maps to. */
  function Pasted(cells: seq<bv32>, w: int, h: int, rule: Rule, mode: DrawMode, src: seq<bv32>, sw: int, sh: int,
                  k: Clip, px: int, py: int): bv32
    requires 0 <= w && 0 <= h && |cells| == w * h && 0 <= sw && 0 <= sh && |src| == sw * sh
  {
    rule(PixelAt(cells, w, h, px, py), mode, PixelAt(src, sw, sh, px - k.x + k.rx, py - k.y + k.ry))
  }

  lemma {:induction false} PasteColumnAt(cells: seq<bv32>, w: int, h: int, rule: Rule, mode: DrawMode, src: seq<bv32>, sw: int, sh: int,
                                         k: Clip, ox: int, n: int, px: int, py: int)
    requires 0 <= w && 0 <= h && |cells| == w * h && 0 <= sw && 0 <= sh && |src| == sw * sh
    requires InGrid(w, h, px, py)
    ensures PixelAt(PasteColumn(cells, w, h, rule, mode, src, sw, sh, k, ox, n), w, h, px, py) ==
      if px == k.x + ox && k.y <= py < k.y + n then Pasted(cells, w, h, rule, mode, src, sw, sh, k, px, py)
      else PixelAt(cells, w, h, px, py)
    decreases n
  {
    if n > 0 {
      var before := PasteColumn(cells, w, h, rule, mode, src, sw, sh, k, ox, n - 1);
      var col := PixelAt(src, sw, sh, ox + k.rx, n - 1 + k.ry);
      assert PasteColumn(cells, w, h, rule, mode, src, sw, sh, k, ox, n) == PsetCells(before, w, h, rule, mode, ox + k.x, n - 1 + k.y, col);
      PasteColumnAt(cells, w, h, rule, mode, src, sw, sh, k, ox, n - 1, px, py);
      PgetAfterPset(before, w, h, rule, mode, ox + k.x, n - 1 + k.y, col, px, py);
      if px == ox + k.x && py == n - 1 + k.y {
        assert PixelAt(before, w, h, px, py) == PixelAt(cells, w, h, px, py);
        assert col == PixelAt(src, sw, sh, px - k.x + k.rx, py - k.y + k.ry);
      }
    }
  }

  /**
   * After `clip_paste`, every destination point inside the block holds its
   * old colour rewritten by the mode with the source colour at the same
   * offset in the source block (0 when that lies off the source); every
   * other point keeps its colour.
   */
  lemma {:induction false} PasteColumnsAt(cells: seq<bv32>, w: int, h: int, rule: Rule, mode: DrawMode, src: seq<bv32>, sw: int, sh: int,
                                          k: Clip, m: int, px: int, py: int)
    requires 0 <= w && 0 <= h && |cells| == w * h && 0 <= sw && 0 <= sh && |src| == sw * sh
    requires InGrid(w, h, px, py)
    ensures PixelAt(PasteColumns(cells, w, h, rule, mode, src, sw, sh, k, m), w, h, px, py) ==
      if InBlock(k, m, k.rh, px, py) then Pasted(cells, w, h, rule, mode, src, sw, sh, k, px, py)
      else PixelAt(cells, w, h, px, py)
    decreases m
  {
    if m > 0 {
      var before := PasteColumns(cells, w, h, rule, mode, src, sw, sh, k, m - 1);
      PasteColumnsAt(cells, w, h, rule, mode, src, sw, sh, k, m - 1, px, py);
      PasteColumnAt(before, w, h, rule, mode, src, sw, sh, k, m - 1, k.rh, px, py);
    }
  }

  /** The inner loop of `clip_paste`: block column `ox`, row by row. */
  method PasteColumnLoop(dst: Surface, src: Surface, mode: DrawMode, k: Clip, ox: int)
    requires dst.Valid() && src.Valid() && dst.buf != src.buf
    modifies dst.buf
    ensures dst.buf[..] == PasteColumn(old(dst.buf[..]), dst.w, dst.h, PointWrite, mode, src.buf[..], src.w, src.h, k, ox, k.rh)
  {
    ghost var cells, pixels := dst.buf[..], src.buf[..];
    var oy := 0;
    while oy < k.rh
      invariant 0 <= oy && (oy <= k.rh || oy == 0) && src.buf[..] == pixels
      invariant dst.buf[..] == PasteColumn(cells, dst.w, dst.h, PointWrite, mode, pixels, src.w, src.h, k, ox, oy)
    {
      var c := Pget(src, ox + k.rx, oy + k.ry);
      Pset(dst, mode, ox + k.x, oy + k.y, c);
      oy := oy + 1;
    }
  }

  /**
   * The inner loop when the source and the destination share one buffer:
   * each `pget` reads the buffer as the writes before it have left it,
   * through the source's width and height.
   */
  function SelfPasteColumn(cells: seq<bv32>, w: int, h: int, rule: Rule, mode: DrawMode, sw: int, sh: int,
                           k: Clip, ox: int, n: int): (r: seq<bv32>)
    requires 0 <= w && 0 <= h && |cells| == w * h && 0 <= sw && 0 <= sh && |cells| == sw * sh
    ensures |r| == |cells|
    decreases n
  {
    if n <= 0 then cells
    else
      var before := SelfPasteColumn(cells, w, h, rule, mode, sw, sh, k, ox, n - 1);
      PsetCells(before, w, h, rule, mode, ox + k.x, n - 1 + k.y, PixelAt(before, sw, sh, ox + k.rx, n - 1 + k.ry))
  }

  /** The outer loop over one shared buffer: block columns 0 … m-1, each of `rh` rows. */
  function SelfPasteColumns(cells: seq<bv32>, w: int, h: int, rule: Rule, mode: DrawMode, sw: int, sh: int,
                            k: Clip, m: int): (r: seq<bv32>)
    requires 0 <= w && 0 <= h && |cells| == w * h && 0 <= sw && 0 <= sh && |cells| == sw * sh
    ensures |r| == |cells|
    decreases m
  {
    if m <= 0 then cells
    else SelfPasteColumn(SelfPasteColumns(cells, w, h, rule, mode, sw, sh, k, m - 1), w, h, rule, mode, sw, sh, k, m - 1, k.rh)
  }

  /** The block read and the block written share no point. */
  predicate BlocksApart(k: Clip) {
    k.x + k.rw <= k.rx || k.rx + k.rw <= k.x || k.y + k.rh <= k.ry || k.ry + k.rh <= k.y
  }

  /** Column `px` holds the same pixels in `a` and `b` on rows lo … hi-1. */
  predicate SameColumn(a: seq<bv32>, b: seq<bv32>, w: int, h: int, px: int, lo: int, hi: int)
    requires 0 <= w && 0 <= h && |a| == w * h && |b| == w * h
  {
    forall py :: lo <= py < hi ==> PixelAt(a, w, h, px, py) == PixelAt(b, w, h, px, py)
  }

  /** One column over a shared buffer reads what a snapshot would, as long as the points it reads still hold it. */
  lemma {:induction false} SelfPasteColumnApart(base: seq<bv32>, cells: seq<bv32>, w: int, h: int, rule: Rule, mode: DrawMode,
                                                k: Clip, ox: int, n: int)
    requires 0 <= w && 0 <= h && |cells| == w * h && |base| == w * h
    requires BlocksApart(k) && 0 <= ox < k.rw && n <= k.rh
    requires SameColumn(base, cells, w, h, ox + k.rx, k.ry, k.ry + n)
    ensures SelfPasteColumn(base, w, h, rule, mode, w, h, k, ox, n) == PasteColumn(base, w, h, rule, mode, cells, w, h, k, ox, n)
    decreases n
  {
    if n > 0 {
      SelfPasteColumnApart(base, cells, w, h, rule, mode, k, ox, n - 1);
      var px, py := ox + k.rx, n - 1 + k.ry;
      if InGrid(w, h, px, py) {
        PasteColumnAt(base, w, h, rule, mode, cells, w, h, k, ox, n - 1, px, py);
        assert !(px == k.x + ox && k.y <= py < k.y + n - 1);
      }
      var before := PasteColumn(base, w, h, rule, mode, cells, w, h, k, ox, n - 1);
      assert PixelAt(before, w, h, px, py) == PixelAt(cells, w, h, px, py);
    }
  }

  /**
   * `clip_paste(s, s, …)` with a block that does not overlap its own
   * destination pastes exactly what a paste from an untouched copy of the
   * surface would: no `pget` sees a pixel an earlier `pset` wrote.
   */
  lemma {:induction false} SelfPasteApart(cells: seq<bv32>, w: int, h: int, rule: Rule, mode: DrawMode, k: Clip, m: int)
    requires 0 <= w && 0 <= h && |cells| == w * h
    requires BlocksApart(k) && m <= k.rw
    ensures SelfPasteColumns(cells, w, h, rule, mode, w, h, k, m) == PasteColumns(cells, w, h, rule, mode, cells, w, h, k, m)
    decreases m
  {
    if m > 0 {
      SelfPasteApart(cells, w, h, rule, mode, k, m - 1);
      var before := PasteColumns(cells, w, h, rule, mode, cells, w, h, k, m - 1);
      var px := m - 1 + k.rx;
      forall py | k.ry <= py < k.ry + k.rh
        ensures PixelAt(before, w, h, px, py) == PixelAt(cells, w, h, px, py)
      {
        if InGrid(w, h, px, py) {
          PasteColumnsAt(cells, w, h, rule, mode, cells, w, h, k, m - 1, px, py);
        }
      }
      SelfPasteColumnApart(before, cells, w, h, rule, mode, k, m - 1, k.rh);
    }
  }

  /** The inner loop of `clip_paste(s, s, …)`: block column `ox` over the one shared buffer. */
  method SelfPasteColumnLoop(dst: Surface, src: Surface, mode: DrawMode, k: Clip, ox: int)
    requires dst.Valid() && src.Valid() && dst.buf == src.buf
    modifies dst.buf
    ensures dst.buf[..] == SelfPasteColumn(old(dst.buf[..]), dst.w, dst.h, PointWrite, mode, src.w, src.h, k, ox, k.rh)
  {
    ghost var cells := dst.buf[..];
    var oy := 0;
    while oy < k.rh
      invariant 0 <= oy && (oy <= k.rh || oy == 0)
      invariant dst.buf[..] == SelfPasteColumn(cells, dst.w, dst.h, PointWrite, mode, src.w, src.h, k, ox, oy)
    {
      var c := Pget(src, ox + k.rx, oy + k.ry);
      Pset(dst, mode, ox + k.x, oy + k.y, c);
      oy := oy + 1;
    }
  }

  /**
   * `clip_paste` (graphics/graphics.c:271-276): column by column,
   * `pset(dst, …, pget(src, …))`. With two buffers the source is read as
   * it was; with one shared buffer each read sees the writes before it.
   */
  method ClipPaste(dst: Surface, src: Surface, mode: DrawMode, k: Clip)
    requires dst.Valid() && src.Valid()
    modifies dst.buf
    ensures dst.buf != src.buf ==>
      dst.buf[..] == PasteColumns(old(dst.buf[..]), dst.w, dst.h, PointWrite, mode, src.buf[..], src.w, src.h, k, k.rw)
    ensures dst.buf == src.buf ==>
      dst.buf[..] == SelfPasteColumns(old(dst.buf[..]), dst.w, dst.h, PointWrite, mode, src.w, src.h, k, k.rw)
  {
    var ox := 0;
    if dst.buf == src.buf {
      while ox < k.rw
        invariant 0 <= ox && (ox <= k.rw || ox == 0)
        invariant dst.buf[..] == SelfPasteColumns(old(dst.buf[..]), dst.w, dst.h, PointWrite, mode, src.w, src.h, k, ox)
      {
        SelfPasteColumnLoop(dst, src, mode, k, ox);
        ox := ox + 1;
      }
    } else {
      while ox < k.rw
        invariant 0 <= ox && (ox <= k.rw || ox == 0)
        invariant dst.buf[..] == PasteColumns(old(dst.buf[..]), dst.w, dst.h, PointWrite, mode, src.buf[..], src.w, src.h, k, ox)
      {
        PasteColumnLoop(dst, src, mode, k, ox);
        ox := ox + 1;
      }
    }
  }

  // ---------------------------------------------------------------------
  // __resize(a, b): nearest-neighbour scaling in 16.16 fixed point.

  /** The step `__resize` computes, `(a->w << 16) / b->w + 1`. */
  function RatioAsWritten(from: int, to: int): int
    requires 0 < to
  {
    from * 65536 / to + 1
  }

  /** The step without the `+ 1`: the largest 16.16 step that keeps every read inside the row. */
  function Ratio(from: int, to: int): (r: int)
    requires 0 < from && 0 < to
    ensures 0 <= r && r * to <= from * 65536
  {
    var q := from * 65536 / to;
    assert q * to <= from * 65536 by { DivMul(from * 65536, to); }
    q
  }

  /** The source coordinate of destination coordinate `j`: `(j * ratio) >> 16`. */
  function SrcCoord(ratio: int, j: int): int {
    j * ratio / 65536
  }

  /**
   * With the `+ 1`, a 1-pixel-wide source scaled to 257 pixels reads
   * column 1 for destination column 256: one past the end of the row
   * (and past the buffer on its last row).
   */
  lemma ResizeReadsPastRow()
    ensures RatioAsWritten(1, 257) == 256
    ensures SrcCoord(RatioAsWritten(1, 257), 256) == 1
  {
  }

  /** Without the `+ 1` every destination coordinate maps inside the source. */
  lemma SrcCoordInRange(from: int, to: int, j: int)
    requires 0 < from && 0 < to && 0 <= j < to
    ensures 0 <= SrcCoord(Ratio(from, to), j) < from
  {
    var r := Ratio(from, to);
    MulMono(j, to - 1, r);
    assert (to - 1) * r == to * r - r;
    assert 0 <= j * r < from * 65536;
    var q := j * r / 65536;
    assert 65536 * q <= j * r;
  }

  /** Scaling to the same size is a copy: destination coordinate `j` reads source coordinate `j`. */
  lemma SrcCoordSameSize(n: int, j: int)
    requires 0 < n && 0 <= j
    ensures SrcCoord(Ratio(n, n), j) == j
  {
    assert n * 65536 / n == 65536 by { ModUnique(n * 65536, n, 65536, 0); }
    ModUnique(j * 65536, 65536, j, 0);
  }

  /** Later destination pixels never read earlier source pixels: the scaling keeps order. */
  lemma SrcCoordMonotone(ratio: int, j: int, j2: int)
    requires 0 <= ratio && j <= j2
    ensures SrcCoord(ratio, j) <= SrcCoord(ratio, j2)
  {
    MulMono(j, j2, ratio);
  }

  /** `x / d == t` and `x % d == e` for `x == d * t + e` and `0 <= e < d`. */
  lemma ModUnique(x: int, d: int, t: int, e: int)
    requires 0 < d && x == d * t + e && 0 <= e < d
    ensures x / d == t && x % d == e
  {
    var q, r := x / d, x % d;
    assert d * q + r == d * t + e;
    assert d * (q - t) == e - r;
    if q - t >= 1 {
      MulMono(1, q - t, d);
      assert false;
    } else if q - t <= -1 {
      MulMono(1, t - q, d);
      assert false;
    }
  }

  /** The source pixel `__resize` copies into destination cell `q`. */
  function ResizeSource(src: seq<bv32>, aw: int, ah: int, bw: int, bh: int, q: int): bv32
    requires 0 < aw && 0 < ah && |src| == aw * ah && 0 < bw && 0 < bh && 0 <= q < bw * bh
  {
    RowOfCell(q, bw, bh);
    SrcCoordInRange(aw, bw, q % bw);
    SrcCoordInRange(ah, bh, q / bw);
    PixelAt(src, aw, ah, SrcCoord(Ratio(aw, bw), q % bw), SrcCoord(Ratio(ah, bh), q / bw))
  }

  /** Destination cell `i * bw + j` takes the source cell at the scaled row and column. */
  lemma ResizeCell(src: seq<bv32>, aw: int, ah: int, bw: int, bh: int, i: int, j: int)
    requires 0 < aw && 0 < ah && |src| == aw * ah && 0 < bw && 0 < bh && 0 <= i < bh && 0 <= j < bw
    ensures 0 <= i * bw + j < bw * bh
    ensures 0 <= SrcCoord(Ratio(ah, bh), i) < ah && 0 <= SrcCoord(Ratio(aw, bw), j) < aw
    ensures 0 <= SrcCoord(Ratio(ah, bh), i) * aw + SrcCoord(Ratio(aw, bw), j) < |src|
    ensures ResizeSource(src, aw, ah, bw, bh, i * bw + j) ==
      src[SrcCoord(Ratio(ah, bh), i) * aw + SrcCoord(Ratio(aw, bw), j)]
  {
    CellIndexInRange(bw, bh, j, i);
    CellIndexInverse(bw, j, i);
    SrcCoordInRange(aw, bw, j);
    SrcCoordInRange(ah, bh, i);
    CellIndexInRange(aw, ah, SrcCoord(Ratio(aw, bw), j), SrcCoord(Ratio(ah, bh), i));
  }

  /** Destination pixel (px, py) is the source pixel at the scaled coordinates, which lie on the source. */
  predicate ResizedAt(dst: seq<bv32>, bw: int, bh: int, src: seq<bv32>, aw: int, ah: int, px: int, py: int)
    requires 0 < aw && 0 < ah && |src| == aw * ah && 0 < bw && 0 < bh && |dst| == bw * bh
  {
    InGrid(aw, ah, SrcCoord(Ratio(aw, bw), px), SrcCoord(Ratio(ah, bh), py)) &&
    PixelAt(dst, bw, bh, px, py) == PixelAt(src, aw, ah, SrcCoord(Ratio(aw, bw), px), SrcCoord(Ratio(ah, bh), py))
  }

  /** A buffer holding `ResizeSource` in every cell is the source scaled. */
  lemma ResizedEverywhere(dst: seq<bv32>, bw: int, bh: int, src: seq<bv32>, aw: int, ah: int)
    requires 0 < aw && 0 < ah && |src| == aw * ah && 0 < bw && 0 < bh && |dst| == bw * bh
    requires forall q :: 0 <= q < bw * bh ==> dst[q] == ResizeSource(src, aw, ah, bw, bh, q)
    ensures forall px, py :: InGrid(bw, bh, px, py) ==> ResizedAt(dst, bw, bh, src, aw, ah, px, py)
  {
    forall px, py | InGrid(bw, bh, px, py)
      ensures ResizedAt(dst, bw, bh, src, aw, ah, px, py)
    {
      ResizeCell(src, aw, ah, bw, bh, py, px);
      CellIndexInRange(aw, ah, SrcCoord(Ratio(aw, bw), px), SrcCoord(Ratio(ah, bh), py));
    }
  }

  /** One destination row of `__resize`: cells n … n + b.w - 1, the accumulator `rat` stepping by `xr`. */
  method ResizeRow(a: Surface, b: Surface, i: int, n: int, xr: int, yr: int)
    requires a.Valid() && b.Valid() && a.buf != b.buf
    requires 0 < a.w && 0 < a.h && 0 < b.w && 0 < b.h && 0 <= i < b.h
    requires xr == Ratio(a.w, b.w) && yr == Ratio(a.h, b.h)
    requires n == i * b.w && n + b.w <= b.w * b.h
    requires forall q :: 0 <= q < n ==> b.buf[q] == ResizeSource(a.buf[..], a.w, a.h, b.w, b.h, q)
    modifies b.buf
    ensures forall q :: 0 <= q < n + b.w ==> b.buf[q] == ResizeSource(a.buf[..], a.w, a.h, b.w, b.h, q)
  {
    ghost var pixels := a.buf[..];
    var y2 := (i * yr) / 65536;
    var rat := 0;
    var j := 0;
    var m := n;
    while j < b.w
      invariant 0 <= j <= b.w && m == n + j && rat == j * xr && a.buf[..] == pixels
      invariant forall q :: 0 <= q < m ==> b.buf[q] == ResizeSource(pixels, a.w, a.h, b.w, b.h, q)
    {
      var x2 := rat / 65536;
      ResizeCell(pixels, a.w, a.h, b.w, b.h, i, j);
      b.buf[m] := a.buf[y2 * a.w + x2];
      MulStep(j, xr);
      rat := rat + xr;
      j := j + 1;
      m := m + 1;
    }
  }

  /**
   * `__resize` (graphics/graphics.c:306-328) with the step of `Ratio`: row
   * by row, the fixed-point accumulator `rat` walks the source row.
   */
  method Resize(a: Surface, b: Surface)
    requires a.Valid() && b.Valid() && a.buf != b.buf
    requires 0 < a.w < 32768 && 0 < a.h < 32768 && 0 < b.w && 0 < b.h
    modifies b.buf
    ensures forall px, py :: InGrid(b.w, b.h, px, py) ==> ResizedAt(b.buf[..], b.w, b.h, a.buf[..], a.w, a.h, px, py)
  {
    var xr := Ratio(a.w, b.w);
    var yr := Ratio(a.h, b.h);
    var n := 0;
    var i := 0;
    while i < b.h
      invariant 0 <= i <= b.h && n == i * b.w && n <= b.w * b.h
      invariant forall q :: 0 <= q < n ==> b.buf[q] == ResizeSource(a.buf[..], a.w, a.h, b.w, b.h, q)
    {
      MulStep(i, b.w);
      MulMono(i + 1, b.h, b.w);
      ResizeRow(a, b, i, n, xr, yr);
      n := n + b.w;
      i := i + 1;
    }
    ResizedEverywhere(b.buf[..], b.w, b.h, a.buf[..], a.w, a.h);
  }

  /** `resize(a, nw, nh, b)`: a fresh `nw`×`nh` surface holding `a` scaled. */
  method ResizeTo(a: Surface, nw: int, nh: int) returns (b: Surface)
    requires a.Valid() && 0 < a.w < 32768 && 0 < a.h < 32768
    requires 0 < nw && 0 < nh && nw * nh < 0x8000_0000
    ensures fresh(b) && fresh(b.buf) && b.Valid() && b.w == nw && b.h == nh
    ensures forall px, py :: InGrid(nw, nh, px, py) ==> ResizedAt(b.buf[..], nw, nh, a.buf[..], a.w, a.h, px, py)
  {
    b := new Surface(nw, nh);
    Resize(a, b);
  }

  // ---------------------------------------------------------------------
  // hline / vline through pset (graphics/graphics.c:364-400).

  /** `pset` at (lo, y) … (x-1, y) in turn. */
  function HRun(cells: seq<bv32>, w: int, h: int, rule: Rule, mode: DrawMode, y: int, lo: int, x: int, c: bv32): (r: seq<bv32>)
    requires 0 <= w && 0 <= h && |cells| == w * h
    ensures |r| == |cells|
    decreases x - lo
  {
    if x <= lo then cells else PsetCells(HRun(cells, w, h, rule, mode, y, lo, x - 1, c), w, h, rule, mode, x - 1, y, c)
  }

  /** `pset` at (x, lo) … (x, y-1) in turn. */
  function VRun(cells: seq<bv32>, w: int, h: int, rule: Rule, mode: DrawMode, x: int, lo: int, y: int, c: bv32): (r: seq<bv32>)
    requires 0 <= w && 0 <= h && |cells| == w * h
    ensures |r| == |cells|
    decreases y - lo
  {
    if y <= lo then cells else PsetCells(VRun(cells, w, h, rule, mode, x, lo, y - 1, c), w, h, rule, mode, x, y - 1, c)
  }

  lemma {:induction false} HRunAt(cells: seq<bv32>, w: int, h: int, rule: Rule, mode: DrawMode, y: int, lo: int, x: int, c: bv32, px: int, py: int)
    requires 0 <= w && 0 <= h && |cells| == w * h && InGrid(w, h, px, py)
    ensures PixelAt(HRun(cells, w, h, rule, mode, y, lo, x, c), w, h, px, py) ==
      if py == y && lo <= px < x then rule(PixelAt(cells, w, h, px, py), mode, c) else PixelAt(cells, w, h, px, py)
    decreases x - lo
  {
    if x > lo {
      HRunAt(cells, w, h, rule, mode, y, lo, x - 1, c, px, py);
      PgetAfterPset(HRun(cells, w, h, rule, mode, y, lo, x - 1, c), w, h, rule, mode, x - 1, y, c, px, py);
    }
  }

  lemma {:induction false} VRunAt(cells: seq<bv32>, w: int, h: int, rule: Rule, mode: DrawMode, x: int, lo: int, y: int, c: bv32, px: int, py: int)
    requires 0 <= w && 0 <= h && |cells| == w * h && InGrid(w, h, px, py)
    ensures PixelAt(VRun(cells, w, h, rule, mode, x, lo, y, c), w, h, px, py) ==
      if px == x && lo <= py < y then rule(PixelAt(cells, w, h, px, py), mode, c) else PixelAt(cells, w, h, px, py)
    decreases y - lo
  {
    if y > lo {
      VRunAt(cells, w, h, rule, mode, x, lo, y - 1, c, px, py);
      PgetAfterPset(VRun(cells, w, h, rule, mode, x, lo, y - 1, c), w, h, rule, mode, x, y - 1, c, px, py);
    }
  }

  /** The buffer after `hline(s, y, x0, x1, col)`. */
  function HlineCells(cells: seq<bv32>, w: int, h: int, rule: Rule, mode: DrawMode, y: int, x0: int, x1: int, c: bv32): (r: seq<bv32>)
    requires 0 <= w && 0 <= h && |cells| == w * h
    ensures |r| == |cells|
  {
    if 0 <= y < h && Span(x0, x1, w).Some? then HRun(cells, w, h, rule, mode, y, Span(x0, x1, w).value.0, Span(x0, x1, w).value.1 + 1, c)
    else cells
  }

  /** The buffer after `vline(s, x, y0, y1, col)`. */
  function VlineCells(cells: seq<bv32>, w: int, h: int, rule: Rule, mode: DrawMode, x: int, y0: int, y1: int, c: bv32): (r: seq<bv32>)
    requires 0 <= w && 0 <= h && |cells| == w * h
    ensures |r| == |cells|
  {
    if 0 <= x < w && Span(y0, y1, h).Some? then VRun(cells, w, h, rule, mode, x, Span(y0, y1, h).value.0, Span(y0, y1, h).value.1 + 1, c)
    else cells
  }

  /**
   * `hline` rewrites exactly the points of the segment that lie on the
   * surface, whichever way round the endpoints are given, and no other.
   */
  lemma HlineAt(cells: seq<bv32>, w: int, h: int, rule: Rule, mode: DrawMode, y: int, x0: int, x1: int, c: bv32, px: int, py: int)
    requires 0 <= w && 0 <= h && |cells| == w * h && InGrid(w, h, px, py)
    ensures PixelAt(HlineCells(cells, w, h, rule, mode, y, x0, x1, c), w, h, px, py) ==
      if py == y && Min(x0, x1) <= px <= Max(x0, x1) then rule(PixelAt(cells, w, h, px, py), mode, c)
      else PixelAt(cells, w, h, px, py)
  {
    if 0 <= y < h && Span(x0, x1, w).Some? {
      HRunAt(cells, w, h, rule, mode, y, Span(x0, x1, w).value.0, Span(x0, x1, w).value.1 + 1, c, px, py);
    }
  }

  /** The same for `vline`. */
  lemma VlineAt(cells: seq<bv32>, w: int, h: int, rule: Rule, mode: DrawMode, x: int, y0: int, y1: int, c: bv32, px: int, py: int)
    requires 0 <= w && 0 <= h && |cells| == w * h && InGrid(w, h, px, py)
    ensures PixelAt(VlineCells(cells, w, h, rule, mode, x, y0, y1, c), w, h, px, py) ==
      if px == x && Min(y0, y1) <= py <= Max(y0, y1) then rule(PixelAt(cells, w, h, px, py), mode, c)
      else PixelAt(cells, w, h, px, py)
  {
    if 0 <= x < w && Span(y0, y1, h).Some? {
      VRunAt(cells, w, h, rule, mode, x, Span(y0, y1, h).value.0, Span(y0, y1, h).value.1 + 1, c, px, py);
    }
  }

  /** `hline(s, y, x0, x1, col)`: endpoints swapped into order, the row checked, the span clamped. */
  method Hline(s: Surface, mode: DrawMode, y: int, x0: int, x1: int, col: bv32)
    requires s.Valid()
    modifies s.buf
    ensures s.buf[..] == HlineCells(old(s.buf[..]), s.w, s.h, PointWrite, mode, y, x0, x1, col)
  {
    var lo, hi := x0, x1;
    if hi < lo {
      lo, hi := hi, lo;
    }
    if y < 0 || y >= s.h || lo >= s.w {
      return;
    }
    if lo < 0 { lo := 0; }
    if hi >= s.w { hi := s.w - 1; }
    assert Span(x0, x1, s.w) == Some((lo, hi));
    ghost var cells, w, h := s.buf[..], s.w, s.h;
    var x := lo;
    while x <= hi
      invariant lo <= x && (lo <= hi ==> x <= hi + 1) && (hi < lo ==> x == lo)
      invariant s.buf[..] == HRun(cells, w, h, PointWrite, mode, y, lo, x, col)
    {
      Pset(s, mode, x, y, col);
      x := x + 1;
    }
    if hi < lo {
      assert HRun(cells, w, h, PointWrite, mode, y, lo, hi + 1, col) == cells;
    }
    assert HlineCells(cells, w, h, PointWrite, mode, y, x0, x1, col) == HRun(cells, w, h, PointWrite, mode, y, lo, hi + 1, col);
  }

  /** `vline(s, x, y0, y1, col)`: endpoints swapped into order, the column checked, the span clamped. */
  method Vline(s: Surface, mode: DrawMode, x: int, y0: int, y1: int, col: bv32)
    requires s.Valid()
    modifies s.buf
    ensures s.buf[..] == VlineCells(old(s.buf[..]), s.w, s.h, PointWrite, mode, x, y0, y1, col)
  {
    var lo, hi := y0, y1;
    if hi < lo {
      lo, hi := hi, lo;
    }
    if x < 0 || x >= s.w || lo >= s.h {
      return;
    }
    if lo < 0 { lo := 0; }
    if hi >= s.h { hi := s.h - 1; }
    assert Span(y0, y1, s.h) == Some((lo, hi));
    ghost var cells, w, h := s.buf[..], s.w, s.h;
    var y := lo;
    while y <= hi
      invariant lo <= y && (lo <= hi ==> y <= hi + 1) && (hi < lo ==> y == lo)
      invariant s.buf[..] == VRun(cells, w, h, PointWrite, mode, x, lo, y, col)
    {
      Pset(s, mode, x, y, col);
      y := y + 1;
    }
    if hi < lo {
      assert VRun(cells, w, h, PointWrite, mode, x, lo, hi + 1, col) == cells;
    }
    assert VlineCells(cells, w, h, PointWrite, mode, x, y0, y1, col) == VRun(cells, w, h, PointWrite, mode, x, lo, hi + 1, col);
  }

  // ---------------------------------------------------------------------
  // str_size(str, &w, &h) (graphics/graphics.c:1291-1320).

  /**
   * The walk of `str_size` from byte `i` with current line width `n`,
   * widest finished line `m` and line count `l`: it stops at the NUL (or
   * the end of the bytes), steps over a UTF-8 sequence as one character,
   * and gives up on a byte that starts no sequence (`None`: `*w` and `*h`
   * are left as they were). At a newline the current line closes and the
   * next one starts at width `nl`: 1 as written, because the newline case
   * falls through into the `n++` that every character gets.
   */
  function SizeWalk(s: seq<byte>, i: int, n: int, m: int, l: int, nl: int): (r: Option<(int, int)>)
    requires 0 <= i
    decreases |s| - i
  {
    if i >= |s| || s[i] == 0 then Some((Max(n, m), l))
    else if s[i] < 128 then
      if s[i] == 10 then SizeWalk(s, i + 1, nl, Max(n, m), l + 1, nl)
      else SizeWalk(s, i + 1, n + 1, m, l, nl)
    else if s[i] & 0xE0 == 0xC0 then SizeWalk(s, i + 2, n + 1, m, l, nl)
    else if s[i] & 0xF0 == 0xE0 then SizeWalk(s, i + 3, n + 1, m, l, nl)
    else if s[i] & 0xF8 == 0xF0 then SizeWalk(s, i + 4, n + 1, m, l, nl)
    else None
  }

  /** `str_size` as written: width and height, or `None` where it returns early. */
  method StrSize(s: seq<byte>) returns (r: Option<(int, int)>)
    ensures r == SizeWalk(s, 0, 0, 0, 1, 1)
  {
    var i, n, m, l := 0, 0, 0, 1;
    while i < |s| && s[i] != 0
      invariant 0 <= i
      invariant SizeWalk(s, i, n, m, l, 1) == SizeWalk(s, 0, 0, 0, 1, 1)
      decreases |s| - i
    {
      var c := s[i];
      if c < 128 {
        if c == 10 {
          if n > m {
            m := n;
          }
          n := 0;
          l := l + 1;
        }
        i := i + 1;
      } else if c & 0xE0 == 0xC0 {
        i := i + 2;
      } else if c & 0xF0 == 0xE0 {
        i := i + 3;
      } else if c & 0xF8 == 0xF0 {
        i := i + 4;
      } else {
        return None;
      }
      n := n + 1;
    }
    r := Some((Max(n, m), l));
  }

  /** Text made of ASCII characters only, with no NUL before its end. */
  predicate AsciiText(s: seq<byte>) {
    forall k :: 0 <= k < |s| ==> 0 < s[k] < 128
  }

  /** The number of newlines in `s`. */
  function Newlines(s: seq<byte>): (c: nat)
    ensures c <= |s|
  {
    if |s| == 0 then 0 else (if s[0] == 10 then 1 else 0) + Newlines(s[1..])
  }

  /** The width counted for the line `s` ends in: its characters, plus `nl` for the newline before it. */
  function Run(s: seq<byte>, nl: int): (r: int)
    ensures 0 <= nl ==> 0 <= r
  {
    if |s| == 0 then 0 else if s[|s| - 1] == 10 then nl else Run(s[..|s| - 1], nl) + 1
  }

  /** The largest `Run` over the prefixes of `s`: the widest line. */
  function Widest(s: seq<byte>, nl: int): int
  {
    if |s| == 0 then 0 else Max(Widest(s[..|s| - 1], nl), Run(s, nl))
  }

  /** The length of the longest line of `s`, newlines not counted. */
  function LongestLine(s: seq<byte>): int { Widest(s, 0) }

  /** `Newlines` over a prefix one byte longer. */
  lemma {:induction false} NewlinesSnoc(s: seq<byte>, i: int)
    requires 0 <= i < |s|
    ensures Newlines(s[i..]) == (if s[i] == 10 then 1 else 0) + Newlines(s[i + 1..])
  {
    assert s[i..][1..] == s[i + 1..];
  }

  lemma {:induction false} SizeWalkAscii(s: seq<byte>, i: int, n: int, m: int, l: int, nl: int)
    requires AsciiText(s) && 0 <= i <= |s| && 0 <= nl
    requires n == Run(s[..i], nl) && Max(n, m) == Widest(s[..i], nl)
    ensures SizeWalk(s, i, n, m, l, nl) == Some((Widest(s, nl), l + Newlines(s[i..])))
    decreases |s| - i
  {
    if i == |s| {
      assert s[..i] == s;
    } else {
      var p := s[..i + 1];
      assert p[..|p| - 1] == s[..i] && p[|p| - 1] == s[i];
      NewlinesSnoc(s, i);
      if s[i] == 10 {
        SizeWalkAscii(s, i + 1, nl, Max(n, m), l + 1, nl);
      } else {
        SizeWalkAscii(s, i + 1, n + 1, m, l, nl);
      }
    }
  }

  /**
   * On ASCII text `str_size` gives height 1 + the number of newlines and
   * width `Widest(s, 1)`: every line after the first is one wider than it
   * is, because its newline is counted with it.
   */
  lemma StrSizeAscii(s: seq<byte>, nl: int)
    requires AsciiText(s) && 0 <= nl
    ensures SizeWalk(s, 0, 0, 0, 1, nl) == Some((Widest(s, nl), 1 + Newlines(s)))
  {
    assert s[..0] == [] && s[0..] == s;
    SizeWalkAscii(s, 0, 0, 0, 1, nl);
  }

  /** A line break counted as a character makes "ab\ncd" three wide, though no line has more than two characters. */
  lemma StrSizeCountsNewline()
    ensures SizeWalk([97, 98, 10, 99, 100], 0, 0, 0, 1, 1) == Some((3, 2))
    ensures LongestLine([97, 98, 10, 99, 100]) == 2
  {
    var s: seq<byte> := [97, 98, 10, 99, 100];
    assert SizeWalk(s, 0, 0, 0, 1, 0) == Some((2, 2));
    StrSizeAscii(s, 0);
  }

  /** A multi-byte UTF-8 character counts once, and a stray continuation byte stops the measure. */
  lemma StrSizeCharacters()
    ensures SizeWalk([104, 0xC3, 0xA9], 0, 0, 0, 1, 1) == Some((2, 1))
    ensures SizeWalk([0xE2, 0x82, 0xAC], 0, 0, 0, 1, 1) == Some((1, 1))
    ensures SizeWalk([0xF0, 0x9F, 0x98, 0x80, 10, 0xC3, 0xA9], 0, 0, 0, 1, 1) == Some((2, 2))
    ensures SizeWalk([97, 0x80], 0, 0, 0, 1, 1) == None
  {
  }

  /** The measure without the fall-through: a newline starts the next line at width 0. */
  function StrSizeIntended(s: seq<byte>): (r: Option<(int, int)>)
    ensures AsciiText(s) ==> r == Some((LongestLine(s), 1 + Newlines(s)))
  {
    if AsciiText(s) then StrSizeAscii(s, 0); SizeWalk(s, 0, 0, 0, 1, 0)
    else SizeWalk(s, 0, 0, 0, 1, 0)
  }

  /** The segment `s[i..j]` holds no newline. */
  predicate OneLine(s: seq<byte>, i: int, j: int)
    requires 0 <= i <= j <= |s|
  {
    forall k :: i <= k < j ==> s[k] != 10
  }

  /** A line of `s` that runs up to the end of `s` is no longer than `Run(s, 0)`. */
  lemma {:induction false} RunCoversLine(s: seq<byte>, i: int)
    requires 0 <= i <= |s| && OneLine(s, i, |s|)
    ensures |s| - i <= Run(s, 0)
    decreases |s|
  {
    if i < |s| {
      var p := s[..|s| - 1];
      assert s[|s| - 1] != 10;
      forall k | i <= k < |p| ensures p[k] != 10 { assert p[k] == s[k]; }
      RunCoversLine(p, i);
    }
  }

  /** The line `s` ends in starts `Run(s, 0)` bytes before its end. */
  lemma {:induction false} RunIsLine(s: seq<byte>)
    ensures 0 <= Run(s, 0) <= |s| && OneLine(s, |s| - Run(s, 0), |s|)
    decreases |s|
  {
    if |s| > 0 && s[|s| - 1] != 10 {
      var p := s[..|s| - 1];
      RunIsLine(p);
      forall k | |s| - Run(s, 0) <= k < |s| ensures s[k] != 10 {
        if k < |p| { assert s[k] == p[k]; }
      }
    }
  }

  /** Every line of `s` is at most `LongestLine(s)` long. */
  lemma {:induction false} LongestLineBounds(s: seq<byte>, i: int, j: int)
    requires 0 <= i <= j <= |s| && OneLine(s, i, j)
    ensures j - i <= LongestLine(s)
    decreases |s|
  {
    if j < |s| {
      var p := s[..|s| - 1];
      forall k | i <= k < j ensures p[k] != 10 { assert p[k] == s[k]; }
      LongestLineBounds(p, i, j);
    } else {
      RunCoversLine(s, i);
    }
  }

  /** Some line of `s` is exactly `LongestLine(s)` long. */
  lemma {:induction false} LongestLineAttained(s: seq<byte>)
    ensures exists i, j :: 0 <= i <= j <= |s| && OneLine(s, i, j) && j - i == LongestLine(s)
    decreases |s|
  {
    if |s| == 0 {
      assert OneLine(s, 0, 0);
    } else {
      var p := s[..|s| - 1];
      RunIsLine(s);
      if Widest(p, 0) < Run(s, 0) {
        assert OneLine(s, |s| - Run(s, 0), |s|);
      } else {
        LongestLineAttained(p);
        var i, j :| 0 <= i <= j <= |p| && OneLine(p, i, j) && j - i == LongestLine(p);
        forall k | i <= k < j ensures s[k] != 10 { assert s[k] == p[k]; }
        assert OneLine(s, i, j);
      }
    }
  }
}
