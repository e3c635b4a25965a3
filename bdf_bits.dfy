// The glyph bitmaps of extra/graphics_bdf.c: the bits of a byte, most
// significant first, the rows a BITMAP section stores and the shift right
// by the glyph's x offset at ENDCHAR.
module BdfBits {
  import opened BdfTokens

  // Bits of a bitmap byte, most significant first.

  /** `128 >> j`: the mask `bdf_character` tests for bit `j` of a byte, halving it from 128. */
  function Mask(j: int): bv8
    requires 0 <= j < 8
  {
    if j == 0 then 0x80 else if j == 1 then 0x40 else if j == 2 then 0x20 else if j == 3 then 0x10
    else if j == 4 then 0x08 else if j == 5 then 0x04 else if j == 6 then 0x02 else 0x01
  }

  /** Halving the mask moves to the next bit; halving the last gives 0, which ends the loop. */
  lemma HalveMask(j: int)
    requires 0 <= j < 8
    ensures j < 7 ==> Mask(j) / 2 == Mask(j + 1)
    ensures j == 7 ==> Mask(j) / 2 == 0
    ensures Mask(j) != 0
  {
  }

  /** Bit `j` of `b`, counted from the left: the pixel `x + j` of a bitmap byte. */
  predicate Bit(b: bv8, j: int)
    requires 0 <= j < 8
  {
    b & Mask(j) != 0
  }

  /** A small `int` as a shift amount. */
  function Small(j: int): (b: bv8)
    requires 0 <= j < 8
    ensures b <= 7
  {
    if j == 0 then 0 else if j == 1 then 1 else if j == 2 then 2 else if j == 3 then 3
    else if j == 4 then 4 else if j == 5 then 5 else if j == 6 then 6 else 7
  }

  predicate BitAt(b: bv8, j: bv8)
    requires j <= 7
  {
    (b >> (7 - j)) & 1 == 1
  }

  lemma MaskBit(b: bv8, j: int)
    requires 0 <= j < 8
    ensures Bit(b, j) == BitAt(b, Small(j))
  {
  }

  lemma SmallSub(j: int, s: int)
    requires 0 <= j < 8 && 1 <= s <= 7
    ensures j >= s ==> Small(j) - Small(s) == Small(j - s)
    ensures j < s ==> 8 + Small(j) - Small(s) == Small(8 + j - s)
    ensures j >= s <==> Small(j) >= Small(s)
  {
  }

  /**
   * One step of the ENDCHAR loop (extra/graphics_bdf.c:151-153): the byte
   * shifted right by `s`, its top filled with the low bits of the byte
   * before it in the row, `c >> bb.x | o` with `o = c << (8 - bb.x)`
   * stored back in an `unsigned char`.
   */
  function ShiftByte(cur: bv8, prev: bv8, s: bv8): bv8
    requires 1 <= s <= 7
  {
    Combine(cur, Carry(prev, s), s)
  }

  /** `c >> bb.x | o`. */
  function Combine(c: bv8, o: bv8, s: bv8): bv8
    requires 1 <= s <= 7
  {
    (c >> s) | o
  }

  /** `o = c << (8 - bb.x)`: the bits of `c` that the next byte takes in. */
  function Carry(prev: bv8, s: bv8): bv8
    requires 1 <= s <= 7
  {
    prev << (8 - s)
  }

  /** `c >> bb.x | o` is the shifted byte when `o` carries the byte before it. */
  lemma CombineCarry(c: bv8, o: bv8, prev: bv8, s: bv8)
    requires 1 <= s <= 7 && o == Carry(prev, s)
    ensures Combine(c, o, s) == ShiftByte(c, prev, s)
  {
  }

  lemma CarryZero(s: bv8)
    requires 1 <= s <= 7
    ensures Carry(0, s) == 0
  {
  }

  lemma ShiftByteBitAt(cur: bv8, prev: bv8, s: bv8, j: bv8)
    requires 1 <= s <= 7 && j <= 7
    ensures BitAt(ShiftByte(cur, prev, s), j) == if j >= s then BitAt(cur, j - s) else BitAt(prev, 8 + j - s)
  {
  }

  /** Bit `j` of a shifted byte is bit `j - s` of the byte, or bit `8 + j - s` of the one before it. */
  lemma ShiftByteBit(cur: bv8, prev: bv8, s: int, j: int)
    requires 1 <= s <= 7 && 0 <= j < 8
    ensures Bit(ShiftByte(cur, prev, Small(s)), j) == if j >= s then Bit(cur, j - s) else Bit(prev, 8 + j - s)
  {
    ShiftByteBitAt(cur, prev, Small(s), Small(j));
    SmallSub(j, s);
    MaskBit(ShiftByte(cur, prev, Small(s)), j);
    if j >= s {
      MaskBit(cur, j - s);
    } else {
      MaskBit(prev, 8 + j - s);
    }
  }

  // ---------------------------------------------------------------------
  // Glyph bitmaps.

  /** `(fontbb.w + 7) / 8`: the bytes of one bitmap row, the sum wrapping as `unsigned int`. */
  function Stride(w: U32): (r: U32)
    ensures w + 7 < Word ==> r == (w + 7) / 8
  {
    Unsigned(w + 7) / 8
  }

  /** `((fontbb.w + 7) / 8) * fontbb.h`: the bytes `bdf` allocates and clears for every bitmap. */
  function Size(fontbb: Rect): U32 {
    Unsigned(Stride(fontbb.w) * fontbb.h)
  }

  /**
   * Byte `j` of a row line: two characters through `htoi`; a last
   * character left alone is written as its own `htoi` value, not shifted
   * into the high nibble.
   */
  function RowByte(tok: string, j: int): bv8
    requires 0 <= j && 2 * j < |tok|
  {
    if 2 * j + 1 < |tok| then Pair(tok[2 * j], tok[2 * j + 1]) else Low8(Htoi(tok[2 * j]))
  }

  /** The bytes a row line writes, `j = 0, 1, …`. */
  function RowBytes(tok: string): (r: seq<bv8>)
    ensures |r| == (|tok| + 1) / 2
    ensures forall j :: 0 <= j < |r| && 2 * j + 1 < |tok| ==> r[j] == Pair(tok[2 * j], tok[2 * j + 1])
    ensures |tok| % 2 == 1 ==> r[|r| - 1] == Low8(Htoi(tok[|tok| - 1]))
  {
    seq((|tok| + 1) / 2, j requires 0 <= j < (|tok| + 1) / 2 => RowByte(tok, j))
  }

  /** A row of hex digits, two per byte, writes the bytes they spell. */
  lemma RowBytesOfHex(tok: string, d: seq<int>)
    requires |tok| == 2 * |d|
    requires forall j :: 0 <= j < |tok| ==> 0 <= Htoi(tok[j]) < 16
    requires forall j :: 0 <= j < |d| ==> d[j] == 16 * Htoi(tok[2 * j]) + Htoi(tok[2 * j + 1])
    ensures |RowBytes(tok)| == |d| && forall j :: 0 <= j < |d| ==> RowBytes(tok)[j] as int == d[j]
  {
    forall j | 0 <= j < |d|
      ensures RowBytes(tok)[j] as int == d[j]
    {
      PairOfNibbles(tok[2 * j], tok[2 * j + 1]);
    }
  }

  /**
   * The first `j` bytes of a row stored from `base`, byte `i` at
   * `j + scanline * stride` computed as `unsigned int`, leaving out a
   * byte whose index falls outside the bitmap.
   */
  function StoreFrom(cells: seq<bv8>, base: int, bytes: seq<bv8>, j: nat): (r: seq<bv8>)
    requires j <= |bytes|
    ensures |r| == |cells|
  {
    if j == 0 then cells
    else
      var c := StoreFrom(cells, base, bytes, j - 1);
      var k := Unsigned(base + j - 1);
      if k < |c| then c[k := bytes[j - 1]] else c
  }

  /** Without wrap-around, the stored row holds the bytes at `base…` inside the bitmap and leaves every other byte. */
  lemma {:induction false} StoreFromAt(cells: seq<bv8>, base: int, bytes: seq<bv8>, j: nat, k: int)
    requires j <= |bytes| && 0 <= base && base + j <= Word && 0 <= k < |cells|
    ensures StoreFrom(cells, base, bytes, j)[k] == if base <= k < base + j then bytes[k - base] else cells[k]
  {
    if j > 0 {
      StoreFromAt(cells, base, bytes, j - 1, k);
    }
  }

  /**
   * The row loop of extra/graphics_bdf.c:165-180 with the store kept to
   * the bitmap: byte `j` of the line into `cur[j + base]`, where `base`
   * is `scanline * stride`.
   */
  method StoreRow(cur: array<bv8>, base: int, tok: string)
    modifies cur
    ensures cur[..] == StoreFrom(old(cur[..]), base, RowBytes(tok), |RowBytes(tok)|)
  {
    StoreBytes(cur, cur[..], base, tok, RowBytes(tok));
  }

  /** That loop, with the bytes the line spells given as `bytes`. */
  method StoreBytes(cur: array<bv8>, ghost cells: seq<bv8>, base: int, tok: string, ghost bytes: seq<bv8>)
    requires cur[..] == cells && |bytes| == (|tok| + 1) / 2
    requires forall j :: 0 <= j < |bytes| ==> bytes[j] == RowByte(tok, j)
    modifies cur
    ensures cur[..] == StoreFrom(cells, base, bytes, |bytes|)
  {
    var p := 0;
    var j := 0;
    while p < |tok|
      invariant 0 <= j && p == 2 * j && j <= |bytes|
      invariant cur[..] == StoreFrom(cells, base, bytes, j)
      decreases |tok| - p
    {
      var i := Low8(Htoi(tok[p]));
      p := p + 1;
      var k := Unsigned(base + j);
      if p < |tok| {
        i := Pair(tok[p - 1], tok[p]);
      } else {
        StoreNext(cells, cur[..], base, bytes, j, i);
        Store(cur, k, i);
        j := j + 1;
        break;
      }
      StoreNext(cells, cur[..], base, bytes, j, i);
      Store(cur, k, i);
      j := j + 1;
      p := p + 1;
    }
  }

  /** Storing byte `j` extends the stored row by one byte. */
  lemma StoreNext(cells: seq<bv8>, c: seq<bv8>, base: int, bytes: seq<bv8>, j: nat, b: bv8)
    requires j < |bytes| && b == bytes[j] && c == StoreFrom(cells, base, bytes, j)
    ensures StoreFrom(cells, base, bytes, j + 1) == if 0 <= Unsigned(base + j) < |c| then c[Unsigned(base + j) := b] else c
  {
  }

  /** `cur[k] = i` where `k` is inside the buffer; a store past its end is left out. */
  method Store(cur: array<bv8>, k: int, i: bv8)
    modifies cur
    ensures cur[..] == if 0 <= k < cur.Length then old(cur[..])[k := i] else old(cur[..])
  {
    if 0 <= k < cur.Length {
      cur[k] := i;
    }
  }

  /**
   * As written, byte `j` of the line goes to `j + scanline * stride` with
   * no bound: nothing limits the rows to `fontbb.h` or a row to `stride`
   * bytes. In a font of 8x1 pixels every bitmap is one byte, and the
   * second row line of a glyph aims at byte 1.
   */
  lemma RowStorePastBitmap()
    ensures var fontbb := Rect(0, 0, 8, 1);
      var scanline := 1;
      Size(fontbb) == 1 && Unsigned(0 + scanline * Stride(fontbb.w)) == 1
  {
  }

  /**
   * The ENDCHAR shift (extra/graphics_bdf.c:148-155) on a bitmap of rows
   * of `stride` bytes: every byte shifted right by `s`, taking the bits
   * that fall out of the byte before it in the same row.
   */
  function Shifted(cells: seq<bv8>, stride: int, s: bv8): (r: seq<bv8>)
    requires 0 < stride && 1 <= s <= 7
    ensures |r| == |cells|
  {
    seq(|cells|, k requires 0 <= k < |cells| => ShiftByte(cells[k], Prev(cells, stride, k), s))
  }

  /** The byte before byte `k` in its row, 0 for the first byte of a row. */
  function Prev(cells: seq<bv8>, stride: int, k: int): bv8
    requires 0 < stride && 0 <= k < |cells|
  {
    if Column(k, stride) == 0 then 0 else cells[k - 1]
  }

  /** Each pixel of a row moves `s` to the right; the first `s` of every row become blank. */
  lemma ShiftedBit(cells: seq<bv8>, stride: int, s: int, k: int, j: int)
    requires 0 < stride && 1 <= s <= 7 && 0 <= k < |cells| && 0 <= j < 8
    ensures Bit(Shifted(cells, stride, Small(s))[k], j) ==
      if j >= s then Bit(cells[k], j - s) else Column(k, stride) != 0 && Bit(cells[k - 1], 8 + j - s)
  {
    var prev := Prev(cells, stride, k);
    ShiftByteBit(cells[k], prev, s, j);
    if j < s && Column(k, stride) == 0 {
      assert prev & Mask(8 + j - s) == 0;
    }
  }

  /** The byte of its row that index `k` is, in a bitmap of rows of `stride` bytes. */
  function Column(k: nat, stride: int): (x: nat)
    requires 0 < stride
    ensures x < stride
  {
    if k < stride then k else Column(k - stride, stride)
  }

  /** Moving along a row moves along its columns. */
  lemma {:induction false} ColumnAdd(k: nat, stride: int, x: nat)
    requires 0 < stride && Column(k, stride) + x < stride
    ensures Column(k + x, stride) == Column(k, stride) + x
    decreases k
  {
    if k >= stride {
      ColumnAdd(k - stride, stride, x);
    }
  }

  /** Index `y * stride` starts row `y`. */
  lemma {:induction false} RowStart(y: nat, stride: int)
    requires 0 < stride
    ensures Column(y * stride, stride) == 0
  {
    if y > 0 {
      RowStart(y - 1, stride);
      assert y * stride == (y - 1) * stride + stride;
    }
  }

  /** `a` with the bytes `lo..hi` taken from `t`. */
  function Mix(a: seq<bv8>, t: seq<bv8>, lo: int, hi: int): (r: seq<bv8>)
    requires |a| == |t|
    ensures |r| == |a|
  {
    seq(|a|, k requires 0 <= k < |a| => if lo <= k < hi then t[k] else a[k])
  }

  lemma MixStep(a: seq<bv8>, t: seq<bv8>, lo: int, hi: int)
    requires |a| == |t| && 0 <= lo <= hi < |a|
    ensures Mix(a, t, lo, hi)[hi := t[hi]] == Mix(a, t, lo, hi + 1)
  {
  }

  lemma MixAll(a: seq<bv8>, t: seq<bv8>)
    requires |a| == |t|
    ensures Mix(a, t, 0, |a|) == t && Mix(a, t, 0, 0) == a
  {
  }

  /** Bytes `start..start + stride` of `t` are the row at `start` of `cells` shifted right by `s`. */
  ghost predicate RowShifted(t: seq<bv8>, cells: seq<bv8>, start: nat, stride: int, s: bv8)
    requires 1 <= s <= 7 && 0 < stride && start + stride <= |cells| == |t|
  {
    forall x :: 0 <= x < stride ==>
      t[start + x] == ShiftByte(cells[start + x], Before(cells, start, x), s)
  }

  /** The byte before byte `x` of the row at `start`, 0 for the first. */
  function Before(cells: seq<bv8>, start: nat, x: nat): bv8
    requires start + x <= |cells|
  {
    if x == 0 then 0 else cells[start + x - 1]
  }

  /** `Shifted` shifts every row, the one at `start` among them. */
  lemma ShiftedRow(cells: seq<bv8>, stride: int, s: bv8, start: nat)
    requires 0 < stride && 1 <= s <= 7 && Column(start, stride) == 0 && start + stride <= |cells|
    ensures RowShifted(Shifted(cells, stride, s), cells, start, stride, s)
  {
    forall x | 0 <= x < stride
      ensures Shifted(cells, stride, s)[start + x] == ShiftByte(cells[start + x], Before(cells, start, x), s)
    {
      ShiftRowStep(cells, stride, start, x);
    }
  }

  /** Every row of `t` is that row of `cells` shifted right by `s`. */
  ghost predicate RowsShifted(t: seq<bv8>, cells: seq<bv8>, stride: int, s: bv8)
    requires 1 <= s <= 7 && 0 < stride && |cells| == |t|
  {
    forall start: nat :: Column(start, stride) == 0 && start + stride <= |cells| ==> RowShifted(t, cells, start, stride, s)
  }

  /** `Shifted` is such a `t`. */
  lemma ShiftedRows(cells: seq<bv8>, stride: int, s: bv8)
    requires 0 < stride && 1 <= s <= 7
    ensures RowsShifted(Shifted(cells, stride, s), cells, stride, s)
  {
    forall start: nat | Column(start, stride) == 0 && start + stride <= |cells|
      ensures RowShifted(Shifted(cells, stride, s), cells, start, stride, s)
    {
      ShiftedRow(cells, stride, s, start);
    }
  }

  /**
   * The inner loop of extra/graphics_bdf.c:150-154 on the row at
   * `start`: its bytes become those of `t`, the row shifted, and the rest
   * of `cur` stays.
   */
  method ShiftRow(cur: array<bv8>, ghost a: seq<bv8>, ghost t: seq<bv8>, start: nat, stride: int, s: bv8, ghost cells: seq<bv8>)
    requires 0 < stride && 1 <= s <= 7
    requires start + stride <= cur.Length == |cells| == |t| == |a|
    requires cur[..] == Mix(a, t, 0, start)
    requires forall k :: start <= k < |cells| ==> a[k] == cells[k]
    requires RowShifted(t, cells, start, stride, s)
    modifies cur
    ensures cur[..] == Mix(a, t, 0, start + stride)
  {
    var o: bv8 := 0;
    var x := 0;
    while x < stride
      invariant 0 <= x <= stride
      invariant cur[..] == Mix(a, t, 0, start + x)
      invariant o == Carry(Before(cells, start, x), s)
    {
      var k := start + x;
      var c := cur[k];
      assert c == a[k] == cells[k];
      MixStep(a, t, 0, k);
      CombineCarry(c, o, Before(cells, start, x), s);
      Put(cur, k, Combine(c, o, s));
      o := Carry(c, s);
      x := x + 1;
    }
  }

  /** `cur[k] = v`. */
  method Put(cur: array<bv8>, k: int, v: bv8)
    requires 0 <= k < cur.Length
    modifies cur
    ensures cur[..] == old(cur[..])[k := v]
  {
    cur[k] := v;
  }

  /** Inside the row at `start`, the byte before byte `x` is the one the loop carries from. */
  lemma ShiftRowStep(cells: seq<bv8>, stride: int, start: nat, x: nat)
    requires 0 < stride && Column(start, stride) == 0
    requires x < stride && start + stride <= |cells|
    ensures Prev(cells, stride, start + x) == Before(cells, start, x)
  {
    ColumnAdd(start, stride, x);
  }


  lemma {:induction false} RowFits(y: nat, rows: nat, stride: nat)
    requires y < rows
    ensures y * stride + stride <= stride * rows
  {
    if y + 1 < rows {
      RowFits(y, rows - 1, stride);
    }
    assert stride * rows == stride * (rows - 1) + stride;
  }

  /**
   * The loops of extra/graphics_bdf.c:148-155 over `rows` rows of
   * `stride` bytes, each byte replaced in place while `o` carries the
   * bits shifted out of the one before it.
   */
  method ShiftGlyph(cur: array<bv8>, stride: int, rows: nat, s: bv8)
    requires 0 < stride && 1 <= s <= 7 && cur.Length == stride * rows
    modifies cur
    ensures cur[..] == Shifted(old(cur[..]), stride, s)
  {
    ghost var cells := cur[..];
    ShiftedRows(cells, stride, s);
    ShiftRows(cur, Shifted(cells, stride, s), stride, rows, s, cells);
    MixAll(cells, Shifted(cells, stride, s));
  }

  /** The outer loop of extra/graphics_bdf.c:148-155: row after row, `cur` becomes `t`. */
  method ShiftRows(cur: array<bv8>, ghost t: seq<bv8>, stride: int, rows: nat, s: bv8, ghost cells: seq<bv8>)
    requires 0 < stride && 1 <= s <= 7 && cur.Length == stride * rows == |cells| == |t|
    requires cur[..] == cells && RowsShifted(t, cells, stride, s)
    modifies cur
    ensures cur[..] == Mix(cells, t, 0, |cells|)
  {
    MixAll(cells, t);
    var y := 0;
    var i := 0;
    while y < rows
      invariant 0 <= y <= rows && i == y * stride && i <= cur.Length
      invariant cur[..] == Mix(cells, t, 0, i)
    {
      RowStart(y, stride);
      RowFits(y, rows, stride);
      ShiftRow(cur, cells, t, i, stride, s, cells);
      assert i + stride == (y + 1) * stride;
      i := i + stride;
      y := y + 1;
    }
    assert i == stride * rows == cur.Length;
  }
}
