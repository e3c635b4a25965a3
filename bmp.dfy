// `hal_save_bmp` of src/graphics.c:906-968: a 24-bit uncompressed BMP,
// written as a 14-byte file header, a 40-byte info header and the pixel rows
// bottom-up, each padded to a multiple of four bytes. The file is modelled
// as the byte sequence the `fwrite` calls emit, in order.
module HalBmp {
  import opened Colour
  import opened Grid

  /** A byte of the file, as the integer 0..255 it holds. */
  newtype u8 = x: int | 0 <= x < 256

  /** `(u8)x`: the low byte of an integer. */
  function Byte(x: int): (b: u8)
    ensures b as int == x % 256
  {
    (x % 256) as u8
  }

  /** `(u8)HAL_R(c)` and its siblings: a colour channel as a file byte. */
  function Octet(c: byte): (b: u8)
    ensures b as int == Val(c)
  {
    Val(c) as u8
  }

  function Pow256(k: nat): (p: int)
    ensures p >= 1
  {
    if k == 0 then 1 else 256 * Pow256(k - 1)
  }

  /** The `k`-byte little-endian field at offset `off`, read back as an unsigned integer. */
  function ReadLe(b: seq<u8>, off: nat, k: nat): (n: int)
    requires off + k <= |b|
    ensures 0 <= n < Pow256(k)
    decreases k
  {
    if k == 0 then 0 else b[off] as int + 256 * ReadLe(b, off + 1, k - 1)
  }

  /** Byte `i` of the field at `off` holds `(u8)(n >> 8 * i)`. */
  predicate Stored(b: seq<u8>, off: nat, k: nat, n: int)
    requires off + k <= |b|
  {
    forall i :: 0 <= i < k ==> b[off + i] == Byte(n / Pow256(i))
  }

  /** The remainder is determined by any quotient–remainder split of `a`. */
  lemma ModUnique(a: int, d: int, t: int, e: int)
    requires 0 < d && a == d * t + e && 0 <= e < d
    ensures a % d == e && a / d == t
  {
    var q, r := a / d, a % d;
    assert d * (t - q) == r - e;
    if t - q >= 1 {
      assert false;
    } else if t - q <= -1 {
      assert false;
    }
  }

  /** Splitting off the low digit in base `m` and then the next `p` digits. */
  lemma ModSplit(a: int, m: int, p: int)
    requires 0 < m && 0 < p
    ensures a % m + m * ((a / m) % p) == a % (m * p)
    ensures a / m / p == a / (m * p)
  {
    var q, r := a / m, a % m;
    var t, s := q / p, q % p;
    assert a == m * q + r;
    assert q == p * t + s;
    assert a == (m * p) * t + (m * s + r) by {
      assert m * q == m * (p * t) + m * s;
    }
    MulMono(s, p - 1, m);
    MulMono(0, s, m);
    assert (p - 1) * m == m * p - m;
    ModUnique(a, m * p, t, m * s + r);
  }

  /**
   * Storing the shifted bytes of `n` and reading the field back gives `n`
   * reduced to the field's width: the serialiser and a reader agree.
   */
  lemma {:induction false} ReadStored(b: seq<u8>, off: nat, k: nat, n: int)
    requires off + k <= |b| && Stored(b, off, k, n)
    ensures ReadLe(b, off, k) == n % Pow256(k)
    decreases k
  {
    if k > 0 {
      forall i | 0 <= i < k - 1
        ensures b[off + 1 + i] == Byte(n / 256 / Pow256(i))
      {
        assert b[off + (i + 1)] == Byte(n / Pow256(i + 1));
        ModSplit(n, 256, Pow256(i));
      }
      ReadStored(b, off + 1, k - 1, n / 256);
      ModSplit(n, 256, Pow256(k - 1));
      assert b[off + 0] == Byte(n / Pow256(0));
    }
  }

  /** `54 + 3 * w * h`, the value stored in the file-size field. */
  function FileSizeAsWritten(w: int, h: int): int { 54 + 3 * w * h }

  /** What a BMP reader finds in the two headers. */
  predicate HeadersRead(header: seq<u8>, info: seq<u8>, size: int, w: int, h: int) {
    |header| == 14 && |info| == 40 &&
    header[0] == 'B' as u8 && header[1] == 'M' as u8 &&
    ReadLe(header, 2, 4) == size % 0x1_0000_0000 && ReadLe(header, 6, 4) == 0 && ReadLe(header, 10, 4) == 54 &&
    ReadLe(info, 0, 4) == 40 && ReadLe(info, 4, 4) == w % 0x1_0000_0000 && ReadLe(info, 8, 4) == h % 0x1_0000_0000 &&
    ReadLe(info, 12, 2) == 1 && ReadLe(info, 14, 2) == 24 &&
    forall i :: 16 <= i < 40 ==> info[i] == 0
  }

  /**
   * The 14-byte file header as the source fills it: "BM", the size stored
   * one shift at a time, two reserved words, the pixel offset 54.
   */
  function FileHeader(size: int): (r: seq<u8>)
    ensures |r| == 14
  {
    [66, 77, Byte(size), Byte(size / 256), Byte(size / 65536), Byte(size / 16777216), 0, 0, 0, 0, 54, 0, 0, 0]
  }

  /** The initialised part of the 40-byte info header, with the width and height stored. */
  function InfoFields(w: int, h: int): (r: seq<u8>)
    ensures |r| == 16
  {
    [40, 0, 0, 0, Byte(w), Byte(w / 256), Byte(w / 65536), Byte(w / 16777216),
     Byte(h), Byte(h / 256), Byte(h / 65536), Byte(h / 16777216), 1, 0, 24, 0]
  }

  /** The info header: the initialiser's sixteen bytes, then the zeros C supplies for the rest. */
  function InfoHeader(w: int, h: int): (r: seq<u8>)
    ensures |r| == 40
  {
    InfoFields(w, h) + Zeros(24)
  }

  /**
   * A reader gets back what the serialiser stored: "BM", the size, the
   * pixel offset 54, the info size 40, the width, the height, one plane and
   * 24 bits per pixel.
   */
  lemma HeadersRoundTrip(size: int, w: int, h: int)
    ensures HeadersRead(FileHeader(size), InfoHeader(w, h), size, w, h)
  {
    HeaderRead(FileHeader(size), size);
    InfoRead(InfoFields(w, h), w, h);
    ReadLePrefix(InfoFields(w, h), Zeros(24));
  }

  /** Appending bytes does not change a field read inside the prefix. */
  lemma ReadLePrefix(a: seq<u8>, z: seq<u8>)
    ensures forall off: nat, k: nat :: off + k <= |a| ==> ReadLe(a + z, off, k) == ReadLe(a, off, k)
  {
    forall off: nat, k: nat | off + k <= |a|
      ensures ReadLe(a + z, off, k) == ReadLe(a, off, k)
    {
      ReadLeAppend(a, z, off, k);
    }
  }

  lemma {:induction false} ReadLeAppend(a: seq<u8>, z: seq<u8>, off: nat, k: nat)
    requires off + k <= |a|
    ensures ReadLe(a + z, off, k) == ReadLe(a, off, k)
    decreases k
  {
    if k > 0 {
      ReadLeAppend(a, z, off + 1, k - 1);
    }
  }

  /** `k` zero bytes: the tail of a C initialiser shorter than its array. */
  function Zeros(k: nat): (z: seq<u8>)
    ensures |z| == k && forall i :: 0 <= i < k ==> z[i] == 0
  {
    if k == 0 then [] else [0] + Zeros(k - 1)
  }

  lemma Pow256Values()
    ensures Pow256(0) == 1 && Pow256(1) == 256 && Pow256(2) == 65536
    ensures Pow256(3) == 16777216 && Pow256(4) == 0x1_0000_0000
  {
  }

  /** Four stored shifts of `n` at `off` are its field. */
  lemma Field4(b: seq<u8>, off: nat, n: int)
    requires off + 4 <= |b|
    requires b[off] == Byte(n) && b[off + 1] == Byte(n / 256) && b[off + 2] == Byte(n / 65536) && b[off + 3] == Byte(n / 16777216)
    ensures ReadLe(b, off, 4) == n % 0x1_0000_0000
  {
    Pow256Values();
    ReadStored(b, off, 4, n);
  }

  /** A 2-byte field holding a small constant. */
  lemma Field2(b: seq<u8>, off: nat, n: int)
    requires off + 2 <= |b| && 0 <= n < 256 && b[off] as int == n && b[off + 1] == 0
    ensures ReadLe(b, off, 2) == n
  {
  }

  lemma HeaderRead(b: seq<u8>, size: int)
    requires |b| == 14 && b[0] == 66 && b[1] == 77 && b[10] == 54
    requires b[2] == Byte(size) && b[3] == Byte(size / 256) && b[4] == Byte(size / 65536) && b[5] == Byte(size / 16777216)
    requires b[6] == 0 && b[7] == 0 && b[8] == 0 && b[9] == 0 && b[11] == 0 && b[12] == 0 && b[13] == 0
    ensures ReadLe(b, 2, 4) == size % 0x1_0000_0000 && ReadLe(b, 6, 4) == 0 && ReadLe(b, 10, 4) == 54
  {
    Field4(b, 2, size);
    Field4(b, 6, 0);
    Field4(b, 10, 54);
  }

  lemma InfoRead(b: seq<u8>, w: int, h: int)
    requires |b| == 16 && b[0] == 40 && b[12] == 1 && b[14] == 24
    requires b[4] == Byte(w) && b[5] == Byte(w / 256) && b[6] == Byte(w / 65536) && b[7] == Byte(w / 16777216)
    requires b[8] == Byte(h) && b[9] == Byte(h / 256) && b[10] == Byte(h / 65536) && b[11] == Byte(h / 16777216)
    requires b[1] == 0 && b[2] == 0 && b[3] == 0 && b[13] == 0 && b[15] == 0
    ensures ReadLe(b, 0, 4) == 40 && ReadLe(b, 4, 4) == w % 0x1_0000_0000 && ReadLe(b, 8, 4) == h % 0x1_0000_0000
    ensures ReadLe(b, 12, 2) == 1 && ReadLe(b, 14, 2) == 24
  {
    Field4(b, 0, 40);
    Field4(b, 4, w);
    Field4(b, 8, h);
    Field2(b, 12, 1);
    Field2(b, 14, 24);
  }

  /** `(4 - (s->w * 3) % 4) % 4`: the zero bytes after each row. */
  function Pad(w: int): (p: int)
    requires 0 <= w
    ensures 0 <= p < 4 && (3 * w + p) % 4 == 0
  {
    (4 - (w * 3) % 4) % 4
  }

  /**
   * The rows the pixel loop visits, outer `i` fixed: `j` runs from `h` down
   * to 1 and `y = (h - 1) - j`.
   */
  function LoopRowsAsWritten(h: int): (ys: seq<int>)
    requires 0 <= h
    ensures |ys| == h && forall k :: 0 <= k < h ==> ys[k] == k - 1
  {
    seq(h, k => (h - 1) - (h - k))
  }

  /** The loop reads and writes row -1, before the buffer, and never fills the top row `h - 1`. */
  lemma LoopRowsOffByOne(h: int)
    requires 1 <= h
    ensures -1 in LoopRowsAsWritten(h)
    ensures h - 1 !in LoopRowsAsWritten(h)
  {
    assert LoopRowsAsWritten(h)[0] == -1;
  }

  /** The rows the loop evidently means to visit: `y = h - j`, every row once. */
  function LoopRows(h: int): (ys: seq<int>)
    requires 0 <= h
    ensures |ys| == h && forall k :: 0 <= k < h ==> ys[k] == k
  {
    seq(h, k => h - (h - k))
  }

  /** The image bytes of the pixel at index `p` hold its blue, green and red, in that order. */
  predicate PixelStored(img: seq<u8>, cells: seq<bv32>, p: int)
    requires 0 <= p < |cells| && 3 * p + 2 < |img|
  {
    img[3 * p] == Octet(B(cells[p])) && img[3 * p + 1] == Octet(G(cells[p])) && img[3 * p + 2] == Octet(R(cells[p]))
  }

  /** Pixel `p` is one the loop has already written: an earlier column, or an earlier row of column `i`. */
  predicate Visited(w: int, i: int, rows: int, p: int) {
    0 < w && 0 <= p && (p % w < i || (p % w == i && p / w < rows))
  }

  /**
   * The pixel loop with the row `y = h - j`: `img` ends up holding every
   * pixel's blue, green and red bytes at `3 * (x + y * w)`.
   */
  method PackPixels(cells: seq<bv32>, w: int, h: int) returns (img: array<u8>)
    requires 0 <= w && 0 <= h && |cells| == w * h
    ensures img.Length == 3 * |cells|
    ensures forall p :: 0 <= p < |cells| ==> PixelStored(img[..], cells, p)
  {
    img := new u8[3 * |cells|](_ => 0);
    var i := 0;
    while i < w
      invariant 0 <= i <= w
      invariant forall p :: 0 <= p < |cells| && Visited(w, i, 0, p) ==> PixelStored(img[..], cells, p)
    {
      var j := h;
      while j > 0
        invariant 0 <= j <= h
        invariant forall p :: 0 <= p < |cells| && Visited(w, i, h - j, p) ==> PixelStored(img[..], cells, p)
      {
        var y := h - j;
        CellIndexInRange(w, h, i, y);
        CellIndexInverse(w, i, y);
        var c := cells[i + y * w];
        ghost var before := img[..];
        img[(i + y * w) * 3 + 2] := Octet(R(c));
        img[(i + y * w) * 3 + 1] := Octet(G(c));
        img[(i + y * w) * 3 + 0] := Octet(B(c));
        StorePixel(before, img[..], cells, i + y * w);
        VisitedNext(w, h, i, y);
        j := j - 1;
      }
      VisitedColumn(w, h, i);
      i := i + 1;
    }
    VisitedAll(w, h);
  }

  /** Storing one pixel's three bytes stores it and keeps every other stored pixel. */
  lemma StorePixel(before: seq<u8>, after: seq<u8>, cells: seq<bv32>, p0: int)
    requires 0 <= p0 < |cells| && |before| == 3 * |cells|
    requires after == before[3 * p0 + 2 := Octet(R(cells[p0]))][3 * p0 + 1 := Octet(G(cells[p0]))][3 * p0 := Octet(B(cells[p0]))]
    ensures |after| == |before| && PixelStored(after, cells, p0)
    ensures forall p :: 0 <= p < |cells| && p != p0 && PixelStored(before, cells, p) ==> PixelStored(after, cells, p)
  {
  }

  /** Writing row `y` of column `i` extends the visited pixels by exactly that one. */
  lemma VisitedNext(w: int, h: int, i: int, y: int)
    requires 0 <= i < w && 0 <= y < h
    ensures forall p :: 0 <= p < w * h ==> (Visited(w, i, y + 1, p) <==> Visited(w, i, y, p) || p == y * w + i)
  {
    CellIndexInverse(w, i, y);
    forall p | 0 <= p < w * h
      ensures Visited(w, i, y + 1, p) <==> Visited(w, i, y, p) || p == y * w + i
    {
      if p % w == i && p / w == y {
        CellIndexInverse(w, p % w, p / w);
        assert p == p / w * w + p % w;
      }
    }
  }

  /** A finished column: every row of it visited is the same as the next column started. */
  lemma VisitedColumn(w: int, h: int, i: int)
    requires 0 <= i < w && 0 <= h
    ensures forall p :: 0 <= p < w * h ==> (Visited(w, i, h, p) <==> Visited(w, i + 1, 0, p))
  {
    forall p | 0 <= p < w * h
      ensures Visited(w, i, h, p) <==> Visited(w, i + 1, 0, p)
    {
      if p % w == i {
        DivAtMostRow(w, h, p);
      }
    }
  }

  /** The row of an index below `w * h` is below `h`. */
  lemma DivAtMostRow(w: int, h: int, p: int)
    requires 0 < w && 0 <= p < w * h
    ensures p / w < h
  {
    if p / w >= h {
      assert false;
    }
  }

  /** Once every column is done, every pixel is visited. */
  lemma VisitedAll(w: int, h: int)
    requires 0 <= w && 0 <= h
    ensures forall p :: 0 <= p < w * h ==> Visited(w, w, 0, p)
  {
  }

  /** Bytes of one padded row in the file. */
  function Stride(w: int): (s: int)
    requires 0 <= w
    ensures s >= 3 * w && s % 4 == 0
  {
    3 * w + Pad(w)
  }

  /** Where image row `y` starts in the packed image: `(0 + y * w) * 3`. */
  function RowStart(w: int, h: int, y: int): (b: int)
    requires 0 <= w && 0 <= y < h
    ensures 0 <= b && b + 3 * w <= 3 * (w * h)
  {
    RowBase(w, h, y);
    3 * (y * w)
  }

  /**
   * What the row loop writes from output row `i` on: image row `h - i - 1`
   * (the rows go out bottom-up), then its padding.
   */
  function PixelRows(img: seq<u8>, w: int, h: int, i: int): (r: seq<u8>)
    requires 0 <= w && 0 <= i <= h && |img| == 3 * (w * h)
    ensures |r| == (h - i) * Stride(w)
    decreases h - i
  {
    if i == h then []
    else
      var rest := PixelRows(img, w, h, i + 1);
      MulStep(h - i - 1, Stride(w));
      img[RowStart(w, h, h - i - 1) .. RowStart(w, h, h - i - 1) + 3 * w] + Zeros(Pad(w)) + rest
  }

  /** Where output row `n` starts among the rows, `n * Stride(w)`, inside the rows from `i` on. */
  function OutStart(w: int, h: int, i: int, n: int): (o: int)
    requires 0 <= w && 0 <= i && 0 <= n < h - i
    ensures 0 <= o && o + Stride(w) <= (h - i) * Stride(w)
  {
    MulMono(0, n, Stride(w));
    MulMono(n + 1, h - i, Stride(w));
    MulStep(n, Stride(w));
    n * Stride(w)
  }

  /** Byte `k` of padded image row `y`: the row's own bytes, then zero padding. */
  function RowByte(img: seq<u8>, w: int, h: int, y: int, k: int): u8
    requires 0 <= w && 0 <= y < h && |img| == 3 * (w * h) && 0 <= k < Stride(w)
  {
    if k < 3 * w then img[RowStart(w, h, y) + k] else 0
  }

  /** The rows from `i` on begin with padded image row `h - 1 - i`. */
  lemma PixelRowsHead(img: seq<u8>, w: int, h: int, i: int, k: int)
    requires 0 <= w && 0 <= i < h && |img| == 3 * (w * h) && 0 <= k < Stride(w)
    ensures PixelRows(img, w, h, i)[k] == RowByte(img, w, h, h - 1 - i, k)
  {
    var s := RowStart(w, h, h - i - 1);
    var head := img[s .. s + 3 * w] + Zeros(Pad(w));
    assert PixelRows(img, w, h, i) == head + PixelRows(img, w, h, i + 1);
  }

  /** After the first padded row come the rows from `i + 1` on. */
  lemma PixelRowsTail(img: seq<u8>, w: int, h: int, i: int, j: int)
    requires 0 <= w && 0 <= i < h && |img| == 3 * (w * h)
    requires 0 <= j < |PixelRows(img, w, h, i + 1)|
    ensures Stride(w) + j < |PixelRows(img, w, h, i)|
    ensures PixelRows(img, w, h, i)[Stride(w) + j] == PixelRows(img, w, h, i + 1)[j]
  {
    var s := RowStart(w, h, h - i - 1);
    var head := img[s .. s + 3 * w] + Zeros(Pad(w));
    assert PixelRows(img, w, h, i) == head + PixelRows(img, w, h, i + 1);
  }

  /** Output row `n + 1` of the rows from `i` on is output row `n` of the rows from `i + 1` on, one stride later. */
  lemma OutStartStep(w: int, h: int, i: int, n: int)
    requires 0 <= w && 0 <= i && 0 <= n < h - i - 1
    ensures OutStart(w, h, i, n + 1) == Stride(w) + OutStart(w, h, i + 1, n)
  {
    MulStep(n, Stride(w));
  }

  /** Byte `k` of output row `r`, counted in the rows from `i` on, is byte `k` of padded image row `h - 1 - r`. */
  predicate RowAt(img: seq<u8>, w: int, h: int, i: int, r: int, k: int)
    requires 0 <= w && 0 <= i <= r < h && |img| == 3 * (w * h) && 0 <= k < Stride(w)
  {
    PixelRows(img, w, h, i)[OutStart(w, h, i, r - i) + k] == RowByte(img, w, h, h - 1 - r, k)
  }

  /** Every byte of every output row is the matching byte of the image row it came from. */
  lemma {:induction false} PixelRowsAt(img: seq<u8>, w: int, h: int, i: int, r: int, k: int)
    requires 0 <= w && 0 <= i <= r < h && |img| == 3 * (w * h) && 0 <= k < Stride(w)
    ensures RowAt(img, w, h, i, r, k)
    decreases r - i
  {
    if r == i {
      assert OutStart(w, h, i, 0) == 0;
      PixelRowsHead(img, w, h, i, k);
    } else {
      PixelRowsAt(img, w, h, i + 1, r, k);
      OutStartStep(w, h, i, r - i - 1);
      PixelRowsTail(img, w, h, i, OutStart(w, h, i + 1, r - i - 1) + k);
    }
  }

  /** The file size the header should carry: both headers and every padded row. */
  function FileSize(w: int, h: int): (n: int)
    requires 0 <= w && 0 <= h
    ensures n >= FileSizeAsWritten(w, h)
  {
    MulMono(3 * w, Stride(w), h);
    54 + h * Stride(w)
  }

  /** Whenever rows are padded the stored size falls short of the file: one 1x1 image is 58 bytes, not 57. */
  lemma FileSizeIgnoresPadding(w: int, h: int)
    requires 0 <= w && 0 < h && Pad(w) > 0
    ensures FileSizeAsWritten(w, h) < FileSize(w, h)
    ensures FileSizeAsWritten(1, 1) == 57 && FileSize(1, 1) == 58
  {
    assert h * Stride(w) == 3 * w * h + h * Pad(w);
  }

  /**
   * `hal_save_bmp` with both corrections: the headers, then the rows
   * bottom-up. The stored size is the file's length, and pixel `(x, y)`
   * sits in output row `h - 1 - y` as blue, green, red.
   */
  method SaveBmp(cells: seq<bv32>, w: int, h: int) returns (file: seq<u8>)
    requires 0 <= w && 0 <= h && |cells| == w * h
    ensures |file| == FileSize(w, h)
    ensures HeadersRead(file[..14], file[14..54], |file|, w, h)
    ensures forall x, y, k :: 0 <= x < w && 0 <= y < h && 0 <= k < 3 ==> PixelInFile(file, cells, w, h, x, y, k)
  {
    var img := PackPixels(cells, w, h);
    var size := FileSize(w, h);
    var rows := PixelRows(img[..], w, h, 0);
    file := FileHeader(size) + InfoHeader(w, h) + rows;
    HeadersRoundTrip(size, w, h);
    assert file[..14] == FileHeader(size) && file[14..54] == InfoHeader(w, h);
    forall x, y, k | 0 <= x < w && 0 <= y < h && 0 <= k < 3
      ensures PixelInFile(file, cells, w, h, x, y, k)
    {
      CellIndexInRange(w, h, x, y);
      RowsPixel(img[..], w, h, x, y, k);
      FilePixel(cells, img[..], w, h, FileHeader(size) + InfoHeader(w, h), rows, x, y, k);
    }
  }

  /** Byte `k` of the file at pixel `(x, y)`'s place is that pixel's channel `k`. */
  predicate PixelInFile(file: seq<u8>, cells: seq<bv32>, w: int, h: int, x: int, y: int, k: int)
    requires 0 <= x < w && 0 <= y < h && 0 <= k < 3
  {
    0 <= CellIndex(w, x, y) < |cells| && FileOffset(w, h, x, y, k) < |file| &&
    file[FileOffset(w, h, x, y, k)] == Channel(cells[CellIndex(w, x, y)], k)
  }

  /** Byte `k` of pixel `(x, y)` in `rows` is byte `k` of that pixel in the image. */
  predicate RowsHold(rows: seq<u8>, img: seq<u8>, w: int, h: int, x: int, y: int, k: int)
    requires 0 <= x < w && 0 <= y < h && 0 <= k < 3
  {
    OutStart(w, h, 0, h - 1 - y) + 3 * x + k < |rows| && 0 <= 3 * CellIndex(w, x, y) + k < |img| &&
    rows[OutStart(w, h, 0, h - 1 - y) + 3 * x + k] == img[3 * CellIndex(w, x, y) + k]
  }

  /** The rows the loop writes hold every pixel byte of the image in its place. */
  lemma RowsPixel(img: seq<u8>, w: int, h: int, x: int, y: int, k: int)
    requires 0 <= w && 0 <= h && |img| == 3 * (w * h)
    requires 0 <= x < w && 0 <= y < h && 0 <= k < 3
    ensures RowsHold(PixelRows(img, w, h, 0), img, w, h, x, y, k)
  {
    var j := 3 * x + k;
    assert j < 3 * w <= Stride(w);
    PixelRowsAt(img, w, h, 0, h - 1 - y, j);
    assert h - 1 - (h - 1 - y) == y;
    assert RowByte(img, w, h, y, j) == img[RowStart(w, h, y) + j];
    assert RowStart(w, h, y) + j == 3 * CellIndex(w, x, y) + k;
  }

  /** One pixel byte of the file, traced back through the row loop and the pixel loop. */
  lemma FilePixel(cells: seq<bv32>, img: seq<u8>, w: int, h: int, headers: seq<u8>, rows: seq<u8>, x: int, y: int, k: int)
    requires 0 <= x < w && 0 <= y < h && 0 <= k < 3 && |headers| == 54
    requires 0 <= CellIndex(w, x, y) < |cells| && |img| == 3 * |cells|
    requires PixelStored(img, cells, CellIndex(w, x, y))
    requires |rows| + 54 == FileSize(w, h)
    requires RowsHold(rows, img, w, h, x, y, k)
    ensures (headers + rows)[FileOffset(w, h, x, y, k)] == Channel(cells[CellIndex(w, x, y)], k)
  {
    var p := CellIndex(w, x, y);
    var j := OutStart(w, h, 0, h - 1 - y) + 3 * x + k;
    assert img[3 * p + k] == Channel(cells[p], k);
    assert FileOffset(w, h, x, y, k) == 54 + j;
    assert (headers + rows)[54 + j] == rows[j];
  }

  /** Where byte `k` of pixel `(x, y)` lies in the file: after the headers, in output row `h - 1 - y`. */
  function FileOffset(w: int, h: int, x: int, y: int, k: int): (o: int)
    requires 0 <= x < w && 0 <= y < h && 0 <= k < 3
    ensures 54 <= o < FileSize(w, h)
  {
    54 + OutStart(w, h, 0, h - 1 - y) + 3 * x + k
  }

  /** Byte `k` of a pixel in the file: blue, green, red. */
  function Channel(c: bv32, k: int): u8 {
    if k == 0 then Octet(B(c)) else if k == 1 then Octet(G(c)) else Octet(R(c))
  }

  /** `hal_gif_t`'s frame cursor (src/graphics.c:2166-2177); the decoded surfaces are not modelled. */
  class Gif {
    var frame: int
    var frames: int

    ghost predicate Valid()
      reads this
    {
      0 < frames && 0 <= frame < frames
    }

    constructor (n: int)
      requires 0 < n
      ensures Valid() && frames == n && frame == 0
    {
      frames, frame := n, 0;
    }

    /** `hal_gif_next_frame`: the next frame, wrapping to 0 past the last. */
    method NextFrame() returns (f: int)
      requires Valid()
      modifies this
      ensures Valid() && frames == old(frames)
      ensures f == frame && frame == (old(frame) + 1) % frames
    {
      frame := frame + 1;
      if frame >= frames {
        frame := 0;
      }
      f := frame;
    }

    /** `hal_gif_set_frame`: moves to frame `n`, ignoring any `n` outside `[0, frames)`. */
    method SetFrame(n: int)
      requires Valid()
      modifies this
      ensures Valid() && frames == old(frames)
      ensures frame == if 0 <= n < frames then n else old(frame)
    {
      if n >= frames || n < 0 {
        return;
      }
      frame := n;
    }
  }

  /** The frame reached by `k` calls of `hal_gif_next_frame` from `frame`. */
  function Advance(frame: int, frames: int, k: nat): (f: int)
    requires 0 < frames && 0 <= frame < frames
    ensures 0 <= f < frames
    decreases k
  {
    if k == 0 then frame else Advance((frame + 1) % frames, frames, k - 1)
  }

  /** `k` steps land on `(frame + k) % frames`. */
  lemma {:induction false} AdvanceWraps(frame: int, frames: int, k: nat)
    requires 0 < frames && 0 <= frame < frames
    ensures Advance(frame, frames, k) == (frame + k) % frames
    decreases k
  {
    if k > 0 {
      if frame + 1 < frames {
        ModUnique(frame + 1, frames, 0, frame + 1);
        AdvanceWraps(frame + 1, frames, k - 1);
      } else {
        ModUnique(frame + 1, frames, 1, 0);
        AdvanceWraps(0, frames, k - 1);
        ModShift(frame + k, frames, 1, k - 1);
      }
    }
  }

  /** `frames` steps come back to the frame they started from. */
  lemma AdvanceCycle(frame: int, frames: int)
    requires 0 < frames && 0 <= frame < frames
    ensures Advance(frame, frames, frames) == frame
  {
    AdvanceWraps(frame, frames, frames);
    ModUnique(frame + frames, frames, 1, frame);
  }

  /** Removing whole multiples of `d` keeps the remainder. */
  lemma ModShift(a: int, d: int, q: int, e: int)
    requires 0 < d && a == d * q + e
    ensures a % d == e % d
  {
    ModUnique(e, d, e / d, e % d);
    ModUnique(a, d, q + e / d, e % d);
  }
}
