// Row-major cell indexing shared by every surface and map of the library:
// pixel (x, y) of a w-wide buffer lives at `y * w + x`.
module Grid {
  /** Multiplying by a non-negative factor keeps the order. */
  lemma MulMono(a: int, b: int, k: int)
    requires a <= b && 0 <= k
    ensures a * k <= b * k
  {
    assert b * k - a * k == (b - a) * k;
  }

  /** One more row of `s` cells. */
  lemma MulStep(n: int, s: int)
    ensures (n + 1) * s == n * s + s
  {
  }

  predicate InGrid(w: int, h: int, x: int, y: int) { 0 <= x < w && 0 <= y < h }

  /** `y * w + x`, the index every `XYGET`-style access computes. */
  function CellIndex(w: int, x: int, y: int): int { y * w + x }

  /** A point inside the grid indexes a cell of the w·h buffer. */
  lemma CellIndexInRange(w: int, h: int, x: int, y: int)
    requires InGrid(w, h, x, y)
    ensures 0 <= CellIndex(w, x, y) < w * h
  {
    assert y * w <= (h - 1) * w by {
      assert (h - 1) * w - y * w == (h - 1 - y) * w;
    }
    assert (h - 1) * w + w == h * w;
  }

  /** Each cell has exactly one point: the index gives back x and y. */
  lemma CellIndexInverse(w: int, x: int, y: int)
    requires 0 <= x < w && 0 <= y
    ensures CellIndex(w, x, y) / w == y && CellIndex(w, x, y) % w == x
  {
    var i := CellIndex(w, x, y);
    var q, r := i / w, i % w;
    assert i == q * w + r && 0 <= r < w;
    assert (q - y) * w == x - r;
    if q - y >= 1 {
      MulMono(1, q - y, w);
      assert false;
    } else if q - y <= -1 {
      MulMono(q - y, -1, w);
      assert false;
    }
  }

  /** Distinct points of a grid use distinct cells. */
  lemma CellIndexInjective(w: int, x: int, y: int, x2: int, y2: int)
    requires 0 <= x < w && 0 <= y && 0 <= x2 < w && 0 <= y2
    requires CellIndex(w, x, y) == CellIndex(w, x2, y2)
    ensures x == x2 && y == y2
  {
    CellIndexInverse(w, x, y);
    CellIndexInverse(w, x2, y2);
  }

  /** Row `y` of a w·h grid occupies the cells `y * w .. y * w + w`. */
  lemma RowBase(w: int, h: int, y: int)
    requires 0 <= w && 0 <= y < h
    ensures 0 <= y * w && y * w + w <= w * h
  {
    assert (h - y) * w == h * w - y * w;
    MulMono(1, h - y, w);
  }

  /** Cell `q` of a w·h grid is the point (q % w, q / w). */
  lemma RowOfCell(q: int, w: int, h: int)
    requires 0 < w && 0 <= q < w * h
    ensures 0 <= q / w < h && 0 <= q % w < w && q == CellIndex(w, q % w, q / w)
  {
    var y := q / w;
    if y >= h {
      MulMono(h, y, w);
      assert false;
    }
  }

  /** A coordinate already on an axis of length `m` is its own remainder. */
  lemma ModInRange(v: int, m: int)
    requires 0 <= v < m
    ensures v % m == v
  {
  }
}
