// The integer maps of the roguelike's cave generators: dungeon.c's
// `grid_t` (w·h ints, cell (x, y) at `y * w + x`) and the
// `vector2d<int>` of cave.cpp, which the generators only ever address by
// (x, y), so one class serves both. Here also the cellular automaton that
// both files run in place over such a map.
module RogueGrid {
  import opened Grid
  import RogueCommon

  /** `point_t` of dungeon.c and `vec2i` of cave.cpp. */
  datatype Point = Point(x: int, y: int)

  /** `GRID_IN(g, x, y)` (dungeon.c:48). */
  predicate InMap(w: int, h: int, p: Point) { InGrid(w, h, p.x, p.y) }

  /** The cell at (x, y) of a w·h map held as a sequence. */
  function Get(g: seq<int>, w: int, h: int, x: int, y: int): (v: int)
    requires |g| == w * h && InGrid(w, h, x, y)
    ensures 0 <= CellIndex(w, x, y) < |g| && v == g[CellIndex(w, x, y)]
  {
    CellIndexInRange(w, h, x, y);
    g[CellIndex(w, x, y)]
  }

  /** A map whose cells are w·h ints. */
  class TileGrid {
    const w: int
    const h: int
    const cells: array<int>

    ghost predicate Valid()
      reads this
    {
      0 <= w && 0 <= h && cells.Length == w * h
    }

    /** `GRID_AT(g, x, y)` (dungeon.c:47) for a point inside the tiles. */
    function At(x: int, y: int): (v: int)
      requires Valid() && InGrid(w, h, x, y)
      reads this, cells
      ensures v == Get(cells[..], w, h, x, y)
    {
      CellIndexInRange(w, h, x, y);
      cells[CellIndex(w, x, y)]
    }

    /**
     * `grid_new(w, h)` (dungeon.c:28-45), and `create_vector2d<int>(w, h,
     * 0)`: every cell 0. The `abort` on a failed `malloc` is not modelled.
     */
    constructor (w: int, h: int)
      requires 0 <= w && 0 <= h
      ensures Valid() && this.w == w && this.h == h && fresh(cells)
      ensures forall k :: 0 <= k < cells.Length ==> cells[k] == 0
    {
      this.w, this.h := w, h;
      cells := new int[w * h](_ => 0);
    }
  }

  /** The neighbour (nx, ny) of (i, j) in the wall count: 1 off the map, its value on it, 0 for (i, j) itself. */
  function Term(g: seq<int>, w: int, h: int, i: int, j: int, nx: int, ny: int): int
    requires |g| == w * h
  {
    if InGrid(w, h, nx, ny) then (if nx != i || ny != j then Get(g, w, h, nx, ny) else 0) else 1
  }

  /** The terms of column nx for the rows j-1 .. j-1+c-1. */
  function ColumnPart(g: seq<int>, w: int, h: int, i: int, j: int, nx: int, c: nat): int
    requires |g| == w * h && c <= 3
  {
    if c == 0 then 0 else ColumnPart(g, w, h, i, j, nx, c - 1) + Term(g, w, h, i, j, nx, j - 1 + c - 1)
  }

  /** The terms of the columns i-1 .. i-1+a-1. */
  function WallPart(g: seq<int>, w: int, h: int, i: int, j: int, a: nat): int
    requires |g| == w * h && a <= 3
  {
    if a == 0 then 0 else WallPart(g, w, h, i, j, a - 1) + ColumnPart(g, w, h, i, j, i - 1 + a - 1, 3)
  }

  /** `wc`: the eight neighbours of (i, j) summed, each one off the map counting as a wall. */
  function WallCount(g: seq<int>, w: int, h: int, i: int, j: int): int
    requires |g| == w * h
  {
    WallPart(g, w, h, i, j, 3)
  }

  /** The rule for a cell with `wc` walls around it: above `hi` a wall, below `lo` floor, else as it was. */
  function Rule(wc: int, was: int, hi: int, lo: int): (v: int)
    ensures wc > hi ==> v == 1
    ensures wc <= hi && wc < lo ==> v == 0
    ensures hi >= wc >= lo ==> v == was
  {
    if wc > hi then 1 else if wc < lo then 0 else was
  }

  /** Cell (x, y) given its new value from the current tiles. */
  function Update(g: seq<int>, w: int, h: int, hi: int, lo: int, x: int, y: int): (e: seq<int>)
    requires |g| == w * h && InGrid(w, h, x, y)
    ensures |e| == |g|
  {
    CellIndexInRange(w, h, x, y);
    g[CellIndex(w, x, y) := Rule(WallCount(g, w, h, x, y), g[CellIndex(w, x, y)], hi, lo)]
  }

  /** Column by column, row by row: the t-th cell visited is (t / h, t % h). */
  lemma VisitOrder(w: int, h: int, t: int)
    requires 0 <= h && 0 <= t < w * h
    ensures 0 < h && InGrid(w, h, t / h, t % h) && t == (t / h) * h + t % h
  {
    RowOfCell(t, h, w);
  }

  /** Cell (i, j) is visited (i·h + j)-th. */
  lemma VisitIndex(w: int, h: int, i: int, j: int)
    requires InGrid(w, h, i, j)
    ensures 0 <= i * h + j < w * h && (i * h + j) / h == i && (i * h + j) % h == j
    ensures (i * h + j) + 1 == (if j + 1 < h then i * h + (j + 1) else (i + 1) * h)
  {
    CellIndexInRange(h, w, j, i);
    CellIndexInverse(h, j, i);
  }

  /** The map after the first t cells of one in-place pass have been updated. */
  function Sweep(g: seq<int>, w: int, h: int, hi: int, lo: int, t: nat): (e: seq<int>)
    requires 0 <= w && 0 <= h && |g| == w * h && t <= w * h
    ensures |e| == |g|
  {
    if t == 0 then g
    else
      VisitOrder(w, h, t - 1);
      Update(Sweep(g, w, h, hi, lo, t - 1), w, h, hi, lo, (t - 1) / h, (t - 1) % h)
  }

  /** The map after k full passes. */
  function Passes(g: seq<int>, w: int, h: int, hi: int, lo: int, k: nat): (e: seq<int>)
    requires 0 <= w && 0 <= h && |g| == w * h
    ensures |e| == |g|
  {
    if k == 0 then g else Sweep(Passes(g, w, h, hi, lo, k - 1), w, h, hi, lo, w * h)
  }

  predicate Border(w: int, h: int, x: int, y: int) {
    x == 0 || x == w - 1 || y == 0 || y == h - 1
  }

  /** The starting tiles: walls on the border, inside a wall where `filled` says so. */
  function InitCell(w: int, h: int, filled: (int, int) -> bool, x: int, y: int): int {
    if Border(w, h, x, y) then 1 else if filled(x, y) then 1 else 0
  }

  function Initial(w: int, h: int, filled: (int, int) -> bool): (g: seq<int>)
    requires 0 <= w && 0 <= h
    ensures |g| == w * h
    ensures forall x, y :: InGrid(w, h, x, y) ==> Get(g, w, h, x, y) == InitCell(w, h, filled, x, y)
  {
    if w == 0 then []
    else
      var g := seq(w * h, k => InitCell(w, h, filled, k % w, k / w));
      assert forall x, y :: InGrid(w, h, x, y) ==> Get(g, w, h, x, y) == InitCell(w, h, filled, x, y) by {
        forall x, y | InGrid(w, h, x, y)
          ensures Get(g, w, h, x, y) == InitCell(w, h, filled, x, y)
        {
          CellIndexInverse(w, x, y);
        }
      }
      g
  }

  /** Every cell is 0 or 1. */
  ghost predicate Bits(g: seq<int>) {
    forall k :: 0 <= k < |g| ==> g[k] == 0 || g[k] == 1
  }

  /** Every border cell is a wall. */
  ghost predicate BorderWalls(g: seq<int>, w: int, h: int)
    requires |g| == w * h
  {
    forall x, y :: InGrid(w, h, x, y) && Border(w, h, x, y) ==> Get(g, w, h, x, y) == 1
  }

  lemma InitialWalled(w: int, h: int, filled: (int, int) -> bool)
    requires 0 <= w && 0 <= h
    ensures Bits(Initial(w, h, filled)) && BorderWalls(Initial(w, h, filled), w, h)
  {
    var g := Initial(w, h, filled);
    forall k | 0 <= k < |g|
      ensures g[k] == 0 || g[k] == 1
    {
      RowOfCell(k, w, h);
      assert g[k] == Get(g, w, h, k % w, k / w);
    }
  }

  lemma TermBounds(g: seq<int>, w: int, h: int, i: int, j: int, nx: int, ny: int)
    requires |g| == w * h && Bits(g)
    ensures 0 <= Term(g, w, h, i, j, nx, ny) <= 1
  {
  }

  /** The wall count as its nine terms, the centre one being 0. */
  lemma WallCountTerms(g: seq<int>, w: int, h: int, i: int, j: int)
    requires |g| == w * h
    ensures WallCount(g, w, h, i, j) ==
      Term(g, w, h, i, j, i - 1, j - 1) + Term(g, w, h, i, j, i - 1, j) + Term(g, w, h, i, j, i - 1, j + 1) +
      Term(g, w, h, i, j, i, j - 1) + Term(g, w, h, i, j, i, j) + Term(g, w, h, i, j, i, j + 1) +
      Term(g, w, h, i, j, i + 1, j - 1) + Term(g, w, h, i, j, i + 1, j) + Term(g, w, h, i, j, i + 1, j + 1)
  {
    forall nx | true
      ensures ColumnPart(g, w, h, i, j, nx, 3) ==
        Term(g, w, h, i, j, nx, j - 1) + Term(g, w, h, i, j, nx, j) + Term(g, w, h, i, j, nx, j + 1)
    {
      assert ColumnPart(g, w, h, i, j, nx, 1) == Term(g, w, h, i, j, nx, j - 1);
      assert ColumnPart(g, w, h, i, j, nx, 2) == ColumnPart(g, w, h, i, j, nx, 1) + Term(g, w, h, i, j, nx, j);
    }
    assert WallPart(g, w, h, i, j, 1) == ColumnPart(g, w, h, i, j, i - 1, 3);
    assert WallPart(g, w, h, i, j, 2) == WallPart(g, w, h, i, j, 1) + ColumnPart(g, w, h, i, j, i, 3);
  }

  /**
   * On a 0/1 map with a walled border, a border cell has at least 5
   * walls around it: three neighbours off the map and two along the
   * border (or off the map too).
   */
  lemma BorderCount(g: seq<int>, w: int, h: int, i: int, j: int)
    requires |g| == w * h && Bits(g) && BorderWalls(g, w, h) && InGrid(w, h, i, j) && Border(w, h, i, j)
    ensures WallCount(g, w, h, i, j) >= 5
  {
    WallCountTerms(g, w, h, i, j);
    forall nx, ny | true
      ensures 0 <= Term(g, w, h, i, j, nx, ny) <= 1
    {
      TermBounds(g, w, h, i, j, nx, ny);
    }
    if i == 0 || i == w - 1 {
      var side := if i == 0 then i - 1 else i + 1;
      assert Term(g, w, h, i, j, side, j - 1) == 1;
      assert Term(g, w, h, i, j, side, j) == 1;
      assert Term(g, w, h, i, j, side, j + 1) == 1;
      assert Term(g, w, h, i, j, i, j - 1) == 1;
      assert Term(g, w, h, i, j, i, j + 1) == 1;
    } else {
      var row := if j == 0 then j - 1 else j + 1;
      assert Term(g, w, h, i, j, i - 1, row) == 1;
      assert Term(g, w, h, i, j, i, row) == 1;
      assert Term(g, w, h, i, j, i + 1, row) == 1;
      assert Term(g, w, h, i, j, i - 1, j) == 1;
      assert Term(g, w, h, i, j, i + 1, j) == 1;
    }
  }

  /** One update keeps a 0/1 map with a walled border so, as long as 5 walls are above `hi`. */
  lemma UpdateWalled(g: seq<int>, w: int, h: int, hi: int, lo: int, x: int, y: int)
    requires |g| == w * h && InGrid(w, h, x, y) && hi < 5 && Bits(g) && BorderWalls(g, w, h)
    ensures Bits(Update(g, w, h, hi, lo, x, y)) && BorderWalls(Update(g, w, h, hi, lo, x, y), w, h)
  {
    var e := Update(g, w, h, hi, lo, x, y);
    if Border(w, h, x, y) {
      BorderCount(g, w, h, x, y);
    }
    forall a, b | InGrid(w, h, a, b) && Border(w, h, a, b)
      ensures Get(e, w, h, a, b) == 1
    {
      if CellIndex(w, a, b) == CellIndex(w, x, y) {
        CellIndexInjective(w, a, b, x, y);
      }
    }
  }

  lemma {:induction false} SweepWalled(g: seq<int>, w: int, h: int, hi: int, lo: int, t: nat)
    requires 0 <= w && 0 <= h && |g| == w * h && t <= w * h && hi < 5 && Bits(g) && BorderWalls(g, w, h)
    ensures Bits(Sweep(g, w, h, hi, lo, t)) && BorderWalls(Sweep(g, w, h, hi, lo, t), w, h)
  {
    if t > 0 {
      SweepWalled(g, w, h, hi, lo, t - 1);
      VisitOrder(w, h, t - 1);
      var s := Sweep(g, w, h, hi, lo, t - 1);
      UpdateWalled(s, w, h, hi, lo, (t - 1) / h, (t - 1) % h);
      assert Sweep(g, w, h, hi, lo, t) == Update(s, w, h, hi, lo, (t - 1) / h, (t - 1) % h);
    }
  }

  /** Updating cell (i, j) is the step from the (i·h + j)-th to the next map of a pass. */
  lemma SweepStep(g: seq<int>, w: int, h: int, hi: int, lo: int, i: int, j: int)
    requires 0 <= w && 0 <= h && |g| == w * h && InGrid(w, h, i, j)
    ensures 0 <= i * h + j < w * h
    ensures Sweep(g, w, h, hi, lo, i * h + j + 1) == Update(Sweep(g, w, h, hi, lo, i * h + j), w, h, hi, lo, i, j)
  {
    VisitIndex(w, h, i, j);
  }

  /**
   * With `hi` below 5 (4 in dungeon.c, the default `survival` in
   * cave.cpp), every pass keeps the cells 0 or 1 and the border walled.
   */
  lemma {:induction false} PassesWalled(w: int, h: int, filled: (int, int) -> bool, hi: int, lo: int, k: nat)
    requires 0 <= w && 0 <= h && hi < 5
    ensures var g := Passes(Initial(w, h, filled), w, h, hi, lo, k); Bits(g) && BorderWalls(g, w, h)
  {
    if k == 0 {
      InitialWalled(w, h, filled);
    } else {
      PassesWalled(w, h, filled, hi, lo, k - 1);
      SweepWalled(Passes(Initial(w, h, filled), w, h, hi, lo, k - 1), w, h, hi, lo, w * h);
    }
  }

  /** The wall count of (i, j), read off the map by the loops over nx and ny. */
  method CountWalls(tiles: TileGrid, i: int, j: int) returns (wc: int)
    requires tiles.Valid()
    ensures wc == WallCount(tiles.cells[..], tiles.w, tiles.h, i, j)
  {
    ghost var g := tiles.cells[..];
    wc := 0;
    var nx := i - 1;
    while nx <= i + 1
      invariant i - 1 <= nx <= i + 2
      invariant wc == WallPart(g, tiles.w, tiles.h, i, j, nx - (i - 1))
    {
      var ny := j - 1;
      while ny <= j + 1
        invariant j - 1 <= ny <= j + 2
        invariant wc == WallPart(g, tiles.w, tiles.h, i, j, nx - (i - 1)) + ColumnPart(g, tiles.w, tiles.h, i, j, nx, ny - (j - 1))
      {
        if nx >= 0 && nx < tiles.w && ny >= 0 && ny < tiles.h {
          if nx != i || ny != j {
            CellIndexInRange(tiles.w, tiles.h, nx, ny);
            wc := wc + tiles.cells[ny * tiles.w + nx];
          }
        } else {
          wc := wc + 1;
        }
        ny := ny + 1;
      }
      nx := nx + 1;
    }
  }

  /** One pass: every cell, column by column, given its new value in place. */
  method Pass(tiles: TileGrid, hi: int, lo: int)
    requires tiles.Valid()
    modifies tiles.cells
    ensures tiles.cells[..] == Sweep(old(tiles.cells[..]), tiles.w, tiles.h, hi, lo, tiles.w * tiles.h)
  {
    var w, h := tiles.w, tiles.h;
    ghost var g := tiles.cells[..];
    var i := 0;
    while i < w
      invariant 0 <= i <= w && i * h <= w * h
      invariant tiles.cells[..] == Sweep(g, w, h, hi, lo, i * h)
    {
      var j := 0;
      while j < h
        invariant 0 <= j <= h && i * h + j <= w * h
        invariant tiles.cells[..] == Sweep(g, w, h, hi, lo, i * h + j)
      {
        ghost var before := tiles.cells[..];
        var wc := CountWalls(tiles, i, j);
        SweepStep(g, w, h, hi, lo, i, j);
        CellIndexInRange(w, h, i, j);
        if wc > hi {
          tiles.cells[j * w + i] := 1;
        } else if wc < lo {
          tiles.cells[j * w + i] := 0;
        }
        assert tiles.cells[..] == Update(before, w, h, hi, lo, i, j);
        j := j + 1;
      }
      MulStep(i, h);
      MulMono(i + 1, w, h);
      i := i + 1;
    }
  }

  /** The first pair of loops: border cells walls, inner cells as `filled` says. */
  method Seed(tiles: TileGrid, filled: (int, int) -> bool)
    requires tiles.Valid()
    modifies tiles.cells
    ensures tiles.cells[..] == Initial(tiles.w, tiles.h, filled)
  {
    var w, h := tiles.w, tiles.h;
    var i := 0;
    while i < w
      invariant 0 <= i <= w
      invariant forall x, y :: InGrid(w, h, x, y) && x < i ==> Get(tiles.cells[..], w, h, x, y) == InitCell(w, h, filled, x, y)
    {
      var j := 0;
      while j < h
        invariant 0 <= j <= h
        invariant forall x, y :: InGrid(w, h, x, y) && (x < i || (x == i && y < j)) ==> Get(tiles.cells[..], w, h, x, y) == InitCell(w, h, filled, x, y)
      {
        CellIndexInRange(w, h, i, j);
        ghost var before := tiles.cells[..];
        tiles.cells[j * w + i] := if i == 0 || i == w - 1 || j == 0 || j == h - 1 then 1 else if filled(i, j) then 1 else 0;
        forall x, y | InGrid(w, h, x, y) && (x < i || (x == i && y < j))
          ensures Get(tiles.cells[..], w, h, x, y) == Get(before, w, h, x, y)
        {
          if CellIndex(w, x, y) == CellIndex(w, i, j) {
            CellIndexInjective(w, x, y, i, j);
          }
        }
        j := j + 1;
      }
      i := i + 1;
    }
    ghost var init := Initial(w, h, filled);
    forall k | 0 <= k < w * h
      ensures tiles.cells[k] == init[k]
    {
      RowOfCell(k, w, h);
      assert tiles.cells[k] == Get(tiles.cells[..], w, h, k % w, k / w);
    }
  }

  /**
   * The loops shared by `celluar_automata` (dungeon.c:205-237) and
   * `cave_t::cellular_automata` (cave.cpp:3-46): a fresh w·h map, walls on
   * the border and where `filled` says so, then `iterations` in-place
   * passes with the thresholds `hi` and `lo`.
   */
  method Automaton(w: int, h: int, filled: (int, int) -> bool, iterations: int, hi: int, lo: int) returns (tiles: TileGrid)
    requires 0 <= w && 0 <= h
    ensures fresh(tiles) && fresh(tiles.cells) && tiles.Valid() && tiles.w == w && tiles.h == h
    ensures tiles.cells[..] == Passes(Initial(w, h, filled), w, h, hi, lo, if iterations < 0 then 0 else iterations)
  {
    tiles := new TileGrid(w, h);
    Seed(tiles, filled);
    ghost var init := Initial(w, h, filled);
    ghost var n: nat := if iterations < 0 then 0 else iterations;
    var k := 0;
    while k < iterations
      invariant 0 <= k <= n
      invariant tiles.cells[..] == Passes(init, w, h, hi, lo, k)
    {
      Pass(tiles, hi, lo);
      k := k + 1;
    }
    assert k == n;
  }

  /**
   * `celluar_automata(w, h, fill_prob, iterations, survival, starve)`
   * (dungeon.c:205-237): an interior cell starts as a wall when
   * `RND_RANGE(0, 100) < fill_prob`, `rolls(x, y)` being the `rand()`
   * result drawn for it. The thresholds are the constants 4 and 3:
   * `survival` and `starve` play no part.
   */
  method CelluarAutomata(w: int, h: int, fillProb: int, iterations: int, survival: int, starve: int, rolls: (int, int) -> int)
    returns (tiles: TileGrid)
    requires 0 <= w && 0 <= h
    ensures fresh(tiles) && fresh(tiles.cells) && tiles.Valid() && tiles.w == w && tiles.h == h
    ensures tiles.cells[..] == Passes(Initial(w, h, (x, y) => RogueCommon.RndRange(rolls(x, y), 0, 100) < fillProb), w, h, 4, 3,
      if iterations < 0 then 0 else iterations)
    ensures Bits(tiles.cells[..]) && BorderWalls(tiles.cells[..], w, h)
  {
    var filled := (x, y) => RogueCommon.RndRange(rolls(x, y), 0, 100) < fillProb;
    tiles := Automaton(w, h, filled, iterations, 4, 3);
    PassesWalled(w, h, filled, 4, 3, if iterations < 0 then 0 else iterations);
  }

  /**
   * `cave_t::cellular_automata()` (cave.cpp:3-46): an interior cell starts
   * as a wall when the `fill_chance` draw `chance(x, y)` is below
   * `fill_prob`; the passes use `survival` and `starve`. The border stays
   * walled when `survival` is below 5, as the default 4 is.
   */
  method CellularAutomata(w: int, h: int, fillProb: int, iterations: int, survival: int, starve: int, chance: (int, int) -> int)
    returns (tiles: TileGrid)
    requires 0 <= w && 0 <= h
    ensures fresh(tiles) && fresh(tiles.cells) && tiles.Valid() && tiles.w == w && tiles.h == h
    ensures tiles.cells[..] == Passes(Initial(w, h, (x, y) => chance(x, y) < fillProb), w, h, survival, starve,
      if iterations < 0 then 0 else iterations)
    ensures survival < 5 ==> Bits(tiles.cells[..]) && BorderWalls(tiles.cells[..], w, h)
  {
    var filled := (x, y) => chance(x, y) < fillProb;
    tiles := Automaton(w, h, filled, iterations, survival, starve);
    if survival < 5 {
      PassesWalled(w, h, filled, survival, starve, if iterations < 0 then 0 else iterations);
    }
  }
}
