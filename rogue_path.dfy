// The corridors the roguelike's generators dig between two rooms:
// `draw_connection_path` (dungeon.c:314-359) and `cave_t::draw_connection`
// (cave.cpp:142-185) walk a Bresenham line from edge tile a to edge tile b
// and paint a disc of radius r with 9 around each point before stepping.
// The dungeon paints every disc cell inside the map; the cave paints only
// cells at least one in from the left and top edges whose column, on the
// line's current row, is not floor.
module RoguePath {
  import opened Grid
  import opened RogueCommon
  import opened RogueGrid
  import opened RogueRegions

  /** The stepping of a line: the long axis, its unit step, the short axis's unit step, both lengths. */
  datatype Line = Line(inverted: bool, step: int, grad: int, longest: int, shortest: int)

  /** The set-up of both functions: y is the long axis when |dx| < |dy|. */
  function LineOf(a: Point, b: Point): (ln: Line)
    ensures 0 <= ln.shortest <= ln.longest
    ensures ln.inverted <==> Abs(b.x - a.x) < Abs(b.y - a.y)
    ensures ln.longest == Max(Abs(b.x - a.x), Abs(b.y - a.y))
  {
    var dx, dy := b.x - a.x, b.y - a.y;
    if Abs(dx) < Abs(dy) then Line(true, Sign(dy), Sign(dx), Abs(dy), Abs(dx))
    else Line(false, Sign(dx), Sign(dy), Abs(dx), Abs(dy))
  }

  /** `longest / 2 + i * shortest`: the accumulator before any overflow is taken off. */
  function Progress(ln: Line, i: int): int {
    ln.longest / 2 + i * ln.shortest
  }

  /** How many short-axis steps the first i steps took. */
  function Fired(ln: Line, i: int): int
    requires 0 < ln.longest
  {
    Progress(ln, i) / ln.longest
  }

  /** The point after i steps, in closed form. */
  function Centre(a: Point, b: Point, i: int): Point
    requires 0 < LineOf(a, b).longest
  {
    var ln := LineOf(a, b);
    var f := Fired(ln, i);
    if ln.inverted then Point(a.x + f * ln.grad, a.y + i * ln.step)
    else Point(a.x + i * ln.step, a.y + f * ln.grad)
  }

  lemma DivUnique(n: int, d: int, q: int, m: int)
    requires 0 < d && n == d * q + m && 0 <= m < d
    ensures n / d == q && n % d == m
  {
    var q2, m2 := n / d, n % d;
    assert d * (q - q2) == m2 - m;
    if q - q2 >= 1 {
      MulMono(1, q - q2, d);
    } else if q - q2 <= -1 {
      MulMono(q - q2, -1, d);
    }
  }

  /**
   * One step of the loop: the accumulator gains `shortest`, and exactly
   * when it reaches `longest` a short-axis step is taken and `longest`
   * taken off again.
   */
  lemma FiredStep(ln: Line, i: int)
    requires 0 <= ln.shortest <= ln.longest && 0 < ln.longest
    ensures var acc, L := Progress(ln, i) % ln.longest, ln.longest;
      if acc + ln.shortest >= L then Fired(ln, i + 1) == Fired(ln, i) + 1 && Progress(ln, i + 1) % L == acc + ln.shortest - L
      else Fired(ln, i + 1) == Fired(ln, i) && Progress(ln, i + 1) % L == acc + ln.shortest
  {
    var L, S := ln.longest, ln.shortest;
    var n, f, acc := Progress(ln, i), Fired(ln, i), Progress(ln, i) % L;
    assert n == L * f + acc;
    MulStep(i, S);
    assert Progress(ln, i + 1) == n + S;
    if acc + S >= L {
      DivUnique(n + S, L, f + 1, acc + S - L);
    } else {
      DivUnique(n + S, L, f, acc + S);
    }
  }

  /** The accumulator starts at `longest / 2` with no short-axis step taken. */
  lemma FiredStart(ln: Line)
    requires 0 < ln.longest
    ensures Fired(ln, 0) == 0 && Progress(ln, 0) % ln.longest == ln.longest / 2
  {
    DivUnique(Progress(ln, 0), ln.longest, 0, ln.longest / 2);
  }

  /** After all `longest` steps exactly `shortest` short-axis steps were taken. */
  lemma FiredEnd(ln: Line)
    requires 0 <= ln.shortest && 0 < ln.longest
    ensures Fired(ln, ln.longest) == ln.shortest
  {
    DivUnique(Progress(ln, ln.longest), ln.longest, ln.shortest, ln.longest / 2);
  }

  /** Between 0 and `longest` steps, between 0 and `shortest` short-axis steps. */
  lemma FiredBounds(ln: Line, i: int)
    requires 0 <= ln.shortest <= ln.longest && 0 < ln.longest && 0 <= i <= ln.longest
    ensures 0 <= Fired(ln, i) <= ln.shortest
  {
    var L, S := ln.longest, ln.shortest;
    var p, f := Progress(ln, i), Fired(ln, i);
    MulMono(i, L, S);
    MulStep(S, L);
    assert p < (S + 1) * L;
    assert p == L * f + p % L;
    if f > S {
      MulMono(S + 1, f, L);
    } else if f < 0 {
      MulMono(f, -1, L);
    }
  }

  lemma SignScale(d: int)
    ensures Abs(d) * Sign(d) == d
  {
  }

  /** The walk starts at a and, after `longest` steps, ends at b. */
  lemma CentreEnds(a: Point, b: Point)
    requires 0 < LineOf(a, b).longest
    ensures Centre(a, b, 0) == a
    ensures Centre(a, b, LineOf(a, b).longest) == b
  {
    var ln := LineOf(a, b);
    FiredStart(ln);
    FiredEnd(ln);
    SignScale(b.x - a.x);
    SignScale(b.y - a.y);
  }

  /** Consecutive points of the walk are neighbours, diagonals included: the corridor has no gap. */
  lemma CentreStep(a: Point, b: Point, i: int)
    requires 0 < LineOf(a, b).longest
    ensures Abs(Centre(a, b, i + 1).x - Centre(a, b, i).x) <= 1
    ensures Abs(Centre(a, b, i + 1).y - Centre(a, b, i).y) <= 1
  {
    var ln := LineOf(a, b);
    FiredStep(ln, i);
    MulStep(i, ln.step);
    MulStep(Fired(ln, i), ln.grad);
  }

  /** The loop's update of x, y and the accumulator takes the walk from point i to point i + 1. */
  lemma Advance(a: Point, b: Point, i: int)
    requires 0 < LineOf(a, b).longest
    ensures var ln := LineOf(a, b);
      var acc, c, c2 := Progress(ln, i) % ln.longest, Centre(a, b, i), Centre(a, b, i + 1);
      var fire := acc + ln.shortest >= ln.longest;
      var side := if fire then ln.grad else 0;
      c2 == (if ln.inverted then Point(c.x + side, c.y + ln.step) else Point(c.x + ln.step, c.y + side)) &&
      Progress(ln, i + 1) % ln.longest == (if fire then acc + ln.shortest - ln.longest else acc + ln.shortest)
  {
    var ln := LineOf(a, b);
    FiredStep(ln, i);
    MulStep(i, ln.step);
    MulStep(Fired(ln, i), ln.grad);
  }

  /** Every point of the walk lies in the box spanned by a and b. */
  lemma CentreInBox(a: Point, b: Point, i: int)
    requires 0 < LineOf(a, b).longest && 0 <= i <= LineOf(a, b).longest
    ensures Min(a.x, b.x) <= Centre(a, b, i).x <= Max(a.x, b.x)
    ensures Min(a.y, b.y) <= Centre(a, b, i).y <= Max(a.y, b.y)
  {
    var ln := LineOf(a, b);
    var f := Fired(ln, i);
    FiredBounds(ln, i);
    SignScale(b.x - a.x);
    SignScale(b.y - a.y);
    if ln.inverted {
      Scaled(i, ln.longest, ln.step);
      Scaled(f, ln.shortest, ln.grad);
    } else {
      Scaled(i, ln.longest, ln.step);
      Scaled(f, ln.shortest, ln.grad);
    }
  }

  /** k unit steps of at most n lie between 0 and n steps. */
  lemma Scaled(k: int, n: int, s: int)
    requires 0 <= k <= n && (s == -1 || s == 0 || s == 1)
    ensures Min(0, n * s) <= k * s <= Max(0, n * s)
  {
  }

  /** A disc offset: inside the loops' square and within radius r. */
  predicate InDisc(r: int, dx: int, dy: int) {
    -r <= dx <= r && -r <= dy <= r && dx * dx + dy * dy <= r * r
  }

  /** The offsets the `cx`/`cy` loops have visited before (cl, yl). */
  predicate Before(dx: int, dy: int, cl: int, yl: int) {
    dx < cl || (dx == cl && dy < yl)
  }

  /**
   * Whether the painting around c writes cell (x, y) once the loops reach
   * (cl, yl), given the map g before that disc: any disc cell for the
   * dungeon; for the cave only one with 1 <= x and 1 <= y whose column x
   * is not floor on c's row.
   */
  predicate Paints(g: seq<int>, w: int, c: Point, r: int, cave: bool, x: int, y: int, cl: int, yl: int) {
    InDisc(r, x - c.x, y - c.y) && Before(x - c.x, y - c.y, cl, yl) &&
    (cave ==> 1 <= x && 1 <= y && Cell(g, w, x, c.y) != 0)
  }

  /** The map once the disc loops around c reach (cl, yl). */
  function Partial(g: seq<int>, w: int, c: Point, r: int, cave: bool, cl: int, yl: int): (p: seq<int>)
    ensures |p| == |g|
  {
    seq(|g|, q requires 0 <= q < |g| => if 0 < w && Paints(g, w, c, r, cave, q % w, q / w, cl, yl) then 9 else g[q])
  }

  /** The map after the whole disc around c. */
  function Disc(g: seq<int>, w: int, c: Point, r: int, cave: bool): (p: seq<int>)
    ensures |p| == |g|
  {
    Partial(g, w, c, r, cave, r + 1, -r)
  }

  /** Partial at a cell, by its coordinates. */
  lemma PartialAt(g: seq<int>, w: int, h: int, c: Point, r: int, cave: bool, cl: int, yl: int, x: int, y: int)
    requires |g| == w * h && InGrid(w, h, x, y)
    ensures 0 <= CellIndex(w, x, y) < |g|
    ensures Partial(g, w, c, r, cave, cl, yl)[CellIndex(w, x, y)] ==
      if Paints(g, w, c, r, cave, x, y, cl, yl) then 9 else g[CellIndex(w, x, y)]
  {
    CellIndexInRange(w, h, x, y);
    CellIndexInverse(w, x, y);
  }

  /** Visiting offset (cl, yl) paints at most its one cell. */
  lemma PartialStep(g: seq<int>, w: int, h: int, c: Point, r: int, cave: bool, cl: int, yl: int)
    requires |g| == w * h && 0 <= w
    ensures InGrid(w, h, c.x + cl, c.y + yl) ==> 0 <= CellIndex(w, c.x + cl, c.y + yl) < |g|
    ensures var x, y := c.x + cl, c.y + yl;
      Partial(g, w, c, r, cave, cl, yl + 1) ==
      if InGrid(w, h, x, y) && Paints(g, w, c, r, cave, x, y, cl, yl + 1)
      then Partial(g, w, c, r, cave, cl, yl)[CellIndex(w, x, y) := 9]
      else Partial(g, w, c, r, cave, cl, yl)
  {
    var x, y := c.x + cl, c.y + yl;
    var p, p2 := Partial(g, w, c, r, cave, cl, yl), Partial(g, w, c, r, cave, cl, yl + 1);
    if InGrid(w, h, x, y) {
      CellIndexInRange(w, h, x, y);
      CellIndexInverse(w, x, y);
    }
    forall q | 0 <= q < |g|
      ensures p2[q] == if InGrid(w, h, x, y) && Paints(g, w, c, r, cave, x, y, cl, yl + 1) && q == CellIndex(w, x, y) then 9 else p[q]
    {
      RowOfCell(q, w, h);
    }
  }

  /** Finishing column cl is starting column cl + 1. */
  lemma PartialColumn(g: seq<int>, w: int, c: Point, r: int, cave: bool, cl: int)
    ensures Partial(g, w, c, r, cave, cl, r + 1) == Partial(g, w, c, r, cave, cl + 1, -r)
  {
  }

  /** Before the first offset nothing is painted. */
  lemma PartialNone(g: seq<int>, w: int, c: Point, r: int, cave: bool)
    ensures Partial(g, w, c, r, cave, -r, -r) == g
  {
  }

  /**
   * The disc loops of both functions around (x, y): offsets (cx, cy) in
   * [-r, r]² with cx² + cy² <= r², painting 9. `cave` selects the cave's
   * guard, whose read `map[nx][y]` needs row y inside the map.
   */
  method PaintDisc(tiles: TileGrid, x: int, y: int, r: int, cave: bool)
    requires tiles.Valid() && (cave ==> 0 <= y < tiles.h)
    modifies tiles.cells
    ensures tiles.cells[..] == Disc(old(tiles.cells[..]), tiles.w, Point(x, y), r, cave)
  {
    ghost var g := tiles.cells[..];
    ghost var c := Point(x, y);
    ghost var w, h := tiles.w, tiles.h;
    PartialNone(g, w, c, r, cave);
    var cx := -r;
    while cx <= r
      invariant cx <= r + 1 || r < -r
      invariant tiles.cells[..] == Partial(g, w, c, r, cave, cx, -r)
      decreases r + 1 - cx
    {
      var cy := -r;
      while cy <= r
        invariant tiles.cells[..] == Partial(g, w, c, r, cave, cx, cy)
        decreases r + 1 - cy
      {
        PartialStep(g, w, h, c, r, cave, cx, cy);
        if cx * cx + cy * cy <= r * r {
          var nx, ny := x + cx, y + cy;
          if !cave {
            if 0 <= nx < tiles.w && 0 <= ny < tiles.h {
              CellIndexInRange(w, h, nx, ny);
              tiles.cells[CellIndex(tiles.w, nx, ny)] := 9;
            }
          } else if 1 <= nx && 1 <= ny && nx <= tiles.w - 1 && ny <= tiles.h - 1 {
            CellIndexInRange(w, h, nx, y);
            PartialAt(g, w, h, c, r, cave, cx, cy, nx, y);
            if tiles.cells[CellIndex(tiles.w, nx, y)] != 0 {
              CellIndexInRange(w, h, nx, ny);
              tiles.cells[CellIndex(tiles.w, nx, ny)] := 9;
            }
          }
        }
        cy := cy + 1;
      }
      PartialColumn(g, w, c, r, cave, cx);
      cx := cx + 1;
    }
  }

  /** The pen of the corridor loop: its point and its accumulator. */
  datatype Pen = Pen(at: Point, accum: int)

  /**
   * One step of the pen along ln: the long axis steps, the accumulator
   * gains `shortest`, and once it reaches `longest` the short axis steps
   * and `longest` is taken off again.
   */
  function Next(ln: Line, p: Pen): Pen {
    var fire := p.accum + ln.shortest >= ln.longest;
    var side := if fire then ln.grad else 0;
    Pen(if ln.inverted then Point(p.at.x + side, p.at.y + ln.step) else Point(p.at.x + ln.step, p.at.y + side),
        if fire then p.accum + ln.shortest - ln.longest else p.accum + ln.shortest)
  }

  /** The pen after i steps of the loop along ln from a. */
  function Trail(a: Point, ln: Line, i: nat): Pen {
    if i == 0 then Pen(a, ln.longest / 2) else Next(ln, Trail(a, ln, i - 1))
  }

  /** The stepping half of the loop body: the pen moves on by one step. */
  method Stride(ln: Line, x: int, y: int, accum: int) returns (x2: int, y2: int, accum2: int)
    ensures Pen(Point(x2, y2), accum2) == Next(ln, Pen(Point(x, y), accum))
  {
    x2, y2 := x, y;
    if ln.inverted {
      y2 := y2 + ln.step;
    } else {
      x2 := x2 + ln.step;
    }
    accum2 := accum + ln.shortest;
    if accum2 >= ln.longest {
      if ln.inverted {
        x2 := x2 + ln.grad;
      } else {
        y2 := y2 + ln.grad;
      }
      accum2 := accum2 - ln.longest;
    }
  }

  /** Step by step the pen goes through the closed-form points, its accumulator the remainder of `Progress`. */
  lemma {:induction false} TrailClosed(a: Point, b: Point, i: nat)
    requires 0 < LineOf(a, b).longest
    ensures Trail(a, LineOf(a, b), i) == Pen(Centre(a, b, i), Progress(LineOf(a, b), i) % LineOf(a, b).longest)
  {
    if i == 0 {
      FiredStart(LineOf(a, b));
      CentreEnds(a, b);
    } else {
      TrailClosed(a, b, i - 1);
      Advance(a, b, i - 1);
    }
  }

  /** The first n points of the walk along ln from a. */
  function Walk(a: Point, ln: Line, n: nat): (cs: seq<Point>)
    ensures |cs| == n
  {
    seq(n, i requires 0 <= i < n => Trail(a, ln, i).at)
  }

  /** The walk's points are the closed-form ones, inside the box of a and b. */
  lemma WalkCentre(a: Point, b: Point, n: nat, i: int)
    requires n <= LineOf(a, b).longest && 0 <= i < n
    ensures Walk(a, LineOf(a, b), n)[i] == Centre(a, b, i)
    ensures Min(a.x, b.x) <= Walk(a, LineOf(a, b), n)[i].x <= Max(a.x, b.x)
    ensures Min(a.y, b.y) <= Walk(a, LineOf(a, b), n)[i].y <= Max(a.y, b.y)
  {
    TrailClosed(a, b, i);
    CentreInBox(a, b, i);
  }

  /** The map after painting the discs around the points cs, in order. */
  function Discs(g: seq<int>, w: int, cs: seq<Point>, r: int, cave: bool): (p: seq<int>)
    ensures |p| == |g|
  {
    if cs == [] then g else Disc(Discs(g, w, cs[..|cs| - 1], r, cave), w, cs[|cs| - 1], r, cave)
  }

  /** One more point of the walk is one more disc. */
  lemma WalkSnoc(g: seq<int>, w: int, a: Point, ln: Line, i: nat, r: int, cave: bool)
    ensures Walk(a, ln, i + 1) == Walk(a, ln, i) + [Trail(a, ln, i).at]
    ensures Discs(g, w, Walk(a, ln, i + 1), r, cave) == Disc(Discs(g, w, Walk(a, ln, i), r, cave), w, Trail(a, ln, i).at, r, cave)
  {
    assert Walk(a, ln, i + 1) == Walk(a, ln, i) + [Trail(a, ln, i).at];
    assert Walk(a, ln, i + 1)[..i] == Walk(a, ln, i);
  }

  /** The map holds g with the discs around the first i points of the walk along ln from a painted. */
  ghost predicate Dug(cells: seq<int>, g: seq<int>, w: int, a: Point, ln: Line, i: nat, r: int, cave: bool) {
    cells == Discs(g, w, Walk(a, ln, i), r, cave)
  }

  /**
   * One pass of the corridor loop at step i: paint the disc around the
   * pen, then move the pen on.
   */
  method CorridorStep(tiles: TileGrid, a: Point, ghost b: Point, ln: Line, r: int, cave: bool, ghost g: seq<int>, ghost i: nat,
                      x: int, y: int, accum: int) returns (x2: int, y2: int, accum2: int)
    requires tiles.Valid() && ln == LineOf(a, b) && i < ln.longest
    requires cave ==> InMap(tiles.w, tiles.h, a) && InMap(tiles.w, tiles.h, b)
    requires Dug(tiles.cells[..], g, tiles.w, a, ln, i, r, cave)
    requires Pen(Point(x, y), accum) == Trail(a, ln, i)
    modifies tiles.cells
    ensures Dug(tiles.cells[..], g, tiles.w, a, ln, i + 1, r, cave)
    ensures Pen(Point(x2, y2), accum2) == Trail(a, ln, i + 1)
  {
    if cave {
      WalkCentre(a, b, i + 1, i);
      assert Walk(a, ln, i + 1)[i] == Point(x, y);
    }
    PaintDisc(tiles, x, y, r, cave);
    WalkSnoc(g, tiles.w, a, ln, i, r, cave);
    x2, y2, accum2 := Stride(ln, x, y, accum);
  }

  /**
   * The corridor loop shared by both functions, for a radius r already
   * drawn: paint the disc, step the long axis, add `shortest` to the
   * accumulator and step the short axis when it reaches `longest`.
   */
  method Corridor(tiles: TileGrid, a: Point, b: Point, r: int, cave: bool)
    requires tiles.Valid() && (cave ==> InMap(tiles.w, tiles.h, a) && InMap(tiles.w, tiles.h, b))
    modifies tiles.cells
    ensures tiles.cells[..] == Discs(old(tiles.cells[..]), tiles.w, Walk(a, LineOf(a, b), LineOf(a, b).longest), r, cave)
  {
    var x, y := a.x, a.y;
    var ln := LineOf(a, b);
    ghost var g := tiles.cells[..];
    var accum := ln.longest / 2;
    var i := 0;
    while i < ln.longest
      invariant 0 <= i <= ln.longest
      invariant Dug(tiles.cells[..], g, tiles.w, a, ln, i, r, cave)
      invariant Pen(Point(x, y), accum) == Trail(a, ln, i)
    {
      x, y, accum := CorridorStep(tiles, a, b, ln, r, cave, g, i, x, y, accum);
      i := i + 1;
    }
  }

  /** `draw_connection_path(map, a, b)` (dungeon.c:314-359), with `rand()` returning `roll`: r is `RND_RANGE(1, 3)`. */
  method DrawConnectionPath(tiles: TileGrid, a: Point, b: Point, roll: int)
    requires tiles.Valid()
    modifies tiles.cells
    ensures tiles.cells[..] == Discs(old(tiles.cells[..]), tiles.w, Walk(a, LineOf(a, b), LineOf(a, b).longest), RndRange(roll, 1, 3), false)
  {
    var r := RndRange(roll, 1, 3);
    Corridor(tiles, a, b, r, false);
  }

  /**
   * `cave_t::draw_connection(map, a, b)` (cave.cpp:142-185), with the
   * radius r that `fill_chance(1, 3)` drew. Both ends are edge tiles of
   * rooms, inside the map, which keeps the guard's read of row y inside.
   */
  method DrawConnection(tiles: TileGrid, a: Point, b: Point, r: int)
    requires tiles.Valid() && InMap(tiles.w, tiles.h, a) && InMap(tiles.w, tiles.h, b) && 1 <= r <= 3
    modifies tiles.cells
    ensures tiles.cells[..] == Discs(old(tiles.cells[..]), tiles.w, Walk(a, LineOf(a, b), LineOf(a, b).longest), r, true)
  {
    Corridor(tiles, a, b, r, true);
  }

  /** Cell (x, y) lies in the disc around one of the points cs. */
  ghost predicate Covered(cs: seq<Point>, r: int, x: int, y: int) {
    exists k :: 0 <= k < |cs| && InDisc(r, x - cs[k].x, y - cs[k].y)
  }

  /**
   * The dungeon's corridor: a cell of the map holds 9 after the discs
   * exactly when it lies in one of them, and is unchanged otherwise.
   */
  lemma {:induction false} DungeonCorridor(g: seq<int>, w: int, h: int, cs: seq<Point>, r: int, x: int, y: int)
    requires |g| == w * h && InGrid(w, h, x, y)
    ensures 0 <= CellIndex(w, x, y) < |g|
    ensures Discs(g, w, cs, r, false)[CellIndex(w, x, y)] ==
      if Covered(cs, r, x, y) then 9 else g[CellIndex(w, x, y)]
    decreases |cs|
  {
    CellIndexInRange(w, h, x, y);
    if cs != [] {
      var init, c := cs[..|cs| - 1], cs[|cs| - 1];
      DungeonCorridor(g, w, h, init, r, x, y);
      PartialAt(Discs(g, w, init, r, false), w, h, c, r, false, r + 1, -r, x, y);
      if InDisc(r, x - c.x, y - c.y) {
        assert Covered(cs, r, x, y);
      } else if Covered(cs, r, x, y) {
        var k :| 0 <= k < |cs| && InDisc(r, x - cs[k].x, y - cs[k].y);
        assert init[k] == cs[k];
        assert Covered(init, r, x, y);
      }
      if Covered(init, r, x, y) {
        var k :| 0 <= k < |init| && InDisc(r, x - init[k].x, y - init[k].y);
        assert init[k] == cs[k];
      }
    }
  }

  /** Cell (x, y) lies in the disc around one of the points cs and the cave's guard holds for it on map g. */
  ghost predicate GuardCovered(g: seq<int>, w: int, cs: seq<Point>, r: int, x: int, y: int) {
    exists k :: 0 <= k < |cs| && Paints(g, w, cs[k], r, true, x, y, r + 1, -r)
  }

  /**
   * The cave's corridor: a cell that changes becomes 9, lies in one of
   * the discs and at least one in from the left and top edges.
   */
  lemma {:induction false} CaveCorridorChanges(g: seq<int>, w: int, h: int, cs: seq<Point>, r: int, x: int, y: int)
    requires |g| == w * h && InGrid(w, h, x, y)
    ensures 0 <= CellIndex(w, x, y) < |g|
    ensures var v := Discs(g, w, cs, r, true)[CellIndex(w, x, y)];
      v != g[CellIndex(w, x, y)] ==> v == 9 && 1 <= x && 1 <= y && Covered(cs, r, x, y)
    decreases |cs|
  {
    CellIndexInRange(w, h, x, y);
    if cs != [] {
      var init, c := cs[..|cs| - 1], cs[|cs| - 1];
      CaveCorridorChanges(g, w, h, init, r, x, y);
      PartialAt(Discs(g, w, init, r, true), w, h, c, r, true, r + 1, -r, x, y);
      if InDisc(r, x - c.x, y - c.y) {
        assert Covered(cs, r, x, y);
      }
      if Covered(init, r, x, y) {
        var k :| 0 <= k < |init| && InDisc(r, x - init[k].x, y - init[k].y);
        assert init[k] == cs[k];
        assert Covered(cs, r, x, y);
      }
    }
  }

  /**
   * Every disc cell whose cave guard held on the map before the corridor
   * becomes 9: painting only ever writes 9, so a guard that held keeps
   * holding.
   */
  lemma {:induction false} CaveCorridorPaints(g: seq<int>, w: int, h: int, cs: seq<Point>, r: int, x: int, y: int)
    requires |g| == w * h && InGrid(w, h, x, y)
    requires forall k :: 0 <= k < |cs| ==> 0 <= cs[k].y < h
    ensures 0 <= CellIndex(w, x, y) < |g|
    ensures GuardCovered(g, w, cs, r, x, y) ==> Discs(g, w, cs, r, true)[CellIndex(w, x, y)] == 9
    decreases |cs|
  {
    CellIndexInRange(w, h, x, y);
    if GuardCovered(g, w, cs, r, x, y) {
      var init, c := cs[..|cs| - 1], cs[|cs| - 1];
      var prev := Discs(g, w, init, r, true);
      var k :| 0 <= k < |cs| && Paints(g, w, cs[k], r, true, x, y, r + 1, -r);
      PartialAt(prev, w, h, c, r, true, r + 1, -r, x, y);
      if k < |init| {
        assert init[k] == cs[k];
        assert GuardCovered(g, w, init, r, x, y);
        CaveCorridorPaints(g, w, h, init, r, x, y);
      } else {
        CaveCorridorChanges(g, w, h, init, r, x, c.y);
        CellIndexInRange(w, h, x, c.y);
        assert Cell(prev, w, x, c.y) != 0;
      }
    }
  }
}
