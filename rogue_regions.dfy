// The flood searches of the roguelike's cave generators:
// `get_region_tiles` (dungeon.c), a breadth-first search over a growing
// stretchy-buffer queue with a grid of flags, and its C++ twin
// `find_region_tiles` (cave.cpp), which walks the `nsew` neighbours and
// keeps a strip of `m` = 1 cells round the map out of every region.
module RogueRegions {
  import opened Grid
  import opened RogueGrid

  /** 4-connected neighbours. */
  predicate Adjacent(p: Point, q: Point) {
    (p.x == q.x && (p.y == q.y + 1 || q.y == p.y + 1)) || (p.y == q.y && (p.x == q.x + 1 || q.x == p.x + 1))
  }

  /** The value at (x, y) of a map held as a sequence, 0 off it. */
  function Cell(g: seq<int>, w: int, x: int, y: int): int {
    if 0 <= CellIndex(w, x, y) < |g| then g[CellIndex(w, x, y)] else 0
  }

  /** A cell a search may enter: at least m cells inside the map, its value `kind`. */
  predicate Admissible(g: seq<int>, w: int, h: int, m: int, kind: int, q: Point)
  {
    |g| == w * h && InGrid(w, h, q.x, q.y) && m <= q.x < w - m && m <= q.y < h - m && Cell(g, w, q.x, q.y) == kind
  }

  ghost predicate Distinct(s: seq<Point>) {
    forall i, j :: 0 <= i < j < |s| ==> s[i] != s[j]
  }

  /** Cell k of s is a neighbour of an earlier one. */
  ghost predicate HasParent(s: seq<Point>, k: int)
    requires 0 <= k < |s|
  {
    exists l :: 0 <= l < k && Adjacent(s[l], s[k])
  }

  /** Every cell after the first is a neighbour of an earlier one. */
  ghost predicate Grown(s: seq<Point>) {
    forall k :: 0 < k < |s| ==> HasParent(s, k)
  }

  /** Every admissible neighbour of the first n cells of c is in c. */
  ghost predicate Closed(g: seq<int>, w: int, h: int, m: int, kind: int, c: seq<Point>, n: int)
  {
    |g| == w * h &&
    forall k, q :: 0 <= k < n && k < |c| && Adjacent(c[k], q) && Admissible(g, w, h, m, kind, q) ==> q in c
  }

  /**
   * r is the region of `start`: `start` first, every cell once, each later
   * cell admissible and next to an earlier one, and no admissible
   * neighbour of any cell left out.
   */
  ghost predicate Region(g: seq<int>, w: int, h: int, m: int, kind: int, start: Point, r: seq<Point>)
  {
    |g| == w * h && 0 < |r| && r[0] == start && Distinct(r) && Grown(r) &&
    (forall k :: 0 < k < |r| ==> Admissible(g, w, h, m, kind, r[k])) &&
    Closed(g, w, h, m, kind, r, |r|)
  }

  lemma ClosedAt(g: seq<int>, w: int, h: int, m: int, kind: int, c: seq<Point>, n: int, k: int, q: Point)
    requires |g| == w * h && Closed(g, w, h, m, kind, c, n)
    requires 0 <= k < n && k < |c| && Adjacent(c[k], q) && Admissible(g, w, h, m, kind, q)
    ensures q in c
  {
  }

  /** A path of neighbouring cells. */
  ghost predicate Path(p: seq<Point>) {
    forall k :: 0 < k < |p| ==> Adjacent(p[k - 1], p[k])
  }

  /** Every cell reachable from the start over admissible cells is in the region. */
  lemma {:induction false} PathInRegion(g: seq<int>, w: int, h: int, m: int, kind: int, start: Point, r: seq<Point>, p: seq<Point>)
    requires |g| == w * h && Region(g, w, h, m, kind, start, r)
    requires 0 < |p| && p[0] == start && Path(p) && forall k :: 0 < k < |p| ==> Admissible(g, w, h, m, kind, p[k])
    ensures p[|p| - 1] in r
  {
    if |p| > 1 {
      var front := p[..|p| - 1];
      PathInRegion(g, w, h, m, kind, start, r, front);
      var last := p[|p| - 2];
      assert last == front[|front| - 1];
      var i :| 0 <= i < |r| && r[i] == last;
      ClosedAt(g, w, h, m, kind, r, |r|, i, p[|p| - 1]);
    }
  }

  /** Whatever contains the start and is closed contains the whole region: the region is the least such set. */
  lemma {:induction false} RegionLeast(g: seq<int>, w: int, h: int, m: int, kind: int, start: Point, r: seq<Point>, c: seq<Point>, k: int)
    requires |g| == w * h && Region(g, w, h, m, kind, start, r)
    requires start in c && Closed(g, w, h, m, kind, c, |c|) && 0 <= k < |r|
    ensures r[k] in c
    decreases k
  {
    if k > 0 {
      assert HasParent(r, k);
      var l :| 0 <= l < k && Adjacent(r[l], r[k]);
      RegionLeast(g, w, h, m, kind, start, r, c, l);
      var i :| 0 <= i < |c| && c[i] == r[l];
      ClosedAt(g, w, h, m, kind, c, |c|, i, r[k]);
    }
  }

  /**
   * A closed set that meets a region with an admissible start contains
   * that start: two regions of one kind that share a cell share their
   * starts.
   */
  lemma {:induction false} RegionReach(g: seq<int>, w: int, h: int, m: int, kind: int, start: Point, r: seq<Point>, c: seq<Point>, k: int)
    requires |g| == w * h && Region(g, w, h, m, kind, start, r) && Admissible(g, w, h, m, kind, start)
    requires Closed(g, w, h, m, kind, c, |c|) && 0 <= k < |r| && r[k] in c
    ensures start in c
    decreases k
  {
    if k > 0 {
      assert HasParent(r, k);
      var l :| 0 <= l < k && Adjacent(r[l], r[k]);
      var i :| 0 <= i < |c| && c[i] == r[k];
      assert Admissible(g, w, h, m, kind, r[l]);
      ClosedAt(g, w, h, m, kind, c, |c|, i, r[l]);
      RegionReach(g, w, h, m, kind, start, r, c, l);
    }
  }

  /** The number of unflagged cells, the measure that bounds a search. */
  function Zeros(s: seq<int>): (n: nat)
    ensures n <= |s|
  {
    if s == [] then 0 else Zeros(s[..|s| - 1]) + (if s[|s| - 1] == 0 then 1 else 0)
  }

  lemma {:induction false} ZerosSet(s: seq<int>, i: int, v: int)
    requires 0 <= i < |s| && s[i] == 0 && v != 0
    ensures Zeros(s[i := v]) == Zeros(s) - 1
    decreases |s|
  {
    var t := s[i := v];
    if i < |s| - 1 {
      assert t[..|t| - 1] == s[..|s| - 1][i := v];
      ZerosSet(s[..|s| - 1], i, v);
    } else {
      assert t[..|t| - 1] == s[..|s| - 1];
    }
  }

  /**
   * The state of a search from `start`: each queued cell once, in the map,
   * admissible after the first and next to an earlier one, and a flag set
   * on exactly the queued cells.
   */
  ghost predicate Searching(g: seq<int>, w: int, h: int, m: int, kind: int, start: Point, f: seq<int>, queue: seq<Point>)
  {
    |g| == w * h && |f| == w * h && 0 < |queue| && queue[0] == start && InGrid(w, h, start.x, start.y) && Distinct(queue) && Grown(queue) &&
    (forall k :: 0 < k < |queue| ==> Admissible(g, w, h, m, kind, queue[k])) &&
    (forall x, y :: InGrid(w, h, x, y) ==> (Cell(f, w, x, y) != 0 <==> Point(x, y) in queue))
  }

  /** Two maps of the same shape, the second one holding the flags of a search. */
  ghost predicate FlagsFor(tiles: TileGrid, flags: TileGrid)
    reads tiles, flags
  {
    tiles.Valid() && flags.Valid() && flags.w == tiles.w && flags.h == tiles.h && flags.cells != tiles.cells
  }

  /** Flagging a cell is queueing it. */
  lemma MarksPush(w: int, h: int, f: seq<int>, queue: seq<Point>, q: Point)
    requires |f| == w * h && InGrid(w, h, q.x, q.y) && 0 <= CellIndex(w, q.x, q.y) < |f|
    requires forall x, y :: InGrid(w, h, x, y) ==> (Cell(f, w, x, y) != 0 <==> Point(x, y) in queue)
    ensures var f2 := f[CellIndex(w, q.x, q.y) := 1];
      forall x, y :: InGrid(w, h, x, y) ==> (Cell(f2, w, x, y) != 0 <==> Point(x, y) in queue + [q])
  {
    var f2 := f[CellIndex(w, q.x, q.y) := 1];
    forall x, y | InGrid(w, h, x, y)
      ensures Cell(f2, w, x, y) != 0 <==> Point(x, y) in queue + [q]
    {
      if CellIndex(w, x, y) == CellIndex(w, q.x, q.y) {
        CellIndexInjective(w, x, y, q.x, q.y);
      }
    }
  }

  /** Queueing and flagging an unqueued admissible neighbour of a queued cell keeps a search a search. */
  lemma SearchPush(g: seq<int>, w: int, h: int, m: int, kind: int, start: Point, f: seq<int>, queue: seq<Point>, qi: int, q: Point)
    requires |g| == w * h && |f| == w * h && Searching(g, w, h, m, kind, start, f, queue)
    requires 0 <= qi < |queue| && Adjacent(queue[qi], q) && Admissible(g, w, h, m, kind, q) && q !in queue
    requires 0 <= CellIndex(w, q.x, q.y) < |f|
    ensures Searching(g, w, h, m, kind, start, f[CellIndex(w, q.x, q.y) := 1], queue + [q])
  {
    var next := queue + [q];
    MarksPush(w, h, f, queue, q);
    assert Distinct(next);
    forall k | 0 < k < |next|
      ensures HasParent(next, k)
    {
      if k == |queue| {
        assert Adjacent(next[qi], next[k]);
      } else {
        assert HasParent(queue, k);
        var l :| 0 <= l < k && Adjacent(queue[l], queue[k]);
        assert Adjacent(next[l], next[k]);
      }
    }
  }

  /**
   * One candidate (x, y) next to the cell being expanded (or that cell
   * itself): queued and flagged when it is unflagged and of the kind.
   */
  method Offer(tiles: TileGrid, flags: TileGrid, m: int, kind: int, start: Point, queue: seq<Point>, qi: int, x: int, y: int)
    returns (next: seq<Point>)
    requires FlagsFor(tiles, flags)
    requires Searching(tiles.cells[..], tiles.w, tiles.h, m, kind, start, flags.cells[..], queue)
    requires 0 <= qi < |queue| && (Point(x, y) == queue[qi] || Adjacent(queue[qi], Point(x, y)))
    requires InGrid(tiles.w, tiles.h, x, y) && m <= x < tiles.w - m && m <= y < tiles.h - m
    modifies flags.cells
    ensures Searching(tiles.cells[..], tiles.w, tiles.h, m, kind, start, flags.cells[..], next)
    ensures next == queue || next == queue + [Point(x, y)]
    ensures Admissible(tiles.cells[..], tiles.w, tiles.h, m, kind, Point(x, y)) ==> Point(x, y) in next
    ensures next == queue ==> flags.cells[..] == old(flags.cells[..])
    ensures next != queue ==> 2 * Zeros(flags.cells[..]) + |next| < 2 * Zeros(old(flags.cells[..])) + |queue|
  {
    var w, h := tiles.w, tiles.h;
    ghost var g, f := tiles.cells[..], flags.cells[..];
    CellIndexInRange(w, h, x, y);
    next := queue;
    var q := Point(x, y);
    if flags.cells[y * w + x] == 0 && tiles.cells[y * w + x] == kind {
      assert q !in queue by {
        assert Cell(f, w, x, y) == 0;
      }
      assert q != queue[qi];
      flags.cells[y * w + x] := 1;
      ZerosSet(f, y * w + x, 1);
      SearchPush(g, w, h, m, kind, start, f, queue, qi, q);
      next := queue + [q];
      assert flags.cells[..] == f[CellIndex(w, x, y) := 1];
    } else if flags.cells[y * w + x] != 0 {
      assert Cell(f, w, x, y) != 0;
    } else {
      assert Cell(g, w, x, y) != kind;
    }
  }

  /** The neighbours in the order `nsew` (common.hpp:46-52) lists them: north, south, east, west. */
  function Nsew(p: Point): (n: seq<Point>)
    ensures |n| == 4
  {
    [Point(p.x, p.y + 1), Point(p.x, p.y - 1), Point(p.x + 1, p.y), Point(p.x - 1, p.y)]
  }

  /** A queue that grows keeps the closure of its first n cells. */
  lemma ClosedExtend(g: seq<int>, w: int, h: int, m: int, kind: int, c: seq<Point>, d: seq<Point>, n: int)
    requires |g| == w * h && Closed(g, w, h, m, kind, c, n) && n <= |c| && c <= d
    ensures Closed(g, w, h, m, kind, d, n)
  {
    forall k, q | 0 <= k < n && k < |d| && Adjacent(d[k], q) && Admissible(g, w, h, m, kind, q)
      ensures q in d
    {
      assert d[k] == c[k];
      ClosedAt(g, w, h, m, kind, c, n, k, q);
      var i :| 0 <= i < |c| && c[i] == q;
      assert d[i] == q;
    }
  }

  /** Once cell n's admissible neighbours are queued, the first n + 1 cells are closed. */
  lemma ClosedNext(g: seq<int>, w: int, h: int, m: int, kind: int, c: seq<Point>, n: int)
    requires |g| == w * h && Closed(g, w, h, m, kind, c, n) && 0 <= n < |c|
    requires forall q :: Adjacent(c[n], q) && Admissible(g, w, h, m, kind, q) ==> q in c
    ensures Closed(g, w, h, m, kind, c, n + 1)
  {
  }

  /** What expanding cell qi of the queue achieves: its admissible neighbours queued, the rest kept. */
  ghost predicate Expanded(g: seq<int>, w: int, h: int, m: int, kind: int, queue: seq<Point>, qi: int, next: seq<Point>)
  {
    |g| == w * h && 0 <= qi < |queue| && queue <= next &&
    forall q :: Adjacent(queue[qi], q) && Admissible(g, w, h, m, kind, q) ==> q in next
  }

  /** The loop over y of `get_region_tiles` (dungeon.c:68-78): column x of the 3·3 block round `queue[qi]`. */
  method ExpandColumn(tiles: TileGrid, flags: TileGrid, kind: int, start: Point, queue: seq<Point>, qi: int, x: int)
    returns (next: seq<Point>)
    requires FlagsFor(tiles, flags)
    requires Searching(tiles.cells[..], tiles.w, tiles.h, 0, kind, start, flags.cells[..], queue) && 0 <= qi < |queue|
    requires queue[qi].x - 1 <= x <= queue[qi].x + 1
    modifies flags.cells
    ensures Searching(tiles.cells[..], tiles.w, tiles.h, 0, kind, start, flags.cells[..], next)
    ensures queue <= next
    ensures forall q :: Adjacent(queue[qi], q) && q.x == x && Admissible(tiles.cells[..], tiles.w, tiles.h, 0, kind, q) ==> q in next
    ensures 2 * Zeros(flags.cells[..]) + |next| <= 2 * Zeros(old(flags.cells[..])) + |queue|
  {
    var w, h := tiles.w, tiles.h;
    ghost var g, f := tiles.cells[..], flags.cells[..];
    var p := queue[qi];
    next := queue;
    var y := p.y - 1;
    while y <= p.y + 1
      invariant p.y - 1 <= y <= p.y + 2 && tiles.cells[..] == g
      invariant Searching(g, w, h, 0, kind, start, flags.cells[..], next)
      invariant queue <= next
      invariant 2 * Zeros(flags.cells[..]) + |next| <= 2 * Zeros(f) + |queue|
      invariant forall q :: Adjacent(p, q) && q.x == x && q.y < y && Admissible(g, w, h, 0, kind, q) ==> q in next
    {
      if x >= 0 && x < w && y >= 0 && y < h && (y == p.y || x == p.x) {
        assert next[qi] == p;
        next := Offer(tiles, flags, 0, kind, start, next, qi, x, y);
      }
      y := y + 1;
    }
  }

  /** The loops over x and y of `get_region_tiles` (dungeon.c:67-79) for the dequeued cell `queue[qi]`. */
  method ExpandPlus(tiles: TileGrid, flags: TileGrid, kind: int, start: Point, queue: seq<Point>, qi: int)
    returns (next: seq<Point>)
    requires FlagsFor(tiles, flags)
    requires Searching(tiles.cells[..], tiles.w, tiles.h, 0, kind, start, flags.cells[..], queue) && 0 <= qi < |queue|
    modifies flags.cells
    ensures Searching(tiles.cells[..], tiles.w, tiles.h, 0, kind, start, flags.cells[..], next)
    ensures Expanded(tiles.cells[..], tiles.w, tiles.h, 0, kind, queue, qi, next)
    ensures 2 * Zeros(flags.cells[..]) + |next| <= 2 * Zeros(old(flags.cells[..])) + |queue|
  {
    var w, h := tiles.w, tiles.h;
    ghost var g, f := tiles.cells[..], flags.cells[..];
    var p := queue[qi];
    next := queue;
    var x := p.x - 1;
    while x <= p.x + 1
      invariant p.x - 1 <= x <= p.x + 2 && tiles.cells[..] == g
      invariant Searching(g, w, h, 0, kind, start, flags.cells[..], next)
      invariant queue <= next
      invariant 2 * Zeros(flags.cells[..]) + |next| <= 2 * Zeros(f) + |queue|
      invariant forall q :: Adjacent(p, q) && q.x < x && Admissible(g, w, h, 0, kind, q) ==> q in next
    {
      ghost var before := next;
      assert next[qi] == p;
      next := ExpandColumn(tiles, flags, kind, start, next, qi, x);
      x := x + 1;
    }
  }

  /** The loop over `nsew(p)` of `find_region_tiles` (cave.cpp:62-70) for the dequeued cell `queue[qi]`. */
  method ExpandNsew(tiles: TileGrid, flags: TileGrid, kind: int, start: Point, queue: seq<Point>, qi: int)
    returns (next: seq<Point>)
    requires FlagsFor(tiles, flags)
    requires Searching(tiles.cells[..], tiles.w, tiles.h, 1, kind, start, flags.cells[..], queue) && 0 <= qi < |queue|
    modifies flags.cells
    ensures Searching(tiles.cells[..], tiles.w, tiles.h, 1, kind, start, flags.cells[..], next)
    ensures Expanded(tiles.cells[..], tiles.w, tiles.h, 1, kind, queue, qi, next)
    ensures 2 * Zeros(flags.cells[..]) + |next| <= 2 * Zeros(old(flags.cells[..])) + |queue|
  {
    var w, h := tiles.w, tiles.h;
    ghost var g, f := tiles.cells[..], flags.cells[..];
    var p := queue[qi];
    var neighbours := Nsew(p);
    next := queue;
    var n := 0;
    while n < 4
      invariant 0 <= n <= 4 && tiles.cells[..] == g
      invariant Searching(g, w, h, 1, kind, start, flags.cells[..], next)
      invariant queue <= next
      invariant 2 * Zeros(flags.cells[..]) + |next| <= 2 * Zeros(f) + |queue|
      invariant forall l :: 0 <= l < n && Admissible(g, w, h, 1, kind, neighbours[l]) ==> neighbours[l] in next
    {
      var q := neighbours[n];
      if !(q.x < 1 || q.y < 1 || q.x >= w - 1 || q.y >= h - 1) {
        assert next[qi] == p;
        next := Offer(tiles, flags, 1, kind, start, next, qi, q.x, q.y);
      }
      n := n + 1;
    }
    forall q | Adjacent(p, q) && Admissible(g, w, h, 1, kind, q)
      ensures q in next
    {
      NsewNeighbours(p, q);
    }
  }

  /** A fresh flag grid with only the start flagged, and the queue holding just the start. */
  method StartSearch(tiles: TileGrid, m: int, sx: int, sy: int) returns (flags: TileGrid, queue: seq<Point>)
    requires tiles.Valid() && InGrid(tiles.w, tiles.h, sx, sy)
    ensures fresh(flags) && fresh(flags.cells) && FlagsFor(tiles, flags)
    ensures queue == [Point(sx, sy)]
    ensures Searching(tiles.cells[..], tiles.w, tiles.h, m, Get(tiles.cells[..], tiles.w, tiles.h, sx, sy), Point(sx, sy), flags.cells[..], queue)
  {
    var w, h := tiles.w, tiles.h;
    flags := new TileGrid(w, h);
    CellIndexInRange(w, h, sx, sy);
    flags.cells[sy * w + sx] := 1;
    queue := [Point(sx, sy)];
    forall a, b | InGrid(w, h, a, b)
      ensures Cell(flags.cells[..], w, a, b) != 0 <==> Point(a, b) in queue
    {
      if CellIndex(w, a, b) == CellIndex(w, sx, sy) {
        CellIndexInjective(w, a, b, sx, sy);
      }
    }
  }

  /** The four cells `nsew` lists are exactly the neighbours. */
  lemma NsewNeighbours(p: Point, q: Point)
    ensures Adjacent(p, q) <==> q in Nsew(p)
  {
  }

  /**
   * `get_region_tiles(map, start_x, start_y)` (dungeon.c:55-85): the cells
   * 4-connected to the start over cells of its value, each once, in the
   * order the search dequeues them.
   */
  method RegionTiles(tiles: TileGrid, sx: int, sy: int) returns (ret: seq<Point>)
    requires tiles.Valid() && InGrid(tiles.w, tiles.h, sx, sy)
    ensures Region(tiles.cells[..], tiles.w, tiles.h, 0, Get(tiles.cells[..], tiles.w, tiles.h, sx, sy), Point(sx, sy), ret)
  {
    var w, h := tiles.w, tiles.h;
    ghost var g := tiles.cells[..];
    var flags, queue := StartSearch(tiles, 0, sx, sy);
    var start := Point(sx, sy);
    CellIndexInRange(w, h, sx, sy);
    var qi := 0;
    var kind := tiles.cells[sy * w + sx];
    ret := [];
    while qi < |queue|
      invariant FlagsFor(tiles, flags) && fresh(flags.cells) && tiles.cells[..] == g
      invariant Searching(g, w, h, 0, kind, start, flags.cells[..], queue)
      invariant 0 <= qi <= |queue| && ret == queue[..qi]
      invariant Closed(g, w, h, 0, kind, queue, qi)
      decreases 2 * Zeros(flags.cells[..]) + |queue| - qi
    {
      var p := queue[qi];
      ret := ret + [p];
      var next := ExpandPlus(tiles, flags, kind, start, queue, qi);
      ClosedExtend(g, w, h, 0, kind, queue, next, qi);
      ClosedNext(g, w, h, 0, kind, next, qi);
      assert ret == next[..qi + 1] by {
        assert queue[..qi + 1] == queue[..qi] + [p];
        assert forall k :: 0 <= k <= qi ==> next[k] == queue[k];
      }
      queue := next;
      qi := qi + 1;
    }
    assert ret == queue;
  }

  /**
   * `find_region_tiles(in, start_x, start_y)` (cave.cpp:48-73): the same
   * search over the `nsew` neighbours, entering only cells at least one
   * cell inside the map. The `std::queue` is the sequence of every cell
   * pushed, read from index `qi`.
   */
  method FindRegionTiles(tiles: TileGrid, sx: int, sy: int) returns (ret: seq<Point>)
    requires tiles.Valid() && InGrid(tiles.w, tiles.h, sx, sy)
    ensures Region(tiles.cells[..], tiles.w, tiles.h, 1, Get(tiles.cells[..], tiles.w, tiles.h, sx, sy), Point(sx, sy), ret)
  {
    var w, h := tiles.w, tiles.h;
    ghost var g := tiles.cells[..];
    var flags, queue := StartSearch(tiles, 1, sx, sy);
    var start := Point(sx, sy);
    CellIndexInRange(w, h, sx, sy);
    var qi := 0;
    var kind := tiles.cells[sy * w + sx];
    ret := [];
    while qi < |queue|
      invariant FlagsFor(tiles, flags) && fresh(flags.cells) && tiles.cells[..] == g
      invariant Searching(g, w, h, 1, kind, start, flags.cells[..], queue)
      invariant 0 <= qi <= |queue| && ret == queue[..qi]
      invariant Closed(g, w, h, 1, kind, queue, qi)
      decreases 2 * Zeros(flags.cells[..]) + |queue| - qi
    {
      var p := queue[qi];
      ret := ret + [p];
      var next := ExpandNsew(tiles, flags, kind, start, queue, qi);
      ClosedExtend(g, w, h, 1, kind, queue, next, qi);
      ClosedNext(g, w, h, 1, kind, next, qi);
      assert ret == next[..qi + 1] by {
        assert queue[..qi + 1] == queue[..qi] + [p];
        assert forall k :: 0 <= k <= qi ==> next[k] == queue[k];
      }
      queue := next;
      qi := qi + 1;
    }
    assert ret == queue;
  }
}

module RogueLabels {
  import opened Grid
  import opened RogueGrid
  import opened RogueRegions

  /** p lies in one of the regions. */
  ghost predicate Covers(regs: seq<seq<Point>>, p: Point) {
    exists a :: 0 <= a < |regs| && p in regs[a]
  }

  /** No cell lies in two of the regions. */
  ghost predicate Disjoint(regs: seq<seq<Point>>) {
    forall a, b, p :: 0 <= a < b < |regs| && p in regs[a] ==> p !in regs[b]
  }

  /** r is the region of its own start, which is admissible. */
  ghost predicate RegionOf(g: seq<int>, w: int, h: int, m: int, kind: int, r: seq<Point>) {
    0 < |r| && Admissible(g, w, h, m, kind, r[0]) && Region(g, w, h, m, kind, r[0], r)
  }

  ghost predicate AllRegions(g: seq<int>, w: int, h: int, m: int, kind: int, regs: seq<seq<Point>>) {
    forall a :: 0 <= a < |regs| ==> RegionOf(g, w, h, m, kind, regs[a])
  }

  /** The flags are set on exactly the cells the regions cover. */
  ghost predicate Labelled(f: seq<int>, w: int, h: int, regs: seq<seq<Point>>, more: seq<seq<Point>>) {
    forall x, y :: InGrid(w, h, x, y) ==> (Cell(f, w, x, y) != 0 <==> Covers(regs, Point(x, y)) || Covers(more, Point(x, y)))
  }

  /** Every cell of a region with an admissible start is admissible. */
  lemma RegionCells(g: seq<int>, w: int, h: int, m: int, kind: int, r: seq<Point>, p: Point)
    requires RegionOf(g, w, h, m, kind, r) && p in r
    ensures Admissible(g, w, h, m, kind, p)
  {
  }

  /** A region whose start no other region covers shares no cell with them. */
  lemma FreshRegion(g: seq<int>, w: int, h: int, m: int, kind: int, regs: seq<seq<Point>>, r: seq<Point>)
    requires AllRegions(g, w, h, m, kind, regs) && Disjoint(regs)
    requires RegionOf(g, w, h, m, kind, r) && !Covers(regs, r[0])
    ensures Disjoint(regs + [r]) && AllRegions(g, w, h, m, kind, regs + [r])
  {
    var all := regs + [r];
    forall a, b, p | 0 <= a < b < |all| && p in all[a]
      ensures p !in all[b]
    {
      if b == |regs| && p in r {
        var k :| 0 <= k < |r| && r[k] == p;
        RegionReach(g, w, h, m, kind, r[0], r, regs[a], k);
        assert false;
      }
    }
  }

  /** Flagging the cells of r. */
  method FlagAll(flags: TileGrid, r: seq<Point>)
    requires flags.Valid() && forall k :: 0 <= k < |r| ==> InGrid(flags.w, flags.h, r[k].x, r[k].y)
    modifies flags.cells
    ensures forall x, y :: InGrid(flags.w, flags.h, x, y) ==>
      (Cell(flags.cells[..], flags.w, x, y) != 0 <==> Cell(old(flags.cells[..]), flags.w, x, y) != 0 || Point(x, y) in r)
  {
    var w, h := flags.w, flags.h;
    ghost var f := flags.cells[..];
    var k := 0;
    while k < |r|
      invariant 0 <= k <= |r|
      invariant forall x, y :: InGrid(w, h, x, y) ==>
        (Cell(flags.cells[..], w, x, y) != 0 <==> Cell(f, w, x, y) != 0 || Point(x, y) in r[..k])
    {
      var p := r[k];
      CellIndexInRange(w, h, p.x, p.y);
      ghost var before := flags.cells[..];
      flags.cells[p.y * w + p.x] := 1;
      forall x, y | InGrid(w, h, x, y)
        ensures Cell(flags.cells[..], w, x, y) != 0 <==> Cell(f, w, x, y) != 0 || Point(x, y) in r[..k + 1]
      {
        assert r[..k + 1] == r[..k] + [p];
        CellIndexInRange(w, h, x, y);
        if CellIndex(w, x, y) == CellIndex(w, p.x, p.y) {
          CellIndexInjective(w, x, y, p.x, p.y);
        }
      }
      k := k + 1;
    }
    assert r[..k] == r;
  }

  /** With a region appended and its cells flagged, the flags still label the regions. */
  lemma LabelledAppend(f: seq<int>, f2: seq<int>, w: int, h: int, regs: seq<seq<Point>>, more: seq<seq<Point>>, r: seq<Point>)
    requires Labelled(f, w, h, regs, more)
    requires forall x, y :: InGrid(w, h, x, y) ==> (Cell(f2, w, x, y) != 0 <==> Cell(f, w, x, y) != 0 || Point(x, y) in r)
    ensures Labelled(f2, w, h, regs + [r], more) && Labelled(f2, w, h, more, regs + [r])
  {
    forall x, y | InGrid(w, h, x, y)
      ensures Cell(f2, w, x, y) != 0 <==> Covers(regs + [r], Point(x, y)) || Covers(more, Point(x, y))
    {
      var p := Point(x, y);
      if p in r {
        assert (regs + [r])[|regs|] == r;
      }
      if Covers(regs, p) {
        var a :| 0 <= a < |regs| && p in regs[a];
        assert (regs + [r])[a] == regs[a];
      }
      if Covers(regs + [r], p) {
        var a :| 0 <= a < |regs + [r]| && p in (regs + [r])[a];
        if a < |regs| {
          assert regs[a] == (regs + [r])[a];
        }
      }
    }
  }

  /** The state of `get_regions` after some cells: floor regions, wall regions, flags on their cells. */
  ghost predicate Labelling(g: seq<int>, f: seq<int>, w: int, h: int, floors: seq<seq<Point>>, walls: seq<seq<Point>>) {
    AllRegions(g, w, h, 0, 0, floors) && AllRegions(g, w, h, 0, 1, walls) &&
    Disjoint(floors) && Disjoint(walls) && Labelled(f, w, h, floors, walls)
  }

  /** The body of the loops of `get_regions` (dungeon.c:244-253) for cell (i, j). */
  method LabelCell(tiles: TileGrid, flags: TileGrid, floors: seq<seq<Point>>, walls: seq<seq<Point>>, i: int, j: int)
    returns (floors': seq<seq<Point>>, walls': seq<seq<Point>>)
    requires FlagsFor(tiles, flags) && Bits(tiles.cells[..]) && InGrid(tiles.w, tiles.h, i, j)
    requires Labelling(tiles.cells[..], flags.cells[..], tiles.w, tiles.h, floors, walls)
    modifies flags.cells
    ensures Labelling(tiles.cells[..], flags.cells[..], tiles.w, tiles.h, floors', walls')
    ensures Cell(flags.cells[..], tiles.w, i, j) != 0
    ensures forall x, y :: InGrid(tiles.w, tiles.h, x, y) && Cell(old(flags.cells[..]), tiles.w, x, y) != 0 ==> Cell(flags.cells[..], tiles.w, x, y) != 0
  {
    var w, h := tiles.w, tiles.h;
    ghost var g, f := tiles.cells[..], flags.cells[..];
    CellIndexInRange(w, h, i, j);
    floors', walls' := floors, walls;
    if flags.cells[j * w + i] == 0 {
      var r := RegionTiles(tiles, i, j);
      var v := tiles.cells[j * w + i];
      assert Cell(f, w, i, j) == 0 && r[0] == Point(i, j);
      forall k | 0 <= k < |r|
        ensures InGrid(w, h, r[k].x, r[k].y)
      {
        if k > 0 {
          assert Admissible(g, w, h, 0, v, r[k]);
        }
      }
      FlagAll(flags, r);
      assert v == 0 || v == 1;
      if v == 0 {
        FreshRegion(g, w, h, 0, 0, floors, r);
        floors' := floors + [r];
        LabelledAppend(f, flags.cells[..], w, h, floors, walls, r);
      } else {
        FreshRegion(g, w, h, 0, 1, walls, r);
        walls' := walls + [r];
        LabelledAppend(f, flags.cells[..], w, h, walls, floors, r);
        assert Labelled(flags.cells[..], w, h, floors', walls');
      }
    }
  }

  /**
   * `get_regions(out, map, w, h)` (dungeon.c:239-256) on a map of 0s and
   * 1s, with `out[0]` and `out[1]` empty: `floors` and `walls` are the
   * regions it appends to them, column by column. Every region is the
   * region of its start, no two regions of a list share a cell, and every
   * cell of the map lies in one of them.
   */
  method GetRegions(tiles: TileGrid) returns (floors: seq<seq<Point>>, walls: seq<seq<Point>>)
    requires tiles.Valid() && Bits(tiles.cells[..])
    ensures AllRegions(tiles.cells[..], tiles.w, tiles.h, 0, 0, floors) && AllRegions(tiles.cells[..], tiles.w, tiles.h, 0, 1, walls)
    ensures Disjoint(floors) && Disjoint(walls)
    ensures forall x, y :: InGrid(tiles.w, tiles.h, x, y) ==> Covers(floors, Point(x, y)) || Covers(walls, Point(x, y))
  {
    var w, h := tiles.w, tiles.h;
    ghost var g := tiles.cells[..];
    var flags := new TileGrid(w, h);
    floors, walls := [], [];
    var i := 0;
    while i < w
      invariant 0 <= i <= w && FlagsFor(tiles, flags) && fresh(flags.cells) && tiles.cells[..] == g
      invariant Labelling(g, flags.cells[..], w, h, floors, walls)
      invariant forall x, y :: InGrid(w, h, x, y) && x < i ==> Cell(flags.cells[..], w, x, y) != 0
    {
      var j := 0;
      while j < h
        invariant 0 <= j <= h && FlagsFor(tiles, flags) && tiles.cells[..] == g
        invariant Labelling(g, flags.cells[..], w, h, floors, walls)
        invariant forall x, y :: InGrid(w, h, x, y) && (x < i || (x == i && y < j)) ==> Cell(flags.cells[..], w, x, y) != 0
      {
        floors, walls := LabelCell(tiles, flags, floors, walls, i, j);
        j := j + 1;
      }
      i := i + 1;
    }
  }

  /**
   * What `get_regions` promises: a cell of value v lies in exactly one
   * region, and that region is in the list for v.
   */
  lemma RegionsPartition(g: seq<int>, w: int, h: int, floors: seq<seq<Point>>, walls: seq<seq<Point>>, p: Point)
    requires AllRegions(g, w, h, 0, 0, floors) && AllRegions(g, w, h, 0, 1, walls)
    requires Disjoint(floors) && Disjoint(walls) && (Covers(floors, p) || Covers(walls, p))
    ensures var own := if Cell(g, w, p.x, p.y) == 0 then floors else walls;
      var other := if Cell(g, w, p.x, p.y) == 0 then walls else floors;
      !Covers(other, p) && exists a :: 0 <= a < |own| && p in own[a] && forall b :: 0 <= b < |own| && p in own[b] ==> b == a
  {
    var v := Cell(g, w, p.x, p.y);
    if Covers(floors, p) {
      var a :| 0 <= a < |floors| && p in floors[a];
      RegionCells(g, w, h, 0, 0, floors[a], p);
    }
    if Covers(walls, p) {
      var a :| 0 <= a < |walls| && p in walls[a];
      RegionCells(g, w, h, 0, 1, walls[a], p);
    }
    var own := if v == 0 then floors else walls;
    var a :| 0 <= a < |own| && p in own[a];
    forall b | 0 <= b < |own| && p in own[b]
      ensures b == a
    {
    }
  }

  /** The state of `find_regions`: regions of `kind` away from the border, flags on their cells. */
  ghost predicate Finding(g: seq<int>, f: seq<int>, w: int, h: int, kind: int, regs: seq<seq<Point>>) {
    AllRegions(g, w, h, 1, kind, regs) && Disjoint(regs) && Labelled(f, w, h, regs, [])
  }

  /** The body of the loops of `find_regions` (cave.cpp:78-88) for cell (i, j). */
  method FindCell(tiles: TileGrid, flags: TileGrid, kind: int, regs: seq<seq<Point>>, i: int, j: int)
    returns (regs': seq<seq<Point>>)
    requires FlagsFor(tiles, flags) && 1 <= i < tiles.w - 1 && 1 <= j < tiles.h - 1
    requires Finding(tiles.cells[..], flags.cells[..], tiles.w, tiles.h, kind, regs)
    modifies flags.cells
    ensures Finding(tiles.cells[..], flags.cells[..], tiles.w, tiles.h, kind, regs')
    ensures Get(tiles.cells[..], tiles.w, tiles.h, i, j) == kind ==> Cell(flags.cells[..], tiles.w, i, j) != 0
    ensures forall x, y :: InGrid(tiles.w, tiles.h, x, y) && Cell(old(flags.cells[..]), tiles.w, x, y) != 0 ==> Cell(flags.cells[..], tiles.w, x, y) != 0
  {
    var w, h := tiles.w, tiles.h;
    ghost var g, f := tiles.cells[..], flags.cells[..];
    CellIndexInRange(w, h, i, j);
    regs' := regs;
    if flags.cells[j * w + i] != 0 || tiles.cells[j * w + i] != kind {
      return;
    }
    var r := FindRegionTiles(tiles, i, j);
    assert Cell(f, w, i, j) == 0 && r[0] == Point(i, j);
    forall k | 0 <= k < |r|
      ensures InGrid(w, h, r[k].x, r[k].y)
    {
      if k > 0 {
        assert Admissible(g, w, h, 1, kind, r[k]);
      }
    }
    FlagAll(flags, r);
    FreshRegion(g, w, h, 1, kind, regs, r);
    regs' := regs + [r];
    LabelledAppend(f, flags.cells[..], w, h, regs, [], r);
  }

  /**
   * `find_regions(in, type, out)` (cave.cpp:75-89), run on its own rather
   * than on a thread, with `out` empty: the regions of `type` it appends.
   * Searches start only at cells of `type` at least one cell inside the
   * map; no two regions share a cell, and every such cell lies in one.
   */
  method FindRegions(tiles: TileGrid, kind: int) returns (regs: seq<seq<Point>>)
    requires tiles.Valid()
    ensures AllRegions(tiles.cells[..], tiles.w, tiles.h, 1, kind, regs) && Disjoint(regs)
    ensures forall x, y :: Admissible(tiles.cells[..], tiles.w, tiles.h, 1, kind, Point(x, y)) ==> Covers(regs, Point(x, y))
  {
    var w, h := tiles.w, tiles.h;
    ghost var g := tiles.cells[..];
    var flags := new TileGrid(w, h);
    regs := [];
    var i := 1;
    while i < w - 1
      invariant 1 <= i && (i <= w - 1 || w < 2) && FlagsFor(tiles, flags) && fresh(flags.cells) && tiles.cells[..] == g
      invariant Finding(g, flags.cells[..], w, h, kind, regs)
      invariant forall x, y :: Admissible(g, w, h, 1, kind, Point(x, y)) && x < i ==> Cell(flags.cells[..], w, x, y) != 0
    {
      var j := 1;
      while j < h - 1
        invariant 1 <= j && (j <= h - 1 || h < 2) && FlagsFor(tiles, flags) && tiles.cells[..] == g
        invariant Finding(g, flags.cells[..], w, h, kind, regs)
        invariant forall x, y :: Admissible(g, w, h, 1, kind, Point(x, y)) && (x < i || (x == i && y < j)) ==> Cell(flags.cells[..], w, x, y) != 0
      {
        regs := FindCell(tiles, flags, kind, regs, i, j);
        j := j + 1;
      }
      i := i + 1;
    }
  }
}
