// The rooms of cave.cpp: `get_rooms` turns the floor regions into rooms
// numbered by their place in the list, picks the first largest as the
// main room and marks as edges the tiles with a nonzero neighbour;
// `finalize_map` turns walls 1 into 8 and shades each edge tile by the
// open cells above and to the left of it.
module RogueCave {
  import opened Grid
  import opened RogueGrid
  import opened RogueRegions
  import opened RogueRooms
  import opened Strings
  import RogueLabels

  /** `std::max_element` by size over the regions (cave.cpp:114): the first largest, 0 when there is none. */
  function FirstLargestOf(regs: seq<seq<Point>>): (m: int)
    ensures regs == [] ==> m == 0
    ensures regs != [] ==> 0 <= m < |regs|
    ensures regs != [] ==> forall k :: 0 <= k < |regs| ==> |regs[k]| <= |regs[m]|
    ensures regs != [] ==> forall k :: 0 <= k < m ==> |regs[k]| < |regs[m]|
  {
    if |regs| <= 1 then 0
    else
      var m := FirstLargestOf(regs[..|regs| - 1]);
      assert forall k :: 0 <= k < |regs| - 1 ==> regs[..|regs| - 1][k] == regs[k];
      if |regs[|regs| - 1]| > |regs[m]| then |regs| - 1 else m
  }

  /** Tile v has a nonzero cell among its `nsew` neighbours. */
  predicate TouchesWall(g: seq<int>, w: int, v: Point) {
    exists k :: 0 <= k < 4 && Cell(g, w, Nsew(v)[k].x, Nsew(v)[k].y) != 0
  }

  /** The edge tiles of a room with tiles ts (cave.cpp:119-127): those touching a wall, each once, in order. */
  function CaveEdges(g: seq<int>, w: int, ts: seq<Point>): seq<Point> {
    if ts == [] then []
    else CaveEdges(g, w, ts[..|ts| - 1]) + (if TouchesWall(g, w, ts[|ts| - 1]) then [ts[|ts| - 1]] else [])
  }

  /** An edge is a tile touching a wall, and every such tile is an edge. */
  lemma {:induction false} CaveEdgesAre(g: seq<int>, w: int, ts: seq<Point>, p: Point)
    ensures p in CaveEdges(g, w, ts) <==> p in ts && TouchesWall(g, w, p)
  {
    if ts != [] {
      var init := ts[..|ts| - 1];
      CaveEdgesAre(g, w, init, p);
      assert ts == init + [ts[|ts| - 1]];
    }
  }

  /** Edges come once each: no tile is pushed twice, thanks to the `break`. */
  lemma {:induction false} CaveEdgesShorter(g: seq<int>, w: int, ts: seq<Point>)
    ensures |CaveEdges(g, w, ts)| <= |ts|
  {
    if ts != [] {
      CaveEdgesShorter(g, w, ts[..|ts| - 1]);
    }
  }

  /** The rooms `get_rooms` builds from the floor regions: region i is room i. */
  function CaveRooms(g: seq<int>, w: int, floors: seq<seq<Point>>): (rs: seq<Room>)
    ensures |rs| == |floors|
    ensures forall i :: 0 <= i < |rs| ==> rs[i] == Room(i, floors[i], CaveEdges(g, w, floors[i]))
  {
    seq(|floors|, i requires 0 <= i < |floors| => Room(i, floors[i], CaveEdges(g, w, floors[i])))
  }

  /** The `nsew` test with its `break` (cave.cpp:120-126). */
  method IsEdge(tiles: TileGrid, v: Point) returns (edge: bool)
    requires tiles.Valid()
    ensures edge == TouchesWall(tiles.cells[..], tiles.w, v)
  {
    var ns := Nsew(v);
    edge := false;
    var k := 0;
    while k < 4
      invariant 0 <= k <= 4 && !edge
      invariant forall l :: 0 <= l < k ==> Cell(tiles.cells[..], tiles.w, ns[l].x, ns[l].y) == 0
    {
      var c := ReadCell(tiles, ns[k].x, ns[k].y);
      if c != 0 {
        edge := true;
        break;
      }
      k := k + 1;
    }
  }

  /** The edges of one room, over the tiles in order. */
  method CaveRoomEdges(tiles: TileGrid, ts: seq<Point>) returns (edges: seq<Point>)
    requires tiles.Valid()
    ensures edges == CaveEdges(tiles.cells[..], tiles.w, ts)
  {
    edges := [];
    var j := 0;
    while j < |ts|
      invariant 0 <= j <= |ts| && edges == CaveEdges(tiles.cells[..], tiles.w, ts[..j])
    {
      assert ts[..j + 1][..j] == ts[..j];
      var e := IsEdge(tiles, ts[j]);
      if e {
        edges := edges + [ts[j]];
      }
      j := j + 1;
    }
    assert ts[..j] == ts;
  }

  /** The cell (x, y) is on the map and open. */
  function Open(g: seq<int>, w: int, h: int, x: int, y: int): int {
    if InGrid(w, h, x, y) && Cell(g, w, x, y) == 0 then 1 else 0
  }

  /** `nf` (cave.cpp:264-268): the open cells among the up-left, left and up neighbours of p. */
  function OpenAround(g: seq<int>, w: int, h: int, p: Point): (nf: int)
    ensures 0 <= nf <= 3
  {
    Open(g, w, h, p.x - 1, p.y - 1) + Open(g, w, h, p.x - 1, p.y) + Open(g, w, h, p.x, p.y - 1)
  }

  /** What the 2x2 scan counts at (i, j): an open cell other than p. */
  function Counted(g: seq<int>, w: int, h: int, p: Point, i: int, j: int): int {
    if i != p.x || j != p.y then Open(g, w, h, i, j) else 0
  }

  /** The 2x2 scan of cave.cpp:265-268 for p, as far as column i and, in it, row j. */
  function ScanCount(g: seq<int>, w: int, h: int, p: Point, i: int, j: int): int {
    (if i > p.x - 1 then Counted(g, w, h, p, p.x - 1, p.y - 1) + Counted(g, w, h, p, p.x - 1, p.y) else 0) +
    (if i == p.x - 1 || i == p.x then (if j > p.y - 1 then Counted(g, w, h, p, i, p.y - 1) else 0) + (if j > p.y then Counted(g, w, h, p, i, p.y) else 0) else 0) +
    (if i > p.x then Counted(g, w, h, p, p.x, p.y - 1) + Counted(g, w, h, p, p.x, p.y) else 0)
  }

  /** The count of open cells around p on the current map (cave.cpp:264-268). */
  method CountOpen(tiles: TileGrid, p: Point) returns (nf: int)
    requires tiles.Valid()
    ensures nf == OpenAround(tiles.cells[..], tiles.w, tiles.h, p)
  {
    ghost var g := tiles.cells[..];
    nf := 0;
    var i := p.x - 1;
    while i < p.x + 1
      invariant p.x - 1 <= i <= p.x + 1 && nf == ScanCount(g, tiles.w, tiles.h, p, i, p.y - 1)
    {
      var j := p.y - 1;
      while j < p.y + 1
        invariant p.y - 1 <= j <= p.y + 1 && nf == ScanCount(g, tiles.w, tiles.h, p, i, j)
      {
        if 0 <= i < tiles.w && 0 <= j < tiles.h && (i != p.x || j != p.y) {
          var c := ReadCell(tiles, i, j);
          if c == 0 {
            nf := nf + 1;
          }
        }
        j := j + 1;
      }
      i := i + 1;
    }
  }

  /** `std::replace(…, 1, 8)` over the map (cave.cpp:258-259). */
  function Walled(g: seq<int>): (f: seq<int>)
    ensures |f| == |g| && forall q :: 0 <= q < |g| ==> f[q] == if g[q] == 1 then 8 else g[q]
  {
    seq(|g|, q requires 0 <= q < |g| => if g[q] == 1 then 8 else g[q])
  }

  /** Map g after shading the edge tiles es in order, each to 8 less its open cells. */
  function Shaded(g: seq<int>, w: int, h: int, es: seq<Point>): (f: seq<int>)
    ensures |f| == |g|
  {
    if es == [] then g
    else
      var f := Shaded(g, w, h, es[..|es| - 1]);
      var p := es[|es| - 1];
      var q := CellIndex(w, p.x, p.y);
      if 0 <= q < |f| then f[q := 8 - OpenAround(f, w, h, p)] else f
  }

  /** Shading leaves walls-of-1 free: with no 1 on the map before, none after, and every edge tile ends in 5..8. */
  lemma {:induction false} ShadedValues(g: seq<int>, w: int, h: int, es: seq<Point>)
    requires |g| == w * h && forall k :: 0 <= k < |es| ==> InMap(w, h, es[k])
    ensures forall q :: 0 <= q < |g| && g[q] != 1 ==> Shaded(g, w, h, es)[q] != 1
    ensures forall k :: 0 <= k < |es| ==> 0 <= CellIndex(w, es[k].x, es[k].y) < |g| && 5 <= Shaded(g, w, h, es)[CellIndex(w, es[k].x, es[k].y)] <= 8
    ensures forall q :: 0 <= q < |g| && (forall k :: 0 <= k < |es| ==> CellIndex(w, es[k].x, es[k].y) != q) ==> Shaded(g, w, h, es)[q] == g[q]
  {
    if es != [] {
      var init := es[..|es| - 1];
      ShadedValues(g, w, h, init);
      forall k | 0 <= k < |es|
        ensures 0 <= CellIndex(w, es[k].x, es[k].y) < |g|
      {
        CellIndexInRange(w, h, es[k].x, es[k].y);
      }
      forall k | 0 <= k < |init| ensures init[k] == es[k] { }
    }
  }

  /** Every edge tile of the rooms, room after room. */
  function AllEdges(rooms: seq<Room>): seq<Point> {
    if rooms == [] then [] else AllEdges(rooms[..|rooms| - 1]) + rooms[|rooms| - 1].edges
  }

  /** The edges of every room lie on the map. */
  ghost predicate EdgesInMap(w: int, h: int, rooms: seq<Room>) {
    forall r, k :: 0 <= r < |rooms| && 0 <= k < |rooms[r].edges| ==> InMap(w, h, rooms[r].edges[k])
  }

  /** The edges of the rooms, run together, lie on the map when each room's do. */
  lemma {:induction false} AllEdgesOnMap(w: int, h: int, rooms: seq<Room>)
    requires EdgesInMap(w, h, rooms)
    ensures forall k :: 0 <= k < |AllEdges(rooms)| ==> InMap(w, h, AllEdges(rooms)[k])
  {
    if rooms != [] {
      var init, last := rooms[..|rooms| - 1], rooms[|rooms| - 1];
      assert EdgesInMap(w, h, init) by {
        forall r | 0 <= r < |init| ensures init[r] == rooms[r] { }
      }
      AllEdgesOnMap(w, h, init);
      forall k | |AllEdges(init)| <= k < |AllEdges(rooms)|
        ensures InMap(w, h, AllEdges(rooms)[k])
      {
        assert AllEdges(rooms)[k] == last.edges[k - |AllEdges(init)|];
      }
    }
  }

  /**
   * What `finalize_map` leaves on a w·h map g: no wall 1 anywhere, every
   * edge tile of a room shaded to between 5 and 8, and every other cell
   * as it was but with 1 turned into 8.
   */
  lemma FinalizedMap(g: seq<int>, w: int, h: int, rooms: seq<Room>)
    requires |g| == w * h && EdgesInMap(w, h, rooms)
    ensures forall q :: 0 <= q < |g| ==> Shaded(Walled(g), w, h, AllEdges(rooms))[q] != 1
    ensures forall r, k :: 0 <= r < |rooms| && 0 <= k < |rooms[r].edges| ==>
      var p := rooms[r].edges[k];
      0 <= CellIndex(w, p.x, p.y) < |g| && 5 <= Shaded(Walled(g), w, h, AllEdges(rooms))[CellIndex(w, p.x, p.y)] <= 8
  {
    AllEdgesOnMap(w, h, rooms);
    ShadedValues(Walled(g), w, h, AllEdges(rooms));
    forall r, k | 0 <= r < |rooms| && 0 <= k < |rooms[r].edges|
      ensures rooms[r].edges[k] in AllEdges(rooms)
    {
      EdgeInAll(rooms, r, k);
    }
  }

  /** Each room's edges are among all the edges. */
  lemma {:induction false} EdgeInAll(rooms: seq<Room>, r: int, k: int)
    requires 0 <= r < |rooms| && 0 <= k < |rooms[r].edges|
    ensures rooms[r].edges[k] in AllEdges(rooms)
  {
    var init := rooms[..|rooms| - 1];
    if r < |rooms| - 1 {
      assert init[r] == rooms[r];
      EdgeInAll(init, r, k);
    } else {
      assert AllEdges(rooms)[|AllEdges(init)| + k] == rooms[r].edges[k];
    }
  }

  /** Shading one run of edges after another. */
  lemma {:induction false} ShadedAppend(g: seq<int>, w: int, h: int, xs: seq<Point>, ys: seq<Point>)
    ensures Shaded(g, w, h, xs + ys) == Shaded(Shaded(g, w, h, xs), w, h, ys)
    decreases |ys|
  {
    if ys == [] {
      assert xs + ys == xs;
    } else {
      ShadedAppend(g, w, h, xs, ys[..|ys| - 1]);
      assert (xs + ys)[..|xs + ys| - 1] == xs + ys[..|ys| - 1];
    }
  }

  /** The `std::vector<std::string>` a cave reports its progress to. */
  class InfoLog {
    var lines: seq<string>

    constructor ()
      ensures lines == []
    {
      lines := [];
    }
  }

  /** A value `std::uniform_int_distribution<>(50, 200)` can return. */
  predicate SizeDraw(d: int) { 50 <= d <= 200 }

  /**
   * The map size of a new cave (cave.cpp:281-287), with `first` and
   * `second` the random draws in order: a width or height given as 0 is
   * drawn, the width first, and one that is given is kept. So neither is
   * ever 0.
   */
  function ChosenSize(w: int, h: int, first: int, second: int): (r: (int, int))
    requires SizeDraw(first) && SizeDraw(second)
    ensures r.0 != 0 && r.1 != 0
    ensures w != 0 ==> r.0 == w
    ensures h != 0 ==> r.1 == h
    ensures w == 0 ==> SizeDraw(r.0)
    ensures h == 0 ==> SizeDraw(r.1)
    ensures w == 0 && h == 0 ==> r == (first, second)
  {
    if w == 0 then (first, if h == 0 then second else h)
    else (w, if h == 0 then first else h)
  }

  /** `fmt("Generating map at %dx%d", w, h)`. */
  function GeneratingMessage(w: int, h: int): string {
    "Generating map at " + IntToString(w) + "x" + IntToString(h)
  }

  /**
   * A `cave_t`: its generation parameters, the dungeon depth, the rooms
   * (`rooms`) and the index of the main room (`main_room`).
   */
  class Cave {
    var w: int
    var h: int
    var fillProb: int
    var iterations: int
    var survival: int
    var starve: int
    var depth: int
    var rooms: seq<Room>
    var mainRoom: int

    /**
     * `cave_t::cave_t` (cave.cpp:280-292), with `first` and `second` the
     * draws of the size distribution: the parameters are stored, a zero
     * size is drawn, and the size is reported to `info` when there is one.
     */
    constructor (info: InfoLog?, depth: int, w: int, h: int, fillProb: int, iterations: int,
                 survival: int, starve: int, first: int, second: int)
      requires SizeDraw(first) && SizeDraw(second)
      modifies info
      ensures (this.w, this.h) == ChosenSize(w, h, first, second)
      ensures this.fillProb == fillProb && this.iterations == iterations
      ensures this.survival == survival && this.starve == starve && this.depth == depth
      ensures rooms == [] && mainRoom == 0
      ensures info != null ==> info.lines == old(info.lines) + [GeneratingMessage(this.w, this.h)]
    {
      var size := ChosenSize(w, h, first, second);
      this.w, this.h := size.0, size.1;
      this.fillProb, this.iterations := fillProb, iterations;
      this.survival, this.starve := survival, starve;
      this.depth := depth;
      rooms, mainRoom := [], 0;
      new;
      if info != null {
        info.lines := info.lines + [GeneratingMessage(this.w, this.h)];
      }
    }

    /**
     * `cave_t::get_rooms(map)` (cave.cpp:91-138): the floor regions are
     * `find_regions(map, 0)`, returned here as `floors`; the main room is
     * the first largest of them, and region i is appended as room i with
     * the tiles touching a wall as its edges. The wall regions the source
     * also finds are read only by its DEBUG printing, so they are not
     * computed.
     */
    method GetRooms(tiles: TileGrid) returns (floors: seq<seq<Point>>)
      requires tiles.Valid()
      modifies this
      ensures RogueLabels.AllRegions(tiles.cells[..], tiles.w, tiles.h, 1, 0, floors) && RogueLabels.Disjoint(floors)
      ensures forall x, y :: Admissible(tiles.cells[..], tiles.w, tiles.h, 1, 0, Point(x, y)) ==> RogueLabels.Covers(floors, Point(x, y))
      ensures mainRoom == FirstLargestOf(floors)
      ensures rooms == old(rooms) + CaveRooms(tiles.cells[..], tiles.w, floors)
    {
      floors := RogueLabels.FindRegions(tiles, 0);
      MakeRooms(tiles, floors);
    }

    /** cave.cpp:114-131: the main room and one room per region, in order. */
    method MakeRooms(tiles: TileGrid, floors: seq<seq<Point>>)
      requires tiles.Valid()
      modifies this
      ensures mainRoom == FirstLargestOf(floors)
      ensures rooms == old(rooms) + CaveRooms(tiles.cells[..], tiles.w, floors)
    {
      mainRoom := FirstLargestOf(floors);
      var i := 0;
      while i < |floors|
        invariant 0 <= i <= |floors| && mainRoom == FirstLargestOf(floors)
        invariant rooms == old(rooms) + CaveRooms(tiles.cells[..], tiles.w, floors[..i])
      {
        var edges := CaveRoomEdges(tiles, floors[i]);
        rooms := rooms + [Room(i, floors[i], edges)];
        assert CaveRooms(tiles.cells[..], tiles.w, floors[..i + 1]) == CaveRooms(tiles.cells[..], tiles.w, floors[..i]) + [Room(i, floors[i], edges)];
        i := i + 1;
      }
      assert floors[..i] == floors;
    }

    /** Shades the edges of one room (cave.cpp:263-270). */
    method ShadeRoom(tiles: TileGrid, r: Room)
      requires tiles.Valid() && forall k :: 0 <= k < |r.edges| ==> InMap(tiles.w, tiles.h, r.edges[k])
      modifies tiles.cells
      ensures tiles.cells[..] == Shaded(old(tiles.cells[..]), tiles.w, tiles.h, r.edges)
    {
      ghost var g := tiles.cells[..];
      var es := r.edges;
      var k := 0;
      while k < |es|
        invariant 0 <= k <= |es| && tiles.cells[..] == Shaded(g, tiles.w, tiles.h, es[..k])
      {
        assert es[..k + 1][..k] == es[..k];
        var p := es[k];
        var nf := CountOpen(tiles, p);
        CellIndexInRange(tiles.w, tiles.h, p.x, p.y);
        tiles.cells[p.y * tiles.w + p.x] := 8 - nf;
        k := k + 1;
      }
      assert es[..k] == es;
    }

    /**
     * `cave_t::finalize_map(map)` (cave.cpp:257-271): every wall 1 becomes
     * 8, then the edges of the rooms, room after room, are shaded to 8
     * less the open cells up and left of them.
     */
    method FinalizeMap(tiles: TileGrid)
      requires tiles.Valid() && EdgesInMap(tiles.w, tiles.h, rooms)
      modifies tiles.cells
      ensures tiles.cells[..] == Shaded(Walled(old(tiles.cells[..])), tiles.w, tiles.h, AllEdges(rooms))
    {
      var q := 0;
      while q < tiles.cells.Length
        invariant 0 <= q <= tiles.cells.Length
        invariant forall k :: 0 <= k < tiles.cells.Length ==> tiles.cells[k] == if k < q then Walled(old(tiles.cells[..]))[k] else old(tiles.cells[k])
      {
        if tiles.cells[q] == 1 {
          tiles.cells[q] := 8;
        }
        q := q + 1;
      }
      assert tiles.cells[..] == Walled(old(tiles.cells[..]));
      ghost var walled := tiles.cells[..];
      var r := 0;
      while r < |rooms|
        invariant 0 <= r <= |rooms|
        invariant tiles.cells[..] == Shaded(walled, tiles.w, tiles.h, AllEdges(rooms[..r]))
      {
        assert rooms[..r + 1][..r] == rooms[..r];
        assert rooms[..r + 1][r] == rooms[r];
        ShadedAppend(walled, tiles.w, tiles.h, AllEdges(rooms[..r]), rooms[r].edges);
        ShadeRoom(tiles, rooms[r]);
        r := r + 1;
      }
      assert rooms[..r] == rooms;
    }
  }

}
