// The rooms of dungeon.c: `dungeon_fill_rooms` keeps the floor regions of
// at least ten tiles as rooms, fills the smaller ones in with wall 8, and
// collects each room's edge tiles; `dungeon_in` and `dungeon_solid` look
// tiles up in the finished map.
module RogueRooms {
  import opened Wrappers
  import opened Grid
  import opened RogueGrid
  import opened RogueRegions
  import opened Strings

  /** `room_t` (dungeon.h:62-65); `n_tiles` and `n_edges` are the lengths of the two lists. */
  datatype Room = Room(id: int, tiles: seq<Point>, edges: seq<Point>)

  /** The smallest region that `dungeon_fill_rooms` keeps as a room. */
  const MinRoomTiles := 10

  /** The wall value that fills in a region too small to be a room. */
  const FillWall := 8

  /** k copies of p. */
  function Repeat(p: Point, k: nat): (s: seq<Point>)
    ensures |s| == k && forall i :: 0 <= i < k ==> s[i] == p
  {
    seq(k, _ => p)
  }

  /** 1 for a nonzero cell. */
  function Hit(g: seq<int>, w: int, x: int, y: int): int {
    if Cell(g, w, x, y) != 0 then 1 else 0
  }

  /**
   * How often `dungeon_fill_rooms` pushes tile p into the edges: once per
   * nonzero cell among p and its four neighbours.
   */
  function PlusHits(g: seq<int>, w: int, p: Point): int {
    Hit(g, w, p.x - 1, p.y) + Hit(g, w, p.x, p.y - 1) + Hit(g, w, p.x, p.y) + Hit(g, w, p.x, p.y + 1) + Hit(g, w, p.x + 1, p.y)
  }

  /** What the 3x3 scan counts at (nx, ny): a nonzero cell in p's row or column. */
  function Scanned(g: seq<int>, w: int, p: Point, nx: int, ny: int): int {
    if nx == p.x || ny == p.y then Hit(g, w, nx, ny) else 0
  }

  /** The hits the inner loop of the 3x3 scan finds in column nx, rows `p.y - 1` up to ny. */
  function ColumnHits(g: seq<int>, w: int, p: Point, nx: int, ny: int): int
    decreases ny - p.y
  {
    if ny <= p.y - 1 then 0 else ColumnHits(g, w, p, nx, ny - 1) + Scanned(g, w, p, nx, ny - 1)
  }

  /** The hits the 3x3 scan finds in the columns `p.x - 1` up to nx. */
  function SweptHits(g: seq<int>, w: int, p: Point, nx: int): int
    decreases nx - p.x
  {
    if nx <= p.x - 1 then 0 else SweptHits(g, w, p, nx - 1) + ColumnHits(g, w, p, nx - 1, p.y + 2)
  }

  /** A whole column of the scan is its three cells. */
  lemma ColumnFull(g: seq<int>, w: int, p: Point, nx: int)
    ensures ColumnHits(g, w, p, nx, p.y + 2) == Scanned(g, w, p, nx, p.y - 1) + Scanned(g, w, p, nx, p.y) + Scanned(g, w, p, nx, p.y + 1)
  {
    assert ColumnHits(g, w, p, nx, p.y) == Scanned(g, w, p, nx, p.y - 1);
    assert ColumnHits(g, w, p, nx, p.y + 1) == ColumnHits(g, w, p, nx, p.y) + Scanned(g, w, p, nx, p.y);
  }

  /** The scan over all nine cells counts exactly the plus around p. */
  lemma SweptPlus(g: seq<int>, w: int, p: Point)
    ensures SweptHits(g, w, p, p.x + 2) == PlusHits(g, w, p)
  {
    ColumnFull(g, w, p, p.x - 1);
    ColumnFull(g, w, p, p.x);
    ColumnFull(g, w, p, p.x + 1);
    assert SweptHits(g, w, p, p.x) == ColumnHits(g, w, p, p.x - 1, p.y + 2);
    assert SweptHits(g, w, p, p.x + 1) == SweptHits(g, w, p, p.x) + ColumnHits(g, w, p, p.x, p.y + 2);
  }

  /** The value `GRID_AT` reads at (x, y), 0 where the index falls outside the cells. */
  method ReadCell(tiles: TileGrid, x: int, y: int) returns (v: int)
    requires tiles.Valid()
    ensures v == Cell(tiles.cells[..], tiles.w, x, y)
  {
    var q := y * tiles.w + x;
    v := if 0 <= q < tiles.cells.Length then tiles.cells[q] else 0;
  }

  /**
   * The 3x3 scan around tile p (dungeon.c:287-291): p is appended once
   * for every nonzero cell of the plus around it.
   */
  method PushEdges(tiles: TileGrid, p: Point, edges: seq<Point>) returns (e: seq<Point>)
    requires tiles.Valid()
    ensures e == edges + Repeat(p, PlusHits(tiles.cells[..], tiles.w, p))
  {
    ghost var g := tiles.cells[..];
    e := edges;
    var nx := p.x - 1;
    while nx <= p.x + 1
      invariant p.x - 1 <= nx <= p.x + 2
      invariant 0 <= SweptHits(g, tiles.w, p, nx) && e == edges + Repeat(p, SweptHits(g, tiles.w, p, nx))
    {
      var ny := p.y - 1;
      while ny <= p.y + 1
        invariant p.y - 1 <= ny <= p.y + 2
        invariant 0 <= SweptHits(g, tiles.w, p, nx) + ColumnHits(g, tiles.w, p, nx, ny)
        invariant e == edges + Repeat(p, SweptHits(g, tiles.w, p, nx) + ColumnHits(g, tiles.w, p, nx, ny))
      {
        var v := ReadCell(tiles, nx, ny);
        if (nx == p.x || ny == p.y) && v != 0 {
          e := e + [p];
        }
        ny := ny + 1;
      }
      nx := nx + 1;
    }
    SweptPlus(g, tiles.w, p);
  }

  /** The edges of a room whose tiles are ts, over map g: each tile repeated `PlusHits` times, in tile order. */
  function EdgesOf(g: seq<int>, w: int, ts: seq<Point>): seq<Point> {
    if ts == [] then []
    else EdgesOf(g, w, ts[..|ts| - 1]) + Repeat(ts[|ts| - 1], PlusHits(g, w, ts[|ts| - 1]))
  }

  /** A tile is an edge exactly when the plus around it holds a nonzero cell, and edges are tiles. */
  lemma {:induction false} EdgesOfTiles(g: seq<int>, w: int, ts: seq<Point>, p: Point)
    ensures p in EdgesOf(g, w, ts) <==> p in ts && PlusHits(g, w, p) > 0
  {
    if ts != [] {
      var init, last := ts[..|ts| - 1], ts[|ts| - 1];
      EdgesOfTiles(g, w, init, p);
      assert ts == init + [last];
      if PlusHits(g, w, last) > 0 {
        assert Repeat(last, PlusHits(g, w, last))[0] == last;
      }
    }
  }

  /** The edges of one room, in the order dungeon.c:286-292 pushes them. */
  method RoomEdges(tiles: TileGrid, ts: seq<Point>) returns (edges: seq<Point>)
    requires tiles.Valid()
    ensures edges == EdgesOf(tiles.cells[..], tiles.w, ts)
  {
    edges := [];
    var j := 0;
    while j < |ts|
      invariant 0 <= j <= |ts| && edges == EdgesOf(tiles.cells[..], tiles.w, ts[..j])
    {
      assert ts[..j + 1][..j] == ts[..j];
      edges := PushEdges(tiles, ts[j], edges);
      j := j + 1;
    }
    assert ts[..j] == ts;
  }

  /** Map g with every tile of ts set to the fill wall. */
  function FillIn(g: seq<int>, w: int, ts: seq<Point>): (f: seq<int>)
    ensures |f| == |g|
  {
    if ts == [] then g
    else
      var f := FillIn(g, w, ts[..|ts| - 1]);
      var q := CellIndex(w, ts[|ts| - 1].x, ts[|ts| - 1].y);
      if 0 <= q < |f| then f[q := FillWall] else f
  }

  /** Index q is the cell of a tile of ts. */
  ghost predicate TileAt(w: int, ts: seq<Point>, q: int) {
    exists k :: 0 <= k < |ts| && CellIndex(w, ts[k].x, ts[k].y) == q
  }

  /** Filling in sets exactly the cells of the tiles to 8. */
  lemma {:induction false} FillInCell(g: seq<int>, w: int, ts: seq<Point>, q: int)
    requires 0 <= q < |g|
    ensures FillIn(g, w, ts)[q] == if TileAt(w, ts, q) then FillWall else g[q]
  {
    if ts != [] {
      var init := ts[..|ts| - 1];
      FillInCell(g, w, init, q);
      if TileAt(w, init, q) {
        var k :| 0 <= k < |init| && CellIndex(w, init[k].x, init[k].y) == q;
        assert ts[k] == init[k];
      }
      if TileAt(w, ts, q) && !TileAt(w, init, q) {
        var k :| 0 <= k < |ts| && CellIndex(w, ts[k].x, ts[k].y) == q;
        assert k == |ts| - 1;
      }
    }
  }

  /** Paints every tile of ts with the fill wall (dungeon.c:265-268). */
  method FillRegion(tiles: TileGrid, ts: seq<Point>)
    requires tiles.Valid() && forall k :: 0 <= k < |ts| ==> InMap(tiles.w, tiles.h, ts[k])
    modifies tiles.cells
    ensures tiles.cells[..] == FillIn(old(tiles.cells[..]), tiles.w, ts)
  {
    ghost var g := tiles.cells[..];
    var j := 0;
    while j < |ts|
      invariant 0 <= j <= |ts| && tiles.cells[..] == FillIn(g, tiles.w, ts[..j])
    {
      assert ts[..j + 1][..j] == ts[..j];
      var p := ts[j];
      CellIndexInRange(tiles.w, tiles.h, p.x, p.y);
      tiles.cells[p.y * tiles.w + p.x] := FillWall;
      j := j + 1;
    }
    assert ts[..j] == ts;
  }

  /** The map after the regions regs have been seen: each one smaller than a room filled in. */
  function Filled(g: seq<int>, w: int, regs: seq<seq<Point>>): (f: seq<int>)
    ensures |f| == |g|
  {
    if regs == [] then g
    else
      var f := Filled(g, w, regs[..|regs| - 1]);
      if |regs[|regs| - 1]| < MinRoomTiles then FillIn(f, w, regs[|regs| - 1]) else f
  }

  /** The regions of regs with at least ten tiles, in order. */
  function Large(regs: seq<seq<Point>>): seq<seq<Point>> {
    if regs == [] then []
    else Large(regs[..|regs| - 1]) + (if |regs[|regs| - 1]| < MinRoomTiles then [] else [regs[|regs| - 1]])
  }

  /**
   * The rooms kept from the regions regs over map g: the large regions,
   * numbered from 0 in order, each with the edges of the map as it stood
   * when its turn came.
   */
  function Rooms(g: seq<int>, w: int, regs: seq<seq<Point>>): (rs: seq<Room>)
    ensures |rs| == |Large(regs)|
    ensures forall k :: 0 <= k < |rs| ==> rs[k].id == k && rs[k].tiles == Large(regs)[k]
  {
    if regs == [] then []
    else
      var init, last := regs[..|regs| - 1], regs[|regs| - 1];
      var rs := Rooms(g, w, init);
      if |last| < MinRoomTiles then rs else rs + [Room(|rs|, last, EdgesOf(Filled(g, w, init), w, last))]
  }

  /** Cell q is a tile of one of the regions of regs smaller than a room. */
  ghost predicate InSmall(w: int, regs: seq<seq<Point>>, q: int) {
    exists i :: 0 <= i < |regs| && |regs[i]| < MinRoomTiles && TileAt(w, regs[i], q)
  }

  /** What filling in does to the map: tiles of small regions hold 8, every other cell is as before. */
  lemma {:induction false} FilledCell(g: seq<int>, w: int, regs: seq<seq<Point>>, q: int)
    requires 0 <= q < |g|
    ensures Filled(g, w, regs)[q] == if InSmall(w, regs, q) then FillWall else g[q]
  {
    if regs != [] {
      var init, last := regs[..|regs| - 1], regs[|regs| - 1];
      FilledCell(g, w, init, q);
      if |last| < MinRoomTiles {
        FillInCell(Filled(g, w, init), w, last, q);
      }
      if InSmall(w, init, q) {
        var i :| 0 <= i < |init| && |init[i]| < MinRoomTiles && TileAt(w, init[i], q);
        assert regs[i] == init[i];
      }
      if InSmall(w, regs, q) && !InSmall(w, init, q) {
        var i :| 0 <= i < |regs| && |regs[i]| < MinRoomTiles && TileAt(w, regs[i], q);
        assert i == |regs| - 1;
      }
    }
  }

  /** Room m has the most tiles, and every room before it has fewer. */
  ghost predicate FirstLargest(rs: seq<Room>, m: int) {
    0 <= m < |rs| &&
    (forall k :: 0 <= k < |rs| ==> |rs[k].tiles| <= |rs[m].tiles|) &&
    (forall k :: 0 <= k < m ==> |rs[k].tiles| < |rs[m].tiles|)
  }

  /** A new room takes over as the first largest only when it is strictly larger. */
  lemma FirstLargestAppend(rs: seq<Room>, m: int, r: Room)
    requires rs != [] ==> FirstLargest(rs, m)
    ensures rs == [] ==> FirstLargest(rs + [r], |rs|)
    ensures rs != [] && |r.tiles| > |rs[m].tiles| ==> FirstLargest(rs + [r], |rs|)
    ensures rs != [] && |r.tiles| <= |rs[m].tiles| ==> FirstLargest(rs + [r], m)
  {
    var next := rs + [r];
    assert forall k :: 0 <= k < |rs| ==> next[k] == rs[k];
  }

  /** dungeon.c:289-292: a new room becomes the main room when it has more tiles than the highest so far. */
  method PickMain(rs: seq<Room>, r: Room, m: int, highest: int) returns (m2: int, highest2: int)
    requires rs == [] ==> highest == 0
    requires rs != [] ==> FirstLargest(rs, m) && highest == |rs[m].tiles|
    requires |r.tiles| >= MinRoomTiles
    ensures FirstLargest(rs + [r], m2) && highest2 == |(rs + [r])[m2].tiles|
  {
    FirstLargestAppend(rs, m, r);
    m2, highest2 := m, highest;
    if |r.tiles| > highest {
      highest2 := |r.tiles|;
      m2 := |rs|;
    }
  }

  /**
   * One region of `dungeon_fill_rooms` (dungeon.c:263-294): a small one is
   * filled in, a large one becomes room number |rooms| with its edges.
   */
  method FillOne(tiles: TileGrid, ghost g: seq<int>, regs: seq<seq<Point>>, i: int, rooms: seq<Room>)
      returns (rooms2: seq<Room>)
    requires tiles.Valid() && 0 <= i < |regs| && |g| == tiles.cells.Length
    requires forall k :: 0 <= k < |regs[i]| ==> InMap(tiles.w, tiles.h, regs[i][k])
    requires tiles.cells[..] == Filled(g, tiles.w, regs[..i]) && rooms == Rooms(g, tiles.w, regs[..i])
    modifies tiles.cells
    ensures tiles.cells[..] == Filled(g, tiles.w, regs[..i + 1]) && rooms2 == Rooms(g, tiles.w, regs[..i + 1])
  {
    assert regs[..i + 1][..i] == regs[..i];
    var ts := regs[i];
    if |ts| < MinRoomTiles {
      FillRegion(tiles, ts);
      rooms2 := rooms;
    } else {
      var edges := RoomEdges(tiles, ts);
      rooms2 := rooms + [Room(|rooms|, ts, edges)];
    }
  }

  /**
   * `dungeon_fill_rooms(d, map, tiles, n, main_room)` (dungeon.c:258-297)
   * over the floor regions regs, with `*main_room` holding `mainIn` on
   * entry. The map ends with the small regions filled in and the rooms
   * are `Rooms`: the large regions numbered from 0. The main room is the
   * first largest room; with no room at all it is left as it was.
   */
  method FillRooms(tiles: TileGrid, regs: seq<seq<Point>>, mainIn: int) returns (rooms: seq<Room>, mainRoom: int)
    requires tiles.Valid()
    requires forall i, k :: 0 <= i < |regs| && 0 <= k < |regs[i]| ==> InMap(tiles.w, tiles.h, regs[i][k])
    modifies tiles.cells
    ensures tiles.cells[..] == Filled(old(tiles.cells[..]), tiles.w, regs)
    ensures rooms == Rooms(old(tiles.cells[..]), tiles.w, regs)
    ensures rooms == [] ==> mainRoom == mainIn
    ensures rooms != [] ==> FirstLargest(rooms, mainRoom)
  {
    ghost var g := tiles.cells[..];
    rooms, mainRoom := [], mainIn;
    var highest := 0;
    var i := 0;
    while i < |regs|
      invariant 0 <= i <= |regs|
      invariant tiles.cells[..] == Filled(g, tiles.w, regs[..i]) && rooms == Rooms(g, tiles.w, regs[..i])
      invariant rooms == [] ==> mainRoom == mainIn && highest == 0
      invariant rooms != [] ==> FirstLargest(rooms, mainRoom) && highest == |rooms[mainRoom].tiles|
    {
      var before := rooms;
      rooms := FillOne(tiles, g, regs, i, rooms);
      assert regs[..i + 1][..i] == regs[..i] && regs[..i + 1][i] == regs[i];
      if |regs[i]| >= MinRoomTiles {
        assert rooms == before + [rooms[|before|]] && |rooms[|before|].tiles| == |regs[i]|;
        mainRoom, highest := PickMain(before, rooms[|before|], mainRoom, highest);
      }
      i := i + 1;
    }
    assert regs[..i] == regs;
  }

  /** `tile_map[v].solid` (dungeon.h:23-37): ten tiles, only the floor 0 not solid. */
  const TileSolid: seq<bool> := [false, true, true, true, true, true, true, true, true, true]

  /** `tile_map[v].size` (dungeon.h:23-37): how many glyphs tall tile v is drawn. */
  const TileHeight: seq<int> := [1, 1, 2, 3, 4, 5, 6, 7, 8, 8]

  /**
   * `dungeon_in(d, x, y)` (dungeon.c:109-111): the index of cell (x, y)
   * of a w·h map, or None (NULL) off the map.
   */
  function DungeonIn(w: int, h: int, x: int, y: int): (r: Option<int>)
    ensures r.None? <==> !InGrid(w, h, x, y)
    ensures r.Some? ==> r.value == CellIndex(w, x, y) && 0 <= r.value < w * h
  {
    if x < 0 || y < 0 || x >= w || y >= h then None
    else
      CellIndexInRange(w, h, x, y);
      Some(y * w + x)
  }

  /** The tile values of map vs are entries of `tile_map`. */
  ghost predicate Tiled(vs: seq<int>) {
    forall k :: 0 <= k < |vs| ==> 0 <= vs[k] < |TileSolid|
  }

  /**
   * `dungeon_solid(d, x, y)` (dungeon.c:113-116): false off the map,
   * otherwise whether the tile there is solid, which is whether it is
   * anything but floor.
   */
  function DungeonSolid(vs: seq<int>, w: int, h: int, x: int, y: int): (s: bool)
    requires |vs| == w * h && Tiled(vs)
    ensures s <==> InGrid(w, h, x, y) && Get(vs, w, h, x, y) != 0
  {
    match DungeonIn(w, h, x, y)
    case None => false
    case Some(q) => TileSolid[vs[q]]
  }
}
