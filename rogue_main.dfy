// The C roguelike's main loop helpers (main.c): moving the player over the
// dungeon, placing panels, and converting between tile and screen
// coordinates with a camera that is a pixel position. Tiles are 8 pixels
// square, and every division and remainder is C's, which truncates toward
// zero.
module RogueMain {
  import opened Grid
  import opened RogueCommon
  import opened RogueGrid
  import opened RogueRooms

  /** `entity_t`: a glyph and a tile position. */
  class Entity {
    const c: char
    var pos: Point

    constructor(c: char, pos: Point)
      ensures this.c == c && this.pos == pos
    {
      this.c := c;
      this.pos := pos;
    }
  }

  /** Where `move_entity` aims: the position moved by (dx, dy), clamped into the map (main.c:46-47). */
  function Target(p: Point, w: int, h: int, dx: int, dy: int): (t: Point)
    ensures 0 < w && 0 < h ==> InMap(w, h, t)
    ensures 0 <= p.x + dx < w && 0 <= p.y + dy < h ==> t == Point(p.x + dx, p.y + dy)
  {
    Point(Clamp(p.x + dx, 0, w - 1), Clamp(p.y + dy, 0, h - 1))
  }

  /**
   * `move_entity(o, d, by_x, by_y)` (main.c:45-54) on the w·h dungeon whose
   * tile values are `vs`: the entity steps to the clamped target exactly
   * when that is a different tile and not solid, and nothing but its
   * position can change. On a map with cells it can only step onto floor
   * and never leaves the map; on an empty one (w or h 0) the clamp gives -1
   * or 0, off the map, where `dungeon_solid` says not solid.
   */
  method MoveEntity(o: Entity, vs: seq<int>, w: int, h: int, dx: int, dy: int)
    requires |vs| == w * h && Tiled(vs)
    modifies o
    ensures o.pos == old(o.pos) || o.pos == Target(old(o.pos), w, h, dx, dy)
    ensures o.pos != old(o.pos) <==>
      var t := Target(old(o.pos), w, h, dx, dy);
      t != old(o.pos) && !DungeonSolid(vs, w, h, t.x, t.y)
    ensures 0 < w && 0 < h && o.pos != old(o.pos) ==> InMap(w, h, o.pos) && Get(vs, w, h, o.pos.x, o.pos.y) == 0
    ensures 0 < w && 0 < h && InMap(w, h, old(o.pos)) ==> InMap(w, h, o.pos)
  {
    var t := Target(o.pos, w, h, dx, dy);
    if t == o.pos {
      return;
    }
    if !DungeonSolid(vs, w, h, t.x, t.y) {
      o.pos := t;
    }
  }

  /** `panel_t`: where a panel's surface is drawn (the surface itself is not part of this model). */
  class Panel {
    var pos: Point

    constructor()
      ensures pos == Point(0, 0)
    {
      pos := Point(0, 0);
    }
  }

  /** `set_panel_pos(p, x, y)` (main.c:61-66): nothing for a null panel, otherwise exactly its position. */
  method SetPanelPos(p: Panel?, x: int, y: int)
    modifies p
    ensures p != null ==> p.pos == Point(x, y)
  {
    if p == null {
      return;
    }
    p.pos := Point(x, y);
  }

  /** A camera coordinate rounded toward zero to a tile boundary, `c - c % 8`. */
  function Aligned(c: int): (a: int)
    ensures a == 8 * CDiv(c, 8)
    ensures Abs(c - a) < 8 && Abs(a) <= Abs(c)
  {
    c - CRem(c, 8)
  }

  /**
   * `set_vec2_relative(pos, dst, out)` (main.c:72-75): the camera that puts
   * tile `pos` at the centre of a dstW·dstH surface.
   */
  function SetVec2Relative(pos: Point, dstW: int, dstH: int): (cam: Point)
    ensures cam.x + CDiv(dstW, 2) == 8 * pos.x && cam.y + CDiv(dstH, 2) == 8 * pos.y
  {
    Point(pos.x * 8 - CDiv(dstW, 2), pos.y * 8 - CDiv(dstH, 2))
  }

  /**
   * `get_vec2_relative(cam, in, out)` (main.c:77-80): the tile under screen pixel `input`,
   * i.e. the tile whose 8-pixel cell holds the world pixel `input` plus the aligned camera.
   */
  function GetVec2Relative(cam: Point, input: Point): (out: Point)
    ensures 0 <= input.x ==> 8 * out.x <= input.x + Aligned(cam.x) < 8 * out.x + 8
    ensures 0 <= input.y ==> 8 * out.y <= input.y + Aligned(cam.y) < 8 * out.y + 8
  {
    CDivEight(CDiv(cam.x, 8));
    CDivEight(CDiv(cam.y, 8));
    Point(CDiv(input.x, 8) + CDiv(Aligned(cam.x), 8), CDiv(input.y, 8) + CDiv(Aligned(cam.y), 8))
  }

  /** `grid_to_screen(x0, y0, x1, y1, cam)` (main.c:82-85): the screen pixel of tile p's corner. */
  function GridToScreen(p: Point, cam: Point): (s: Point)
    ensures s.x % 8 == 0 && s.y % 8 == 0
  {
    AlignedMultiple(cam.x);
    AlignedMultiple(cam.y);
    Point(p.x * 8 - Aligned(cam.x), p.y * 8 - Aligned(cam.y))
  }

  /** Truncating division of a multiple of 8 by 8 is exact. */
  lemma CDivEight(k: int)
    ensures CDiv(8 * k, 8) == k && CRem(8 * k, 8) == 0
  {
    assert Abs(8 * k) == 8 * Abs(k);
    assert (8 * Abs(k)) / 8 == Abs(k);
  }

  /** An aligned camera coordinate is a multiple of 8. */
  lemma AlignedMultiple(c: int)
    ensures Aligned(c) % 8 == 0
  {
    var q := CDiv(c, 8);
    assert Aligned(c) == 8 * q;
  }

  /** On a non-negative pixel, C's division is Dafny's. */
  lemma CDivNonNegative(a: int)
    requires 0 <= a
    ensures CDiv(a, 8) == a / 8
  {
  }

  /** The tile drawn at a screen position is the tile read back from it, whatever the camera. */
  lemma ScreenRoundTrip(p: Point, cam: Point)
    ensures GetVec2Relative(cam, GridToScreen(p, cam)) == p
  {
    var ax, ay := CDiv(cam.x, 8), CDiv(cam.y, 8);
    assert Aligned(cam.x) == 8 * ax && Aligned(cam.y) == 8 * ay;
    assert GridToScreen(p, cam) == Point(8 * (p.x - ax), 8 * (p.y - ay));
    CDivEight(p.x - ax);
    CDivEight(p.y - ay);
    CDivEight(ax);
    CDivEight(ay);
  }

  /**
   * Every pixel of a tile that is drawn at non-negative screen coordinates
   * reads back as that tile. (To the left of or above the screen, C's
   * truncation reads the neighbouring tile instead.)
   */
  lemma PixelInTile(p: Point, cam: Point, dx: int, dy: int)
    requires 0 <= dx < 8 && 0 <= dy < 8
    requires 0 <= GridToScreen(p, cam).x && 0 <= GridToScreen(p, cam).y
    ensures GetVec2Relative(cam, Point(GridToScreen(p, cam).x + dx, GridToScreen(p, cam).y + dy)) == p
  {
    var s := GridToScreen(p, cam);
    ScreenRoundTrip(p, cam);
    CDivNonNegative(s.x);
    CDivNonNegative(s.y);
    CDivNonNegative(s.x + dx);
    CDivNonNegative(s.y + dy);
    assert (s.x + dx) / 8 == s.x / 8 by {
      assert s.x == 8 * (s.x / 8);
    }
    assert (s.y + dy) / 8 == s.y / 8 by {
      assert s.y == 8 * (s.y / 8);
    }
  }

  /**
   * With the camera `set_vec2_relative` gives, a player on tile `pos` is
   * drawn at the centre of a view whose half sizes are whole tiles.
   */
  lemma CameraCentres(pos: Point, viewW: int, viewH: int)
    requires CDiv(viewW, 2) % 8 == 0 && CDiv(viewH, 2) % 8 == 0
    ensures GridToScreen(pos, SetVec2Relative(pos, viewW, viewH)) == Point(CDiv(viewW, 2), CDiv(viewH, 2))
  {
    var cam := SetVec2Relative(pos, viewW, viewH);
    CentredAxis(pos.x, CDiv(viewW, 2), cam.x);
    CentredAxis(pos.y, CDiv(viewH, 2), cam.y);
  }

  /** One axis of `CameraCentres`: the camera is tile-aligned, so the player sits half a view in. */
  lemma CentredAxis(p: int, half: int, c: int)
    requires half % 8 == 0 && c == 8 * p - half
    ensures 8 * p - Aligned(c) == half
  {
    var m := half / 8;
    assert c == 8 * (p - m);
    CDivEight(p - m);
  }

  /**
   * The game view of main.c:147-152 is 75% of the 640·480 window, 480·480;
   * the player is drawn at pixel (240, 240) of it.
   */
  lemma GameViewCentre(pos: Point)
    ensures GridToScreen(pos, SetVec2Relative(pos, 75 * 640 / 100, 480)) == Point(240, 240)
  {
    assert 75 * 640 / 100 == 480;
    assert CDiv(480, 2) == 240;
    CameraCentres(pos, 480, 480);
  }
}
