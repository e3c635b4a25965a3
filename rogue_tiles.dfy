// The C++ roguelike's dungeon base class (dungeon.cpp): the map of tiles it
// builds from a generator's integer grid, and the id every dungeon takes from
// a counter shared by all of them.
module RogueTiles {
  import opened RogueGrid

  /** What a tile is, for the game. */
  datatype TileKind = Floor | Wall | Exit | Abyss

  /** `tile_t`: whether it blocks movement, the glyph it is drawn with, its kind. */
  datatype Tile = Tile(solid: bool, glyph: char, kind: TileKind)

  /** A value-initialised `tile_t`, what `resize` fills new slots with. */
  const Blank := Tile(false, 0 as char, Floor)

  /**
   * The `switch` of `fill_map` (dungeon.cpp:28-42): 0 is floor, 1 to 9 are
   * walls drawn with the glyph 34 + x, 10 is an exit, anything else abyss.
   * Only floor and exit can be walked on, and a wall's glyph gives back its
   * value, so no two wall values share a glyph.
   */
  function Decode(x: int): (t: Tile)
    ensures t.solid <==> x != 0 && x != 10
    ensures t.kind == Wall ==> Level(t.glyph) == x
    ensures t.kind == Floor <==> x == 0
    ensures t.kind == Exit <==> x == 10
    ensures t.kind == Wall <==> 1 <= x <= 9
  {
    if x == 0 then Tile(false, '.', Floor)
    else if 1 <= x <= 9 then Tile(true, (34 + x) as char, Wall)
    else if x == 10 then Tile(false, '?', Exit)
    else Tile(true, ' ', Abyss)
  }

  /** The wall height a wall glyph stands for. */
  function Level(c: char): int
  {
    c as int - 34
  }

  /** Wall heights drawn bottom up, `tile_map` (dungeon.hpp:15-27). */
  const TileMap: map<char, seq<char>> := map[
    ' ' := " ",
    '.' := ".",
    '#' := "#",
    '$' := "##",
    '%' := "###",
    '&' := "####",
    '\'' := "#####",
    '(' := "######",
    ')' := "#######",
    '*' := "########",
    '+' := " # # # #"
  ]

  /**
   * Every glyph `fill_map` writes has an entry in `tile_map` except the
   * exit's '?', and walls 1 to 8 are drawn as columns of that many '#'.
   */
  lemma GlyphsDrawn(x: int)
    ensures Decode(x).glyph in TileMap <==> x != 10
    ensures 1 <= x <= 8 ==> Decode(x).glyph in TileMap && TileMap[Decode(x).glyph] == seq(x, _ => '#')
  {
    if 1 <= x <= 8 {
      assert TileMap[Decode(x).glyph] == seq(x, _ => '#');
    }
  }

  /** `std::vector::resize`: keep the first n, or pad with `fill`. */
  function Resize<T>(s: seq<T>, n: nat, fill: T): (r: seq<T>)
    ensures |r| == n
    ensures forall k :: 0 <= k < n && k < |s| ==> r[k] == s[k]
  {
    if n <= |s| then s[..n] else s + seq(n - |s|, _ => fill)
  }

  /** The tiles of one row of a generator's grid. */
  function DecodeRow(row: seq<int>): (r: seq<Tile>)
    ensures |r| == |row| && forall j :: 0 <= j < |row| ==> r[j] == Decode(row[j])
  {
    seq(|row|, j requires 0 <= j < |row| => Decode(row[j]))
  }

  /** The static `s_id` of the constructor, shared by every dungeon. */
  class UidCounter {
    var next: int

    constructor()
      ensures next == 0
    {
      next := 0;
    }
  }

  /** `dungeon_t`, the part of it that the map and the id make up; `tiles` is its `map`. */
  class Dungeon {
    const uid: int
    var size: Point
    var tiles: seq<seq<Tile>>

    /** `dungeon_t()` (dungeon.cpp:3-7): takes the counter's value as the id and advances it. */
    constructor(ids: UidCounter)
      modifies ids
      ensures uid == old(ids.next) && ids.next == old(ids.next) + 1
      ensures tiles == []
    {
      uid := ids.next;
      tiles := [];
      new;
      ids.next := ids.next + 1;
    }

    /**
     * `fill_map(_map)` (dungeon.cpp:21-45): the map takes the grid's shape,
     * row by row (rows need not be of one length), each tile decoded from
     * its value; `size` is the row count and the first row's length.
     */
    method FillMap(src: seq<seq<int>>)
      requires |src| > 0
      modifies this
      ensures size == Point(|src|, |src[0]|)
      ensures |tiles| == |src|
      ensures forall i :: 0 <= i < |src| ==> tiles[i] == DecodeRow(src[i])
    {
      size := Point(|src|, |src[0]|);
      tiles := Resize(tiles, |src|, []);
      var i := 0;
      while i < |tiles|
        invariant 0 <= i <= |tiles| == |src|
        invariant size == Point(|src|, |src[0]|)
        invariant forall k :: 0 <= k < i ==> tiles[k] == DecodeRow(src[k])
      {
        var row := Resize(tiles[i], |src[i]|, Blank);
        var j := 0;
        while j < |src[i]|
          invariant 0 <= j <= |src[i]| == |row|
          invariant forall l :: 0 <= l < j ==> row[l] == Decode(src[i][l])
        {
          row := row[j := Decode(src[i][j])];
          j := j + 1;
        }
        tiles := tiles[i := row];
        i := i + 1;
      }
    }
  }

  /** Dungeons built one after another from a fresh counter get the ids 0, 1, 2, and so on. */
  method BuildDungeons(ids: UidCounter, n: nat) returns (ds: seq<Dungeon>)
    requires ids.next == 0
    modifies ids
    ensures |ds| == n && ids.next == n
    ensures forall k :: 0 <= k < n ==> ds[k].uid == k
  {
    ds := [];
    while |ds| < n
      invariant |ds| <= n && ids.next == |ds|
      invariant forall k :: 0 <= k < |ds| ==> ds[k].uid == k
    {
      var d := new Dungeon(ids);
      ds := ds + [d];
    }
  }
}
