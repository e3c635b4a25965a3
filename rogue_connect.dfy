// `connect_closest_rooms` of dungeon.c: for each room of one list, find
// the nearest pair of edge tiles to a room of the other list that is not
// the same room and not yet joined; when that pair lies within a squared
// distance of 50, join the two rooms both ways, spread the main-room mark
// across the new corridor and dig it.
module RogueConnect {
  import opened Wrappers
  import opened Grid
  import opened RogueCommon
  import opened RogueGrid
  import opened RogueRooms
  import RogueLinks
  import opened RoguePath
  import opened Strings

  /** The farthest squared distance `connect_closest_rooms` still joins. */
  const MaxJoin := 50

  /** A candidate corridor: its squared length, its two end tiles and the ids of their rooms. */
  datatype Match = Match(d: int, a: Point, b: Point, ra: int, rb: int)

  /**
   * `pow(dx, 2) + pow(dy, 2)` cast to int (dungeon.c:374). The doubles
   * hold these small squares exactly, so the integer sum is what C gets.
   */
  function SqDist(p: Point, q: Point): (d: int)
    ensures d >= 0
  {
    (p.x - q.x) * (p.x - q.x) + (p.y - q.y) * (p.y - q.y)
  }

  /** dungeon.c:375-382: a candidate replaces the best so far when there is none or it is strictly nearer. */
  function Offer(best: Option<Match>, m: Match): Option<Match> {
    if best.None? || m.d < best.value.d then Some(m) else best
  }

  /** The best after offering the candidates cs in order. */
  function Scan(best: Option<Match>, cs: seq<Match>): Option<Match> {
    if cs == [] then best else Offer(Scan(best, cs[..|cs| - 1]), cs[|cs| - 1])
  }

  /** Offering two runs of candidates is offering them one after the other. */
  lemma {:induction false} ScanAppend(best: Option<Match>, xs: seq<Match>, ys: seq<Match>)
    ensures Scan(best, xs + ys) == Scan(Scan(best, xs), ys)
    decreases |ys|
  {
    if ys == [] {
      assert xs + ys == xs;
    } else {
      ScanAppend(best, xs, ys[..|ys| - 1]);
      assert (xs + ys)[..|xs + ys| - 1] == xs + ys[..|ys| - 1];
    }
  }

  /**
   * The scan finds the nearest: nothing only when there was nothing and
   * no candidate; otherwise the best it started with or a candidate, no
   * farther than the start and than every candidate.
   */
  lemma {:induction false} ScanNearest(best: Option<Match>, cs: seq<Match>)
    ensures Scan(best, cs).None? <==> best.None? && cs == []
    ensures Scan(best, cs).Some? ==> Scan(best, cs) == best || Scan(best, cs).value in cs
    ensures Scan(best, cs).Some? && best.Some? ==> Scan(best, cs).value.d <= best.value.d
    ensures forall k :: 0 <= k < |cs| ==> Scan(best, cs).Some? && Scan(best, cs).value.d <= cs[k].d
  {
    if cs != [] {
      var init := cs[..|cs| - 1];
      ScanNearest(best, init);
      forall k | 0 <= k < |init| ensures cs[k] == init[k] { }
    }
  }

  /** The candidates from edge tile p of room ida to every edge eb of room idb, in order. */
  function EdgeMatches(p: Point, ida: int, eb: seq<Point>, idb: int): (cs: seq<Match>)
    ensures |cs| == |eb| && forall n :: 0 <= n < |eb| ==> cs[n] == Match(SqDist(p, eb[n]), p, eb[n], ida, idb)
  {
    seq(|eb|, n requires 0 <= n < |eb| => Match(SqDist(p, eb[n]), p, eb[n], ida, idb))
  }

  /** The candidates between the edges ea of room ida and eb of room idb, in the order the two loops take them. */
  function PairMatches(ea: seq<Point>, ida: int, eb: seq<Point>, idb: int): seq<Match> {
    if ea == [] then [] else PairMatches(ea[..|ea| - 1], ida, eb, idb) + EdgeMatches(ea[|ea| - 1], ida, eb, idb)
  }

  /** Every candidate between two rooms joins an edge of each, and every such pair is a candidate. */
  lemma {:induction false} PairMatchesAre(ea: seq<Point>, ida: int, eb: seq<Point>, idb: int, c: Match)
    ensures c in PairMatches(ea, ida, eb, idb) <==>
      exists m, n :: 0 <= m < |ea| && 0 <= n < |eb| && c == Match(SqDist(ea[m], eb[n]), ea[m], eb[n], ida, idb)
  {
    if ea != [] {
      var init := ea[..|ea| - 1];
      PairMatchesAre(init, ida, eb, idb, c);
      if c in EdgeMatches(ea[|ea| - 1], ida, eb, idb) {
        var n :| 0 <= n < |eb| && EdgeMatches(ea[|ea| - 1], ida, eb, idb)[n] == c;
        assert c == Match(SqDist(ea[|ea| - 1], eb[n]), ea[|ea| - 1], eb[n], ida, idb);
      }
      if exists m, n :: 0 <= m < |ea| && 0 <= n < |eb| && c == Match(SqDist(ea[m], eb[n]), ea[m], eb[n], ida, idb) {
        var m, n :| 0 <= m < |ea| && 0 <= n < |eb| && c == Match(SqDist(ea[m], eb[n]), ea[m], eb[n], ida, idb);
        if m < |init| {
          assert init[m] == ea[m];
        } else {
          assert EdgeMatches(ea[|ea| - 1], ida, eb, idb)[n] == c;
        }
      }
    }
  }

  /** The room ids of rs index the n·n link table. */
  ghost predicate IdsIn(rs: seq<Room>, n: int) {
    forall k :: 0 <= k < |rs| ==> 0 <= rs[k].id < n
  }

  /** dungeon.c:367-370: rooms a and b may be joined, being different rooms not yet linked. */
  predicate Open(rci: array2<bool>, a: Room, b: Room)
    requires 0 <= a.id < rci.Length0 && 0 <= b.id < rci.Length1
    reads rci
  {
    a.id != b.id && !rci[a.id, b.id]
  }

  /** The candidates from room a to the rooms rb, over the rooms that may be joined, in loop order. */
  function RoomMatches(rci: array2<bool>, a: Room, rb: seq<Room>): seq<Match>
    requires 0 <= a.id < rci.Length0 && IdsIn(rb, rci.Length1)
    reads rci
  {
    if rb == [] then []
    else
      var b := rb[|rb| - 1];
      RoomMatches(rci, a, rb[..|rb| - 1]) + (if Open(rci, a, b) then PairMatches(a.edges, a.id, b.edges, b.id) else [])
  }

  /** Candidate c runs from an edge of room a to an edge of room rb[j], which a may be joined to. */
  ghost predicate MatchTo(rci: array2<bool>, a: Room, rb: seq<Room>, c: Match)
    requires 0 <= a.id < rci.Length0 && IdsIn(rb, rci.Length1)
    reads rci
  {
    exists j, m, n :: 0 <= j < |rb| && Open(rci, a, rb[j]) && 0 <= m < |a.edges| && 0 <= n < |rb[j].edges| &&
      c == Match(SqDist(a.edges[m], rb[j].edges[n]), a.edges[m], rb[j].edges[n], a.id, rb[j].id)
  }

  /** Candidate c runs from an edge of room a to an edge of room rb[j]. */
  ghost predicate PairOf(a: Room, rb: seq<Room>, c: Match) {
    exists j, m, n :: 0 <= j < |rb| && 0 <= m < |a.edges| && 0 <= n < |rb[j].edges| &&
      c == Match(SqDist(a.edges[m], rb[j].edges[n]), a.edges[m], rb[j].edges[n], a.id, rb[j].id)
  }

  /** A candidate of a row is a pair of edge tiles, whatever the links come to be. */
  lemma MatchPair(rci: array2<bool>, a: Room, rb: seq<Room>, c: Match)
    requires 0 <= a.id < rci.Length0 && IdsIn(rb, rci.Length1) && MatchTo(rci, a, rb, c)
    ensures PairOf(a, rb, c)
  {
    var j, m, n :| 0 <= j < |rb| && Open(rci, a, rb[j]) && 0 <= m < |a.edges| && 0 <= n < |rb[j].edges| &&
      c == Match(SqDist(a.edges[m], rb[j].edges[n]), a.edges[m], rb[j].edges[n], a.id, rb[j].id);
  }

  /** The candidates of a row are exactly the edge pairs of the rooms it may join. */
  lemma {:induction false} RoomMatchesAre(rci: array2<bool>, a: Room, rb: seq<Room>, c: Match)
    requires 0 <= a.id < rci.Length0 && IdsIn(rb, rci.Length1)
    ensures c in RoomMatches(rci, a, rb) <==> MatchTo(rci, a, rb, c)
  {
    if rb != [] {
      var init, b := rb[..|rb| - 1], rb[|rb| - 1];
      RoomMatchesAre(rci, a, init, c);
      PairMatchesAre(a.edges, a.id, b.edges, b.id, c);
      if MatchTo(rci, a, init, c) {
        var j, m, n :| 0 <= j < |init| && Open(rci, a, init[j]) && 0 <= m < |a.edges| && 0 <= n < |init[j].edges| &&
          c == Match(SqDist(a.edges[m], init[j].edges[n]), a.edges[m], init[j].edges[n], a.id, init[j].id);
        assert rb[j] == init[j];
      }
      if MatchTo(rci, a, rb, c) {
        var j, m, n :| 0 <= j < |rb| && Open(rci, a, rb[j]) && 0 <= m < |a.edges| && 0 <= n < |rb[j].edges| &&
          c == Match(SqDist(a.edges[m], rb[j].edges[n]), a.edges[m], rb[j].edges[n], a.id, rb[j].id);
        if j < |init| {
          assert init[j] == rb[j];
        }
      }
    }
  }

  /** The pair the row of room a settles on: the first nearest candidate, if any. */
  function Nearest(rci: array2<bool>, a: Room, rb: seq<Room>): Option<Match>
    requires 0 <= a.id < rci.Length0 && IdsIn(rb, rci.Length1)
    reads rci
  {
    Scan(None, RoomMatches(rci, a, rb))
  }

  /**
   * What the row promises: no pair exactly when no room may be joined
   * through two edges; otherwise a candidate no farther than any other.
   */
  lemma NearestIsNearest(rci: array2<bool>, a: Room, rb: seq<Room>)
    requires 0 <= a.id < rci.Length0 && IdsIn(rb, rci.Length1)
    ensures Nearest(rci, a, rb).None? <==> forall c :: !MatchTo(rci, a, rb, c)
    ensures Nearest(rci, a, rb).Some? ==> MatchTo(rci, a, rb, Nearest(rci, a, rb).value)
    ensures forall c :: MatchTo(rci, a, rb, c) ==> Nearest(rci, a, rb).Some? && Nearest(rci, a, rb).value.d <= c.d
  {
    var cs := RoomMatches(rci, a, rb);
    ScanNearest(None, cs);
    forall c | MatchTo(rci, a, rb, c)
      ensures Nearest(rci, a, rb).Some? && Nearest(rci, a, rb).value.d <= c.d
    {
      RoomMatchesAre(rci, a, rb, c);
      var k :| 0 <= k < |cs| && cs[k] == c;
    }
    if Nearest(rci, a, rb).Some? {
      RoomMatchesAre(rci, a, rb, Nearest(rci, a, rb).value);
    }
  }

  /** The innermost loop (dungeon.c:373-383): edge p of room ida against every edge of room idb. */
  method ScanEdge(best: Option<Match>, p: Point, ida: int, eb: seq<Point>, idb: int) returns (best2: Option<Match>)
    ensures best2 == Scan(best, EdgeMatches(p, ida, eb, idb))
  {
    ghost var cs := EdgeMatches(p, ida, eb, idb);
    best2 := best;
    var n := 0;
    while n < |eb|
      invariant 0 <= n <= |eb| && best2 == Scan(best, cs[..n])
    {
      var d := (p.x - eb[n].x) * (p.x - eb[n].x) + (p.y - eb[n].y) * (p.y - eb[n].y);
      if best2.None? || d < best2.value.d {
        best2 := Some(Match(d, p, eb[n], ida, idb));
      }
      assert cs[..n + 1][..n] == cs[..n];
      n := n + 1;
    }
    assert cs[..n] == cs;
  }

  /** The two edge loops (dungeon.c:372-384) for rooms ida and idb. */
  method ScanPair(best: Option<Match>, ea: seq<Point>, ida: int, eb: seq<Point>, idb: int) returns (best2: Option<Match>)
    ensures best2 == Scan(best, PairMatches(ea, ida, eb, idb))
  {
    best2 := best;
    var m := 0;
    while m < |ea|
      invariant 0 <= m <= |ea| && best2 == Scan(best, PairMatches(ea[..m], ida, eb, idb))
    {
      assert ea[..m + 1][..m] == ea[..m];
      ScanAppend(best, PairMatches(ea[..m], ida, eb, idb), EdgeMatches(ea[m], ida, eb, idb));
      best2 := ScanEdge(best2, ea[m], ida, eb, idb);
      m := m + 1;
    }
    assert ea[..m] == ea;
  }

  /** The room loop of one row (dungeon.c:365-385): the nearest pair from room a to a room of rb it may join. */
  method NearestPair(rci: array2<bool>, a: Room, rb: seq<Room>) returns (best: Option<Match>)
    requires 0 <= a.id < rci.Length0 && IdsIn(rb, rci.Length1)
    ensures best == Nearest(rci, a, rb)
  {
    best := None;
    var j := 0;
    while j < |rb|
      invariant 0 <= j <= |rb| && best == Scan(None, RoomMatches(rci, a, rb[..j]))
    {
      assert rb[..j + 1][..j] == rb[..j];
      var b := rb[j];
      if a.id != b.id && !rci[a.id, b.id] {
        assert RoomMatches(rci, a, rb[..j + 1]) == RoomMatches(rci, a, rb[..j]) + PairMatches(a.edges, a.id, b.edges, b.id);
        ScanAppend(None, RoomMatches(rci, a, rb[..j]), PairMatches(a.edges, a.id, b.edges, b.id));
        best := ScanPair(best, a.edges, a.id, b.edges, b.id);
      } else {
        assert RoomMatches(rci, a, rb[..j]) + [] == RoomMatches(rci, a, rb[..j]);
        assert RoomMatches(rci, a, rb[..j + 1]) == RoomMatches(rci, a, rb[..j]);
      }
      j := j + 1;
    }
    assert rb[..j] == rb;
  }

  /** Every cell a dungeon corridor changes becomes 9. */
  lemma CorridorNines(g: seq<int>, w: int, h: int, cs: seq<Point>, r: int)
    requires |g| == w * h && 0 <= w && 0 <= h
    ensures forall q :: 0 <= q < |g| ==> Discs(g, w, cs, r, false)[q] == g[q] || Discs(g, w, cs, r, false)[q] == 9
  {
    forall q | 0 <= q < |g|
      ensures Discs(g, w, cs, r, false)[q] == g[q] || Discs(g, w, cs, r, false)[q] == 9
    {
      RowOfCell(q, w, h);
      DungeonCorridor(g, w, h, cs, r, q % w, q / w);
    }
  }

  /** Room b is room rb[j] and room a is ra[i], and they have edge tiles within the joining distance. */
  ghost predicate Near(ra: seq<Room>, rb: seq<Room>, a: int, b: int) {
    exists i, j, m, n :: 0 <= i < |ra| && 0 <= j < |rb| && ra[i].id == a && rb[j].id == b &&
      0 <= m < |ra[i].edges| && 0 <= n < |rb[j].edges| && SqDist(ra[i].edges[m], rb[j].edges[n]) <= MaxJoin
  }

  /** The link table and the marks for n rooms. */
  ghost predicate Tables(rci: array2<bool>, mci: array<bool>, n: int) {
    rci.Length0 == n && rci.Length1 == n && mci.Length == n
  }

  /**
   * The join of dungeon.c:387-396 for the pair m: spread the main-room
   * mark across it, link the two rooms both ways and dig the corridor
   * with radius `RND_RANGE(1, 3)` for the `rand()` result roll.
   */
  method Join(tiles: TileGrid, rci: array2<bool>, mci: array<bool>, n: int, m: Match, roll: int)
    requires tiles.Valid() && Tables(rci, mci, n) && 0 <= m.ra < n && 0 <= m.rb < n && m.ra != m.rb
    modifies rci, mci, tiles.cells
    ensures rci[m.ra, m.rb] && rci[m.rb, m.ra]
    ensures forall x, y :: 0 <= x < n && 0 <= y < n && !(x == m.ra && y == m.rb) && !(x == m.rb && y == m.ra) ==> rci[x, y] == old(rci[x, y])
    ensures forall k :: 0 <= k < n && old(mci[k]) ==> mci[k]
    ensures old(mci[m.ra]) || old(mci[m.rb]) ==> mci[m.ra] && mci[m.rb]
    ensures !old(mci[m.ra]) && !old(mci[m.rb]) ==> forall k :: 0 <= k < n ==> mci[k] == old(mci[k])
    ensures old(RogueLinks.MarksClosed(rci, mci)) ==> RogueLinks.MarksClosed(rci, mci)
    ensures old(RogueLinks.Symmetric(rci)) ==> RogueLinks.Symmetric(rci)
    ensures tiles.cells[..] == Discs(old(tiles.cells[..]), tiles.w, Walk(m.a, LineOf(m.a, m.b), LineOf(m.a, m.b).longest), RndRange(roll, 1, 3), false)
  {
    MarkAcross(rci, mci, n, m.ra, m.rb);
    Link(rci, mci, n, m.ra, m.rb);
    DrawConnectionPath(tiles, m.a, m.b, roll);
  }

  /** The marking half of `Join` (dungeon.c:388-391): whichever end is marked, the marks spread to the other. */
  method MarkAcross(rci: array2<bool>, mci: array<bool>, n: int, ra: int, rb: int)
    requires Tables(rci, mci, n) && 0 <= ra < n && 0 <= rb < n && ra != rb
    modifies mci
    ensures forall k :: 0 <= k < n && old(mci[k]) ==> mci[k]
    ensures old(mci[ra]) || old(mci[rb]) ==> mci[ra] && mci[rb]
    ensures !old(mci[ra]) && !old(mci[rb]) ==> forall k :: 0 <= k < n ==> mci[k] == old(mci[k])
    ensures mci[ra] <==> mci[rb]
    ensures old(RogueLinks.MarksClosed(rci, mci)) ==> RogueLinks.MarksClosed(rci, mci)
  {
    ghost var closed := RogueLinks.MarksClosed(rci, mci);
    if mci[ra] {
      var _ := RogueLinks.UpdateMainConnections(rb, rci, mci, n);
    }
    if mci[rb] {
      var _ := RogueLinks.UpdateMainConnections(ra, rci, mci, n);
    }
    assert closed ==> RogueLinks.MarksClosed(rci, mci);
  }

  /** The linking half of `Join` (dungeon.c:392-393): the two rooms joined both ways, and no other pair. */
  method Link(rci: array2<bool>, mci: array<bool>, n: int, ra: int, rb: int)
    requires Tables(rci, mci, n) && 0 <= ra < n && 0 <= rb < n && ra != rb && (mci[ra] <==> mci[rb])
    modifies rci
    ensures rci[ra, rb] && rci[rb, ra]
    ensures forall x, y :: 0 <= x < n && 0 <= y < n && !(x == ra && y == rb) && !(x == rb && y == ra) ==> rci[x, y] == old(rci[x, y])
    ensures old(RogueLinks.MarksClosed(rci, mci)) ==> RogueLinks.MarksClosed(rci, mci)
    ensures old(RogueLinks.Symmetric(rci)) ==> RogueLinks.Symmetric(rci)
  {
    rci[ra, rb] := true;
    rci[rb, ra] := true;
  }

  /** The pair a row joins: its nearest pair, when that lies within the joining distance. */
  function Joinable(best: Option<Match>): (j: Option<Match>)
    ensures j.Some? <==> best.Some? && best.value.d <= MaxJoin
    ensures j.Some? ==> j == best
  {
    if best.Some? && best.value.d <= MaxJoin then best else None
  }

  /**
   * One row of `connect_closest_rooms` (dungeon.c:364-397) for room a,
   * with roll the `rand()` result its corridor would draw: the row joins
   * the nearest pair to a room of rb it may join when that pair is within
   * the joining distance, and changes nothing otherwise.
   */
  method ConnectRow(tiles: TileGrid, a: Room, rb: seq<Room>, rci: array2<bool>, mci: array<bool>, n: int, roll: int)
      returns (joined: Option<Match>)
    requires tiles.Valid() && Tables(rci, mci, n) && 0 <= a.id < n && IdsIn(rb, n)
    modifies rci, mci, tiles.cells
    ensures joined == Joinable(old(Nearest(rci, a, rb)))
    ensures joined.Some? ==> old(MatchTo(rci, a, rb, joined.value)) && PairOf(a, rb, joined.value)
    ensures joined.None? ==> forall x, y :: 0 <= x < n && 0 <= y < n ==> rci[x, y] == old(rci[x, y])
    ensures joined.None? ==> forall k :: 0 <= k < n ==> mci[k] == old(mci[k])
    ensures joined.None? ==> tiles.cells[..] == old(tiles.cells[..])
    ensures joined.Some? ==> var m := joined.value;
      0 <= m.ra < n && 0 <= m.rb < n && rci[m.ra, m.rb] && rci[m.rb, m.ra] &&
      (forall x, y :: 0 <= x < n && 0 <= y < n && !(x == m.ra && y == m.rb) && !(x == m.rb && y == m.ra) ==> rci[x, y] == old(rci[x, y])) &&
      (old(mci[m.ra]) || old(mci[m.rb]) ==> mci[m.ra] && mci[m.rb]) &&
      tiles.cells[..] == Discs(old(tiles.cells[..]), tiles.w, Walk(m.a, LineOf(m.a, m.b), LineOf(m.a, m.b).longest), RndRange(roll, 1, 3), false)
    ensures forall k :: 0 <= k < n && old(mci[k]) ==> mci[k]
    ensures old(RogueLinks.MarksClosed(rci, mci)) ==> RogueLinks.MarksClosed(rci, mci)
    ensures old(RogueLinks.Symmetric(rci)) ==> RogueLinks.Symmetric(rci)
  {
    var best := NearestPair(rci, a, rb);
    joined := None;
    if best.Some? && best.value.d <= MaxJoin {
      NearestIsNearest(rci, a, rb);
      MatchPair(rci, a, rb, best.value);
      joined := best;
      Join(tiles, rci, mci, n, best.value, roll);
    }
  }

  /**
   * `connect_closest_rooms(map, ra, ral, rb, rbl, rci, mci, n_rooms)`
   * (dungeon.c:361-398), with `rolls(i)` the `rand()` result that row i
   * draws its corridor radius from. Links and marks are only added; a
   * new link runs both ways and joins two rooms, one of each list, with
   * edge tiles within the joining distance; a symmetric table stays
   * symmetric, marks closed under the links stay closed, and the map
   * changes only to corridor 9.
   */
  method ConnectClosestRooms(tiles: TileGrid, ra: seq<Room>, rb: seq<Room>, rci: array2<bool>, mci: array<bool>, n: int, rolls: int -> int)
    requires tiles.Valid() && Tables(rci, mci, n) && IdsIn(ra, n) && IdsIn(rb, n)
    modifies rci, mci, tiles.cells
    ensures forall k :: 0 <= k < n && old(mci[k]) ==> mci[k]
    ensures forall x, y :: 0 <= x < n && 0 <= y < n && old(rci[x, y]) ==> rci[x, y]
    ensures forall x, y :: 0 <= x < n && 0 <= y < n && rci[x, y] && !old(rci[x, y]) ==>
      rci[y, x] && (Near(ra, rb, x, y) || Near(ra, rb, y, x))
    ensures old(RogueLinks.Symmetric(rci)) ==> RogueLinks.Symmetric(rci)
    ensures old(RogueLinks.MarksClosed(rci, mci)) ==> RogueLinks.MarksClosed(rci, mci)
    ensures forall q :: 0 <= q < tiles.cells.Length ==> tiles.cells[q] == old(tiles.cells[q]) || tiles.cells[q] == 9
  {
    ghost var g := tiles.cells[..];
    var i := 0;
    while i < |ra|
      invariant 0 <= i <= |ra|
      invariant forall k :: 0 <= k < n && old(mci[k]) ==> mci[k]
      invariant forall x, y :: 0 <= x < n && 0 <= y < n && old(rci[x, y]) ==> rci[x, y]
      invariant forall x, y :: 0 <= x < n && 0 <= y < n && rci[x, y] && !old(rci[x, y]) ==>
        rci[y, x] && (Near(ra, rb, x, y) || Near(ra, rb, y, x))
      invariant old(RogueLinks.Symmetric(rci)) ==> RogueLinks.Symmetric(rci)
      invariant old(RogueLinks.MarksClosed(rci, mci)) ==> RogueLinks.MarksClosed(rci, mci)
      invariant forall q :: 0 <= q < |g| ==> tiles.cells[q] == g[q] || tiles.cells[q] == 9
    {
      ghost var before := tiles.cells[..];
      var joined := ConnectRow(tiles, ra[i], rb, rci, mci, n, rolls(i));
      if joined.Some? {
        JoinedNear(ra, rb, i, joined.value);
        CorridorNines(before, tiles.w, tiles.h, Walk(joined.value.a, LineOf(joined.value.a, joined.value.b), LineOf(joined.value.a, joined.value.b).longest), RndRange(rolls(i), 1, 3));
      }
      i := i + 1;
    }
  }

  /** A pair row i joins links rooms with edge tiles within the joining distance. */
  lemma JoinedNear(ra: seq<Room>, rb: seq<Room>, i: int, m: Match)
    requires 0 <= i < |ra| && PairOf(ra[i], rb, m) && m.d <= MaxJoin
    ensures Near(ra, rb, m.ra, m.rb)
  {
    var a := ra[i];
    var j, e, f :| 0 <= j < |rb| && 0 <= e < |a.edges| && 0 <= f < |rb[j].edges| &&
      m == Match(SqDist(a.edges[e], rb[j].edges[f]), a.edges[e], rb[j].edges[f], a.id, rb[j].id);
    assert SqDist(ra[i].edges[e], rb[j].edges[f]) <= MaxJoin;
  }
}
