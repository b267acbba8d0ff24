/**
 * The tile-writing rules of src/map_builder/mod.rs, stated as functions of
 * the tiles before the write: stamping a room, the two tunnel shapes, the
 * L-shaped corridor between two room centres and the whole corridor pass.
 * The methods of `Builder.MapBuilder` are proved to compute exactly these.
 */
module Carving {
  import opened Maps
  import opened Rects
  import opened Random

  const NUM_ROOMS: int := 20

  function Min(a: int, b: int): int { if a <= b then a else b }
  function Max(a: int, b: int): int { if a <= b then b else a }

  // ---------------------------------------------------------------- rooms

  /** A room as `build_random_rooms` draws it: x from [1, 70), y from [1, 40),
      width and height from [2, 10). */
  predicate Generated(r: Rect) {
    1 <= r.x1 < SCREEN_WIDTH - 10 && 1 <= r.y1 < SCREEN_HEIGHT - 10 &&
    2 <= r.x2 - r.x1 < 10 && 2 <= r.y2 - r.y1 < 10
  }

  /** The cells the stamping closure writes: a cell of the room that passes
      the guard 0 < x < 80 and 0 < y < 50. */
  predicate StampsCell(room: Rect, p: Point) {
    Covers(room, p) && 0 < p.x < SCREEN_WIDTH && 0 < p.y < SCREEN_HEIGHT
  }

  /** The tiles after one accepted room has been stamped as Floor. */
  function Stamp(tiles: seq<TileType>, room: Rect): (r: seq<TileType>)
    requires |tiles| == NUM_TILES
    ensures |r| == NUM_TILES
  {
    seq(NUM_TILES, i requires 0 <= i < NUM_TILES =>
      if StampsCell(room, IndexToPoint(i)) then Floor else tiles[i])
  }

  /** The tiles after the rooms of `rs` have been stamped in order. */
  function StampAll(tiles: seq<TileType>, rs: seq<Rect>): (r: seq<TileType>)
    requires |tiles| == NUM_TILES
    ensures |r| == NUM_TILES
  {
    if rs == [] then tiles else Stamp(StampAll(tiles, rs[..|rs| - 1]), rs[|rs| - 1])
  }

  predicate PairwiseDisjoint(rs: seq<Rect>) {
    forall i, j | 0 <= i < j < |rs| :: !Intersect(rs[i], rs[j])
  }

  /** The candidate `build_random_rooms` draws with the generator at draw
      `pos`: x, y, width and height, one draw each, in that order. */
  function Candidate(source: nat -> nat, pos: nat): (r: Rect)
    ensures Generated(r)
  {
    WithSize(Draw(source, pos, 1, SCREEN_WIDTH - 10), Draw(source, pos + 1, 1, SCREEN_HEIGHT - 10),
             Draw(source, pos + 2, 2, 10), Draw(source, pos + 3, 2, 10))
  }

  /** Some room of `placed` intersects `room`. */
  predicate Meets(placed: seq<Rect>, room: Rect) {
    exists i | 0 <= i < |placed| :: Intersect(placed[i], room)
  }

  /** The rooms after drawing `room`: appended exactly when it meets no placed room. */
  function Admitted(placed: seq<Rect>, room: Rect): seq<Rect> {
    if Meets(placed, room) then placed else placed + [room]
  }

  /** The room list of `build_random_rooms` after `n` candidates, starting
      from `placed` with the generator at draw `pos`: candidate k is drawn
      at `pos + 4 * k` and appended exactly when it meets no room placed
      before it. */
  function RoomsAfter(placed: seq<Rect>, source: nat -> nat, pos: nat, n: nat): seq<Rect> {
    if n == 0 then placed
    else Admitted(RoomsAfter(placed, source, pos, n - 1), Candidate(source, pos + 4 * (n - 1)))
  }

  /** One more candidate: the `n`-th is drawn at `pos + 4 * n`. */
  lemma RoomsAfterStep(placed: seq<Rect>, source: nat -> nat, pos: nat, n: nat)
    ensures RoomsAfter(placed, source, pos, n + 1) ==
      Admitted(RoomsAfter(placed, source, pos, n), Candidate(source, pos + 4 * n))
  {
  }

  /** Each of the first `n` candidates was drawn with fewer than NUM_ROOMS rooms placed. */
  predicate ShortBefore(placed: seq<Rect>, source: nat -> nat, pos: nat, n: nat) {
    forall k | 0 <= k < n :: |RoomsAfter(placed, source, pos, k)| < NUM_ROOMS
  }

  lemma ShortBeforeStep(placed: seq<Rect>, source: nat -> nat, pos: nat, n: nat)
    requires ShortBefore(placed, source, pos, n) && |RoomsAfter(placed, source, pos, n)| < NUM_ROOMS
    ensures ShortBefore(placed, source, pos, n + 1)
  {
  }

  /** Rooms from index `n0` on are generated rooms, each meeting no room before it. */
  predicate PlacedFrom(rs: seq<Rect>, n0: nat) {
    (forall j | n0 <= j < |rs| :: Generated(rs[j])) &&
    (forall i, j | 0 <= i < j < |rs| && n0 <= j :: !Intersect(rs[i], rs[j]))
  }

  /** Appending a generated room that meets none of `rs` keeps `PlacedFrom`. */
  lemma AppendPlaced(rs: seq<Rect>, n0: nat, room: Rect)
    requires PlacedFrom(rs, n0) && Generated(room) && !Meets(rs, room)
    ensures PlacedFrom(rs + [room], n0)
  {
    var r := rs + [room];
    assert forall i | 0 <= i < |rs| :: r[i] == rs[i];
  }

  /** Whatever the draws, rooms are only appended, at most one per
      candidate, and each new room is a generated room meeting no room
      before it. */
  lemma {:induction false} RoomsAfterSound(placed: seq<Rect>, source: nat -> nat, pos: nat, n: nat)
    ensures var r := RoomsAfter(placed, source, pos, n);
      placed <= r && |r| <= |placed| + n && PlacedFrom(r, |placed|)
  {
    if n > 0 {
      RoomsAfterSound(placed, source, pos, n - 1);
      var prev := RoomsAfter(placed, source, pos, n - 1);
      var room := Candidate(source, pos + 4 * (n - 1));
      if !Meets(prev, room) {
        AppendPlaced(prev, |placed|, room);
      }
    }
  }

  /** Rooms appended so that each meets none before it keep a disjoint list disjoint. */
  lemma KeepsPairwise(placed: seq<Rect>, r: seq<Rect>)
    requires placed <= r && PlacedFrom(r, |placed|) && PairwiseDisjoint(placed)
    ensures PairwiseDisjoint(r)
  {
    forall i, j | 0 <= i < j < |r|
      ensures !Intersect(r[i], r[j])
    {
      if j < |placed| {
        assert r[i] == placed[i] && r[j] == placed[j];
      }
    }
  }

  /** Every cell of a generated room already passes the stamping guard, so
      the guard never drops a cell of such a room. */
  lemma GeneratedRoomInsideGuard(r: Rect, p: Point)
    requires Generated(r) && Covers(r, p)
    ensures StampsCell(r, p) && InBounds(p)
  {
  }

  /** Stamping a sequence of rooms writes only Floor, only at cells that pass
      the guard in one of the rooms; every such cell ends up Floor, and every
      tile that was Floor stays Floor, so no earlier room is erased. */
  lemma {:induction false} StampAllEffect(tiles: seq<TileType>, rs: seq<Rect>, i: int)
    requires |tiles| == NUM_TILES && 0 <= i < NUM_TILES
    ensures StampAll(tiles, rs)[i] == Floor <==>
      tiles[i] == Floor || exists k | 0 <= k < |rs| :: StampsCell(rs[k], IndexToPoint(i))
    ensures StampAll(tiles, rs)[i] != tiles[i] ==> StampAll(tiles, rs)[i] == Floor
  {
    if rs != [] {
      var init := rs[..|rs| - 1];
      StampAllEffect(tiles, init, i);
      if exists k | 0 <= k < |rs| :: StampsCell(rs[k], IndexToPoint(i)) {
        var k :| 0 <= k < |rs| && StampsCell(rs[k], IndexToPoint(i));
        if k < |rs| - 1 {
          assert init[k] == rs[k];
        }
      }
      if exists k | 0 <= k < |init| :: StampsCell(init[k], IndexToPoint(i)) {
        var k :| 0 <= k < |init| && StampsCell(init[k], IndexToPoint(i));
        assert rs[k] == init[k];
      }
    }
  }

  // -------------------------------------------------------------- tunnels

  predicate OnVertical(p: Point, y1: int, y2: int, x: int) {
    p.x == x && Min(y1, y2) <= p.y <= Max(y1, y2)
  }

  predicate OnHorizontal(p: Point, x1: int, x2: int, y: int) {
    p.y == y && Min(x1, x2) <= p.x <= Max(x1, x2)
  }

  /** `apply_vertical_tunnel(y1, y2, x)`: every in-bounds cell of the inclusive
      column segment becomes Floor; cells off the map are skipped. */
  function CarveVertical(tiles: seq<TileType>, y1: int, y2: int, x: int): (r: seq<TileType>)
    requires |tiles| == NUM_TILES
    ensures |r| == NUM_TILES
  {
    seq(NUM_TILES, i requires 0 <= i < NUM_TILES =>
      if OnVertical(IndexToPoint(i), y1, y2, x) then Floor else tiles[i])
  }

  /** `apply_horizontal_tunnel(x1, x2, y)`, the row counterpart. */
  function CarveHorizontal(tiles: seq<TileType>, x1: int, x2: int, y: int): (r: seq<TileType>)
    requires |tiles| == NUM_TILES
    ensures |r| == NUM_TILES
  {
    seq(NUM_TILES, i requires 0 <= i < NUM_TILES =>
      if OnHorizontal(IndexToPoint(i), x1, x2, y) then Floor else tiles[i])
  }

  /** Both tunnels are symmetric in their end points, because the loop runs
      from the smaller to the larger one. */
  lemma TunnelsSymmetric(tiles: seq<TileType>, a: int, b: int, c: int)
    requires |tiles| == NUM_TILES
    ensures CarveVertical(tiles, a, b, c) == CarveVertical(tiles, b, a, c)
    ensures CarveHorizontal(tiles, a, b, c) == CarveHorizontal(tiles, b, a, c)
  {
    assert forall i | 0 <= i < NUM_TILES ::
      CarveVertical(tiles, a, b, c)[i] == CarveVertical(tiles, b, a, c)[i];
    assert forall i | 0 <= i < NUM_TILES ::
      CarveHorizontal(tiles, a, b, c)[i] == CarveHorizontal(tiles, b, a, c)[i];
  }

  // ------------------------------------------------------------ corridors

  /** A walk from `a` to `b` in unit orthogonal steps. */
  predicate IsWalk(path: seq<Point>, a: Point, b: Point) {
    |path| >= 1 && path[0] == a && path[|path| - 1] == b &&
    forall k | 0 <= k < |path| - 1 :: Adjacent(path[k], path[k + 1])
  }

  /** The cells of a row segment from x1 to x2, in walking order. */
  function RowPath(x1: int, x2: int, y: int): seq<Point>
    decreases if x1 <= x2 then x2 - x1 else x1 - x2
  {
    if x1 == x2 then [Point(x1, y)]
    else if x1 < x2 then [Point(x1, y)] + RowPath(x1 + 1, x2, y)
    else [Point(x1, y)] + RowPath(x1 - 1, x2, y)
  }

  /** The cells of a column segment from y1 to y2, in walking order. */
  function ColumnPath(y1: int, y2: int, x: int): seq<Point>
    decreases if y1 <= y2 then y2 - y1 else y1 - y2
  {
    if y1 == y2 then [Point(x, y1)]
    else if y1 < y2 then [Point(x, y1)] + ColumnPath(y1 + 1, y2, x)
    else [Point(x, y1)] + ColumnPath(y1 - 1, y2, x)
  }

  lemma {:induction false} RowPathWalks(x1: int, x2: int, y: int)
    ensures IsWalk(RowPath(x1, x2, y), Point(x1, y), Point(x2, y))
    ensures forall q | q in RowPath(x1, x2, y) :: OnHorizontal(q, x1, x2, y)
    decreases if x1 <= x2 then x2 - x1 else x1 - x2
  {
    var p := RowPath(x1, x2, y);
    if x1 != x2 {
      var next := if x1 < x2 then x1 + 1 else x1 - 1;
      RowPathWalks(next, x2, y);
      var tail := RowPath(next, x2, y);
      assert p == [Point(x1, y)] + tail;
      assert p[|p| - 1] == tail[|tail| - 1];
      forall k | 0 <= k < |p| - 1
        ensures Adjacent(p[k], p[k + 1])
      {
        if k == 0 {
          assert p[1] == tail[0];
        } else {
          assert p[k] == tail[k - 1] && p[k + 1] == tail[k];
        }
      }
      forall q | q in p
        ensures OnHorizontal(q, x1, x2, y)
      {
        if q != Point(x1, y) {
          assert q in tail;
        }
      }
    }
  }

  lemma {:induction false} ColumnPathWalks(y1: int, y2: int, x: int)
    ensures IsWalk(ColumnPath(y1, y2, x), Point(x, y1), Point(x, y2))
    ensures forall q | q in ColumnPath(y1, y2, x) :: OnVertical(q, y1, y2, x)
    decreases if y1 <= y2 then y2 - y1 else y1 - y2
  {
    var p := ColumnPath(y1, y2, x);
    if y1 != y2 {
      var next := if y1 < y2 then y1 + 1 else y1 - 1;
      ColumnPathWalks(next, y2, x);
      var tail := ColumnPath(next, y2, x);
      assert p == [Point(x, y1)] + tail;
      assert p[|p| - 1] == tail[|tail| - 1];
      forall k | 0 <= k < |p| - 1
        ensures Adjacent(p[k], p[k + 1])
      {
        if k == 0 {
          assert p[1] == tail[0];
        } else {
          assert p[k] == tail[k - 1] && p[k + 1] == tail[k];
        }
      }
      forall q | q in p
        ensures OnVertical(q, y1, y2, x)
      {
        if q != Point(x, y1) {
          assert q in tail;
        }
      }
    }
  }

  /** Joining two walks whose meeting point is shared gives a walk. */
  lemma JoinWalks(p: seq<Point>, q: seq<Point>, a: Point, m: Point, b: Point)
    requires IsWalk(p, a, m) && IsWalk(q, m, b)
    ensures IsWalk(p + q[1..], a, b)
  {
    var w := p + q[1..];
    forall k | 0 <= k < |w| - 1
      ensures Adjacent(w[k], w[k + 1])
    {
      if k < |p| - 1 {
      } else {
        assert w[k] == q[k - |p| + 1] && w[k + 1] == q[k - |p| + 2];
      }
    }
  }

  /** The L-shaped corridor `build_corridors` digs from centre `a` to centre
      `b`: when the coin is 1 the row leg at a.y comes first and the column
      leg at b.x second, otherwise the column leg at a.x first and the row leg
      at b.y second. The two legs share their corner cell. */
  function LPath(a: Point, b: Point, rowFirst: bool): seq<Point> {
    if rowFirst then RowPath(a.x, b.x, a.y) + ColumnPath(a.y, b.y, b.x)[1..]
    else ColumnPath(a.y, b.y, a.x) + RowPath(a.x, b.x, b.y)[1..]
  }

  /** The tiles after one corridor between centres `a` and `b` for coin `coin`. */
  function CarveCorridor(tiles: seq<TileType>, a: Point, b: Point, coin: int): (r: seq<TileType>)
    requires |tiles| == NUM_TILES
    ensures |r| == NUM_TILES
  {
    if coin == 1 then CarveVertical(CarveHorizontal(tiles, a.x, b.x, a.y), a.y, b.y, b.x)
    else CarveHorizontal(CarveVertical(tiles, a.y, b.y, a.x), a.x, b.x, b.y)
  }

  /** Every in-bounds cell of `path` is Floor. */
  predicate FloorAlong(tiles: seq<TileType>, path: seq<Point>)
    requires |tiles| == NUM_TILES
  {
    forall q {:trigger q in path} | q in path && InBounds(q) :: tiles[MapIdx(q.x, q.y)] == Floor
  }

  /** Every cell of the corridor's walk lies on one of the two tunnel
      segments the corridor carves. */
  lemma LPathOnLegs(a: Point, b: Point, coin: int, q: Point)
    requires q in LPath(a, b, coin == 1)
    ensures coin == 1 ==> OnHorizontal(q, a.x, b.x, a.y) || OnVertical(q, a.y, b.y, b.x)
    ensures coin != 1 ==> OnVertical(q, a.y, b.y, a.x) || OnHorizontal(q, a.x, b.x, b.y)
  {
    if coin == 1 {
      RowPathWalks(a.x, b.x, a.y);
      ColumnPathWalks(a.y, b.y, b.x);
      if q !in RowPath(a.x, b.x, a.y) {
        assert q in ColumnPath(a.y, b.y, b.x)[1..];
      }
    } else {
      ColumnPathWalks(a.y, b.y, a.x);
      RowPathWalks(a.x, b.x, b.y);
      if q !in ColumnPath(a.y, b.y, a.x) {
        assert q in RowPath(a.x, b.x, b.y)[1..];
      }
    }
  }

  /** Every in-bounds cell of the corridor's walk is Floor after the corridor is carved. */
  lemma CorridorFloor(tiles: seq<TileType>, a: Point, b: Point, coin: int)
    requires |tiles| == NUM_TILES
    ensures FloorAlong(CarveCorridor(tiles, a, b, coin), LPath(a, b, coin == 1))
  {
    var r := CarveCorridor(tiles, a, b, coin);
    forall q | q in LPath(a, b, coin == 1) && InBounds(q)
      ensures r[MapIdx(q.x, q.y)] == Floor
    {
      LPathOnLegs(a, b, coin, q);
      assert IndexToPoint(MapIdx(q.x, q.y)) == q;
    }
  }

  /** A corridor is a walk from one centre to the other whose in-bounds cells
      are all Floor afterwards; when both centres are on the map, every cell of
      the walk is on the map, so the two rooms are connected through Floor. */
  lemma CorridorConnects(tiles: seq<TileType>, a: Point, b: Point, coin: int)
    requires |tiles| == NUM_TILES
    ensures IsWalk(LPath(a, b, coin == 1), a, b)
    ensures FloorAlong(CarveCorridor(tiles, a, b, coin), LPath(a, b, coin == 1))
    ensures InBounds(a) && InBounds(b) ==> forall q | q in LPath(a, b, coin == 1) :: InBounds(q)
  {
    CorridorFloor(tiles, a, b, coin);
    RowPathWalks(a.x, b.x, a.y);
    ColumnPathWalks(a.y, b.y, b.x);
    ColumnPathWalks(a.y, b.y, a.x);
    RowPathWalks(a.x, b.x, b.y);
    if coin == 1 {
      JoinWalks(RowPath(a.x, b.x, a.y), ColumnPath(a.y, b.y, b.x), a, Point(b.x, a.y), b);
    } else {
      JoinWalks(ColumnPath(a.y, b.y, a.x), RowPath(a.x, b.x, b.y), a, Point(a.x, b.y), b);
    }
    forall q | q in LPath(a, b, coin == 1)
      ensures InBounds(a) && InBounds(b) ==> InBounds(q)
    {
      LPathOnLegs(a, b, coin, q);
    }
  }

  /** The tiles after the corridors between the first `n` rooms of `sorted`;
      corridor k (joining rooms k - 1 and k) tosses raw draw `pos + k - 1`. */
  function CarveCorridors(tiles: seq<TileType>, sorted: seq<Rect>, source: nat -> nat, pos: nat, n: nat): (r: seq<TileType>)
    requires |tiles| == NUM_TILES && n <= |sorted|
    ensures |r| == NUM_TILES
  {
    if n <= 1 then tiles
    else CarveCorridor(CarveCorridors(tiles, sorted, source, pos, n - 1),
                       Center(sorted[n - 2]), Center(sorted[n - 1]), Draw(source, pos + n - 2, 0, 2))
  }

  /** One more corridor extends the pass by the corridor from room n - 1 to room n. */
  lemma CarveCorridorsStep(tiles: seq<TileType>, sorted: seq<Rect>, source: nat -> nat, pos: nat, n: nat)
    requires |tiles| == NUM_TILES && 1 <= n < |sorted|
    ensures CarveCorridors(tiles, sorted, source, pos, n + 1)
         == CarveCorridor(CarveCorridors(tiles, sorted, source, pos, n),
                          Center(sorted[n - 1]), Center(sorted[n]), Draw(source, pos + n - 1, 0, 2))
  {
  }

  /** Carving a tunnel only ever turns tiles into Floor. */
  lemma CarveCorridorOnlyFloor(tiles: seq<TileType>, a: Point, b: Point, coin: int)
    requires |tiles| == NUM_TILES
    ensures forall i | 0 <= i < NUM_TILES :: tiles[i] == Floor ==> CarveCorridor(tiles, a, b, coin)[i] == Floor
    ensures forall i | 0 <= i < NUM_TILES :: CarveCorridor(tiles, a, b, coin)[i] != tiles[i] ==>
      CarveCorridor(tiles, a, b, coin)[i] == Floor
  {
  }

  /** The corridor pass never turns a Floor tile into a Wall and writes nothing but Floor. */
  lemma {:induction false} CarveCorridorsOnlyFloor(tiles: seq<TileType>, sorted: seq<Rect>, source: nat -> nat, pos: nat, n: nat)
    requires |tiles| == NUM_TILES && n <= |sorted|
    ensures forall i | 0 <= i < NUM_TILES :: tiles[i] == Floor ==> CarveCorridors(tiles, sorted, source, pos, n)[i] == Floor
    ensures forall i | 0 <= i < NUM_TILES :: CarveCorridors(tiles, sorted, source, pos, n)[i] != tiles[i] ==>
      CarveCorridors(tiles, sorted, source, pos, n)[i] == Floor
  {
    if n > 1 {
      CarveCorridorsOnlyFloor(tiles, sorted, source, pos, n - 1);
      var prev := CarveCorridors(tiles, sorted, source, pos, n - 1);
      CarveCorridorOnlyFloor(prev, Center(sorted[n - 2]), Center(sorted[n - 1]), Draw(source, pos + n - 2, 0, 2));
    }
  }

  /** After the corridor pass, every pair of rooms adjacent in `sorted` is
      joined by its L-shaped walk, all of whose in-bounds cells are Floor:
      later corridors never undo earlier ones. */
  lemma CarveCorridorsConnect(tiles: seq<TileType>, sorted: seq<Rect>, source: nat -> nat, pos: nat, n: nat, k: int)
    requires |tiles| == NUM_TILES && n <= |sorted| && 1 <= k < n
    ensures FloorAlong(CarveCorridors(tiles, sorted, source, pos, n),
                       LPath(Center(sorted[k - 1]), Center(sorted[k]), Draw(source, pos + k - 1, 0, 2) == 1))
  {
    var a, b := Center(sorted[k - 1]), Center(sorted[k]);
    var coin := Draw(source, pos + k - 1, 0, 2);
    var path := LPath(a, b, coin == 1);
    CarveCorridorsStep(tiles, sorted, source, pos, k);
    CorridorFloor(CarveCorridors(tiles, sorted, source, pos, k), a, b, coin);
    LaterCorridorsKeep(tiles, sorted, source, pos, k + 1, n, path);
  }

  /** The corridors after the first `m` rooms keep every path that is all
      Floor after them all Floor. */
  lemma {:induction false} LaterCorridorsKeep(tiles: seq<TileType>, sorted: seq<Rect>, source: nat -> nat, pos: nat,
                                              m: nat, n: nat, path: seq<Point>)
    requires |tiles| == NUM_TILES && m <= n <= |sorted|
    requires FloorAlong(CarveCorridors(tiles, sorted, source, pos, m), path)
    ensures FloorAlong(CarveCorridors(tiles, sorted, source, pos, n), path)
    decreases n - m
  {
    if m < n {
      var next := CarveCorridors(tiles, sorted, source, pos, m + 1);
      if m >= 1 {
        CarveCorridorsStep(tiles, sorted, source, pos, m);
        CorridorKeepsFloorAlong(CarveCorridors(tiles, sorted, source, pos, m),
                                Center(sorted[m - 1]), Center(sorted[m]), Draw(source, pos + m - 1, 0, 2), path);
      }
      LaterCorridorsKeep(tiles, sorted, source, pos, m + 1, n, path);
    }
  }

  /** Carving one more corridor keeps a path all Floor. */
  lemma CorridorKeepsFloorAlong(tiles: seq<TileType>, a: Point, b: Point, coin: int, path: seq<Point>)
    requires |tiles| == NUM_TILES && FloorAlong(tiles, path)
    ensures FloorAlong(CarveCorridor(tiles, a, b, coin), path)
  {
    CarveCorridorOnlyFloor(tiles, a, b, coin);
    FloorAlongKept(tiles, CarveCorridor(tiles, a, b, coin), path);
  }

  /** A path all Floor stays all Floor when no Floor tile is lost. */
  lemma FloorAlongKept(before: seq<TileType>, after: seq<TileType>, path: seq<Point>)
    requires |before| == NUM_TILES && |after| == NUM_TILES
    requires forall i | 0 <= i < NUM_TILES :: before[i] == Floor ==> after[i] == Floor
    requires FloorAlong(before, path)
    ensures FloorAlong(after, path)
  {
  }

  /** The whole corridor pass: it writes only Floor, keeps every Floor tile,
      and leaves every pair of rooms adjacent in `sorted` joined by its walk. */
  lemma CarveCorridorsEffect(tiles: seq<TileType>, sorted: seq<Rect>, source: nat -> nat, pos: nat)
    requires |tiles| == NUM_TILES
    ensures var r := CarveCorridors(tiles, sorted, source, pos, |sorted|);
      && (forall i | 0 <= i < NUM_TILES :: tiles[i] == Floor ==> r[i] == Floor)
      && (forall i | 0 <= i < NUM_TILES :: r[i] != tiles[i] ==> r[i] == Floor)
      && (forall k | 1 <= k < |sorted| ::
            FloorAlong(r, LPath(Center(sorted[k - 1]), Center(sorted[k]), Draw(source, pos + k - 1, 0, 2) == 1)))
  {
    CarveCorridorsOnlyFloor(tiles, sorted, source, pos, |sorted|);
    forall k | 1 <= k < |sorted|
      ensures FloorAlong(CarveCorridors(tiles, sorted, source, pos, |sorted|),
                         LPath(Center(sorted[k - 1]), Center(sorted[k]), Draw(source, pos + k - 1, 0, 2) == 1))
    {
      CarveCorridorsConnect(tiles, sorted, source, pos, |sorted|, k);
    }
  }

  // -------------------------------------------------------------- sorting

  predicate SortedByCenterX(rs: seq<Rect>) {
    forall i, j | 0 <= i < j < |rs| :: Center(rs[i]).x <= Center(rs[j]).x
  }

  /** Inserts `r` before the first room whose centre x is not smaller, so that
      rooms with equal keys keep their original order. */
  function InsertByCenterX(r: Rect, sorted: seq<Rect>): (s: seq<Rect>)
    requires SortedByCenterX(sorted)
    ensures SortedByCenterX(s)
    ensures multiset(s) == multiset(sorted) + multiset{r}
    ensures |s| == |sorted| + 1
  {
    if sorted == [] || Center(r).x <= Center(sorted[0]).x then
      [r] + sorted
    else
      var rest := InsertByCenterX(r, sorted[1..]);
      HeadBelowInsert(r, sorted, rest);
      [sorted[0]] + rest
  }

  /** A room below `r` in centre x and first in `sorted` is below every room of
      `rest`, which holds the other rooms of `sorted` and `r`. */
  lemma HeadBelowRest(r: Rect, sorted: seq<Rect>, rest: seq<Rect>)
    requires SortedByCenterX(sorted)
    requires sorted != [] && Center(sorted[0]).x < Center(r).x
    requires multiset(rest) == multiset(sorted[1..]) + multiset{r}
    ensures forall q | q in rest :: Center(sorted[0]).x <= Center(q).x
  {
    forall q | q in rest
      ensures Center(sorted[0]).x <= Center(q).x
    {
      assert q in multiset(rest);
      if q != r {
        assert q in multiset(sorted[1..]);
        var j :| 0 <= j < |sorted[1..]| && sorted[1..][j] == q;
        assert sorted[j + 1] == q;
      }
    }
  }

  lemma HeadBelowInsert(r: Rect, sorted: seq<Rect>, rest: seq<Rect>)
    requires SortedByCenterX(sorted) && SortedByCenterX(rest)
    requires sorted != [] && Center(sorted[0]).x < Center(r).x
    requires multiset(rest) == multiset(sorted[1..]) + multiset{r}
    ensures SortedByCenterX([sorted[0]] + rest)
    ensures multiset([sorted[0]] + rest) == multiset(sorted) + multiset{r}
  {
    HeadBelowRest(r, sorted, rest);
    assert sorted == [sorted[0]] + sorted[1..];
    var s := [sorted[0]] + rest;
    forall i, j | 0 <= i < j < |s|
      ensures Center(s[i]).x <= Center(s[j]).x
    {
      assert s[j] == rest[j - 1];
      assert s[j] in rest;
      if i > 0 {
        assert s[i] == rest[i - 1];
      }
    }
  }

  /** `rooms.sort_by(|a, b| a.center().x.cmp(&b.center().x))`: a stable sort
      by centre x, as an insertion sort. */
  function SortByCenterX(rs: seq<Rect>): (s: seq<Rect>)
    ensures SortedByCenterX(s)
    ensures multiset(s) == multiset(rs)
    ensures |s| == |rs|
  {
    if rs == [] then []
    else
      assert rs == [rs[0]] + rs[1..];
      InsertByCenterX(rs[0], SortByCenterX(rs[1..]))
  }
}
