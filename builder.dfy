/**
 * `MapBuilder` of src/map_builder/mod.rs (and of its older copy
 * src/map_builder.rs): the level under construction, whose tiles and room
 * list its methods update in place. Each method is proved to produce the
 * tiles that the matching function of module Carving describes.
 */
module Builder {
  import opened Wrappers
  import opened Maps
  import opened Rects
  import opened Random
  import opened Carving
  import opened Placement

  class MapBuilder {
    var grid: Map
    var rooms: seq<Rect>
    var monsterSpawns: seq<Point>
    var playerStart: Point
    var amuletStart: Point

    /** The literal the architects start from: a fresh all-Floor map, no rooms,
        no spawns, both points at the origin. */
    constructor ()
      ensures grid == NewMap() && rooms == [] && monsterSpawns == []
      ensures playerStart == Point(0, 0) && amuletStart == Point(0, 0)
    {
      grid := NewMap();
      rooms := [];
      monsterSpawns := [];
      playerStart := Point(0, 0);
      amuletStart := Point(0, 0);
    }

    /** `fill`: every tile becomes `tile`; the number of tiles is kept. */
    method Fill(tile: TileType)
      modifies this`grid
      ensures |grid.tiles| == |old(grid.tiles)|
      ensures forall i | 0 <= i < |grid.tiles| :: grid.tiles[i] == tile
    {
      var i := 0;
      while i < |grid.tiles|
        invariant |grid.tiles| == |old(grid.tiles)| && 0 <= i <= |grid.tiles|
        invariant forall j | 0 <= j < i :: grid.tiles[j] == tile
      {
        grid := Map(grid.tiles[i := tile]);
        i := i + 1;
      }
    }

    /** The `room.for_each` closure of `build_random_rooms`: row by row, every
        cell of the room that passes the bounds guard becomes Floor. */
    method StampRoom(room: Rect)
      requires WellFormed(grid)
      modifies this`grid
      ensures grid.tiles == Stamp(old(grid.tiles), room)
    {
      ghost var before := grid.tiles;
      var y := room.y1;
      while y < room.y2
        invariant |grid.tiles| == NUM_TILES
        invariant forall i | 0 <= i < NUM_TILES ::
                    grid.tiles[i] == if StampsCell(room, IndexToPoint(i)) && IndexToPoint(i).y < y then Floor else before[i]
      {
        var x := room.x1;
        while x < room.x2
          invariant |grid.tiles| == NUM_TILES
          invariant forall i | 0 <= i < NUM_TILES ::
                      grid.tiles[i] == if StampsCell(room, IndexToPoint(i)) &&
                                          (IndexToPoint(i).y < y || (IndexToPoint(i).y == y && IndexToPoint(i).x < x))
                                       then Floor else before[i]
        {
          if x > 0 && x < SCREEN_WIDTH && y > 0 && y < SCREEN_HEIGHT {
            var idx := MapIdx(x, y);
            grid := Map(grid.tiles[idx := Floor]);
          }
          x := x + 1;
        }
        y := y + 1;
      }
      assert forall i | 0 <= i < NUM_TILES :: grid.tiles[i] == Stamp(before, room)[i];
    }

    /** The inner loop of `build_random_rooms`: does `room` intersect any room
        placed so far? */
    method OverlapsPlaced(room: Rect) returns (overlap: bool)
      ensures overlap <==> exists i | 0 <= i < |rooms| :: Intersect(rooms[i], room)
    {
      overlap := false;
      for k := 0 to |rooms|
        invariant overlap <==> exists i | 0 <= i < k :: Intersect(rooms[i], room)
      {
        if Intersect(rooms[k], room) {
          overlap := true;
        }
      }
    }

    /** The arm taken when the candidate meets no placed room: stamp it and
        record it, extending the stamped rooms from `n0` on by one. */
    method PlaceRoom(room: Rect, ghost n0: nat, ghost before: seq<TileType>)
      requires WellFormed(grid) && |before| == NUM_TILES && n0 <= |rooms|
      requires grid.tiles == StampAll(before, rooms[n0..])
      modifies this`grid, this`rooms
      ensures WellFormed(grid) && rooms == old(rooms) + [room]
      ensures grid.tiles == StampAll(before, rooms[n0..])
    {
      ghost var placed := rooms[n0..];
      StampRoom(room);
      rooms := rooms + [room];
      assert rooms[n0..] == placed + [room];
      assert (placed + [room])[..|placed|] == placed;
    }

    /** The four draws of one candidate room: x, y, width, height. */
    method DrawCandidate(rng: Rng) returns (room: Rect)
      modifies rng
      ensures rng.pos == old(rng.pos) + 4
      ensures room == Candidate(rng.source, old(rng.pos))
    {
      var x := rng.Range(1, SCREEN_WIDTH - 10);
      var y := rng.Range(1, SCREEN_HEIGHT - 10);
      var w := rng.Range(2, 10);
      var h := rng.Range(2, 10);
      room := WithSize(x, y, w, h);
    }

    /** One pass of the loop: draw a candidate; one meeting no placed room
        is stamped and recorded, any other is dropped. */
    method TryCandidate(rng: Rng, ghost placed0: seq<Rect>, ghost pos0: nat, ghost before: seq<TileType>, ghost n: nat)
      requires WellFormed(grid) && |before| == NUM_TILES && rng.pos == pos0 + 4 * n
      requires rooms == RoomsAfter(placed0, rng.source, pos0, n) && placed0 <= rooms
      requires grid.tiles == StampAll(before, rooms[|placed0|..])
      modifies this`grid, this`rooms, rng
      ensures WellFormed(grid) && rng.pos == pos0 + 4 * (n + 1)
      ensures rooms == RoomsAfter(placed0, rng.source, pos0, n + 1) && placed0 <= rooms
      ensures |rooms| <= |old(rooms)| + 1
      ensures grid.tiles == StampAll(before, rooms[|placed0|..])
    {
      RoomsAfterStep(placed0, rng.source, pos0, n);
      var room := DrawCandidate(rng);
      var overlap := OverlapsPlaced(room);
      if !overlap {
        PlaceRoom(room, |placed0|, before);
      }
    }

    /** The loop of `build_random_rooms`: draw candidates while fewer than
        NUM_ROOMS rooms are placed and fewer than `fuel` candidates drawn. */
    method DrawRooms(rng: Rng, fuel: nat) returns (candidates: nat)
      requires WellFormed(grid)
      modifies this`grid, this`rooms, rng
      ensures WellFormed(grid) && rng.pos == old(rng.pos) + 4 * candidates
      ensures rooms == RoomsAfter(old(rooms), rng.source, old(rng.pos), candidates)
      ensures ShortBefore(old(rooms), rng.source, old(rng.pos), candidates)
      ensures candidates <= fuel && (|rooms| < NUM_ROOMS ==> candidates == fuel)
      ensures |old(rooms)| <= NUM_ROOMS ==> |rooms| <= NUM_ROOMS
      ensures old(rooms) <= rooms && grid.tiles == StampAll(old(grid.tiles), rooms[|old(rooms)|..])
    {
      ghost var before, placed0, pos0 := grid.tiles, rooms, rng.pos;
      candidates := 0;
      while |rooms| < NUM_ROOMS && candidates < fuel
        invariant WellFormed(grid) && candidates <= fuel && rng.pos == pos0 + 4 * candidates
        invariant rooms == RoomsAfter(placed0, rng.source, pos0, candidates)
        invariant ShortBefore(placed0, rng.source, pos0, candidates)
        invariant |placed0| <= NUM_ROOMS ==> |rooms| <= NUM_ROOMS
        invariant placed0 <= rooms && grid.tiles == StampAll(before, rooms[|placed0|..])
      {
        ShortBeforeStep(placed0, rng.source, pos0, candidates);
        TryCandidate(rng, placed0, pos0, before, candidates);
        candidates := candidates + 1;
      }
    }

    /** `build_random_rooms`: draw candidate rooms until NUM_ROOMS are placed,
        accepting a candidate exactly when it intersects no room placed so
        far. The source loops until the target is met, which ends only with
        probability 1; here at most `fuel` candidates are drawn. The rooms
        are Carving.RoomsAfter of the candidates drawn, so they depend on
        the generator's draws alone, and drawing stops at the first
        candidate that brings the count to NUM_ROOMS. */
    method BuildRandomRooms(rng: Rng, fuel: nat) returns (candidates: nat)
      requires WellFormed(grid)
      modifies this`grid, this`rooms, rng
      ensures WellFormed(grid)
      ensures rooms == RoomsAfter(old(rooms), rng.source, old(rng.pos), candidates)
      ensures forall k | 0 <= k < candidates :: |RoomsAfter(old(rooms), rng.source, old(rng.pos), k)| < NUM_ROOMS
      ensures rng.pos == old(rng.pos) + 4 * candidates
      ensures candidates <= fuel && (|rooms| < NUM_ROOMS ==> candidates == fuel)
      ensures old(rooms) <= rooms
      ensures grid.tiles == StampAll(old(grid.tiles), rooms[|old(rooms)|..])
      ensures |old(rooms)| <= NUM_ROOMS ==> |rooms| <= NUM_ROOMS
      ensures |rooms| <= |old(rooms)| + candidates
      ensures PlacedFrom(rooms, |old(rooms)|)
      ensures PairwiseDisjoint(old(rooms)) ==> PairwiseDisjoint(rooms)
    {
      ghost var placed0, pos0 := rooms, rng.pos;
      candidates := DrawRooms(rng, fuel);
      RoomsAfterSound(placed0, rng.source, pos0, candidates);
      if PairwiseDisjoint(placed0) {
        KeepsPairwise(placed0, rooms);
      }
    }

    /** `apply_vertical_tunnel`: every in-bounds cell (x, y) with y between y1
        and y2 inclusive becomes Floor, through the checked `try_idx`. */
    method ApplyVerticalTunnel(y1: int, y2: int, x: int)
      requires WellFormed(grid)
      modifies this`grid
      ensures grid.tiles == CarveVertical(old(grid.tiles), y1, y2, x)
    {
      ghost var before := grid.tiles;
      var lo, hi := Min(y1, y2), Max(y1, y2);
      for y := lo to hi + 1
        invariant |grid.tiles| == NUM_TILES
        invariant forall i | 0 <= i < NUM_TILES ::
                    grid.tiles[i] == if IndexToPoint(i).x == x && lo <= IndexToPoint(i).y < y then Floor else before[i]
      {
        var idx := TryIdx(Point(x, y));
        if idx.Some? {
          grid := Map(grid.tiles[idx.value := Floor]);
        }
      }
      assert forall i | 0 <= i < NUM_TILES :: grid.tiles[i] == CarveVertical(before, y1, y2, x)[i];
    }

    /** `apply_horizontal_tunnel`, the row counterpart. */
    method ApplyHorizontalTunnel(x1: int, x2: int, y: int)
      requires WellFormed(grid)
      modifies this`grid
      ensures grid.tiles == CarveHorizontal(old(grid.tiles), x1, x2, y)
    {
      ghost var before := grid.tiles;
      var lo, hi := Min(x1, x2), Max(x1, x2);
      for x := lo to hi + 1
        invariant |grid.tiles| == NUM_TILES
        invariant forall i | 0 <= i < NUM_TILES ::
                    grid.tiles[i] == if IndexToPoint(i).y == y && lo <= IndexToPoint(i).x < x then Floor else before[i]
      {
        var idx := TryIdx(Point(x, y));
        if idx.Some? {
          grid := Map(grid.tiles[idx.value := Floor]);
        }
      }
      assert forall i | 0 <= i < NUM_TILES :: grid.tiles[i] == CarveHorizontal(before, x1, x2, y)[i];
    }

    /** One corridor of `build_corridors` from centre `a` to centre `b`: on
        coin 1 the row leg at a.y then the column leg at b.x, otherwise the
        column leg at a.x then the row leg at b.y. */
    method DigCorridor(a: Point, b: Point, coin: int)
      requires WellFormed(grid)
      modifies this`grid
      ensures grid.tiles == CarveCorridor(old(grid.tiles), a, b, coin)
    {
      if coin == 1 {
        ApplyHorizontalTunnel(a.x, b.x, a.y);
        ApplyVerticalTunnel(a.y, b.y, b.x);
      } else {
        ApplyVerticalTunnel(a.y, b.y, a.x);
        ApplyHorizontalTunnel(a.x, b.x, b.y);
      }
    }

    /** The loop of `build_corridors` over rooms already sorted by centre x:
        room i is joined to room i - 1, each corridor taking one coin toss. */
    method DigCorridors(sorted: seq<Rect>, rng: Rng)
      requires WellFormed(grid) && |sorted| >= 1
      modifies this`grid, rng
      ensures WellFormed(grid)
      ensures rng.pos == old(rng.pos) + |sorted| - 1
      ensures grid.tiles == CarveCorridors(old(grid.tiles), sorted, rng.source, old(rng.pos), |sorted|)
    {
      ghost var before, pos0 := grid.tiles, rng.pos;
      for i := 1 to |sorted|
        invariant WellFormed(grid)
        invariant rng.pos == pos0 + i - 1
        invariant grid.tiles == CarveCorridors(before, sorted, rng.source, pos0, i)
      {
        var prev := Center(sorted[i - 1]);
        var next := Center(sorted[i]);
        var coin := rng.Range(0, 2);
        DigCorridor(prev, next, coin);
        assert grid.tiles == CarveCorridors(before, sorted, rng.source, pos0, i + 1) by {
          CarveCorridorsStep(before, sorted, rng.source, pos0, i);
          assert coin == Draw(rng.source, pos0 + i - 1, 0, 2);
        }
      }
    }

    /** `build_corridors`: sort a copy of the rooms by centre x and join each
        room to the one before it with an L-shaped corridor whose leg order is
        a coin toss. The room list itself is left as it was. What the pass
        achieves is lemma Carving.CarveCorridorsEffect. */
    method BuildCorridors(rng: Rng)
      requires WellFormed(grid)
      modifies this`grid, rng
      ensures WellFormed(grid)
      ensures rooms == old(rooms)
      ensures rng.pos == old(rng.pos) + (if |rooms| == 0 then 0 else |rooms| - 1)
      ensures grid.tiles == CarveCorridors(old(grid.tiles), SortByCenterX(rooms), rng.source, old(rng.pos), |rooms|)
    {
      var sorted := SortByCenterX(rooms);
      if |sorted| > 0 {
        DigCorridors(sorted, rng);
      }
    }

    /** `find_most_distant`: in the distance field seeded at the player's
        start, the reachable tile of greatest distance, the last one on ties. */
    function FindMostDistant(distances: DistanceOracle): (p: Point)
      reads this
      requires IsDistanceField(distances) && InBounds(playerStart)
      ensures InBounds(p)
      ensures var dist := distances(grid.tiles, MapIdx(playerStart.x, playerStart.y));
        && dist[MapIdx(p.x, p.y)] < UNREACHABLE
        && (forall i | 0 <= i < NUM_TILES && dist[i] < UNREACHABLE :: dist[i] <= dist[MapIdx(p.x, p.y)])
        && (forall i | MapIdx(p.x, p.y) < i < NUM_TILES && dist[i] < UNREACHABLE :: dist[i] < dist[MapIdx(p.x, p.y)])
    {
      var dist := distances(grid.tiles, MapIdx(playerStart.x, playerStart.y));
      var best := MostDistantIn(dist, NUM_TILES);
      IndexToPoint(best.value)
    }

    /** `spawn_monsters`: NUM_MONSTERS points drawn without replacement from
        the admissible tiles, one draw per pick. With fewer admissible tiles
        the `unwrap` of an empty draw panics, which this precondition
        excludes. */
    method SpawnMonsters(start: Point, rng: Rng) returns (spawns: seq<Point>)
      requires WellFormed(grid)
      requires |Spawnable(grid.tiles, start)| >= NUM_MONSTERS
      modifies rng
      ensures rng.pos == old(rng.pos) + NUM_MONSTERS
      ensures spawns == Picks(Spawnable(grid.tiles, start), rng.source, old(rng.pos), NUM_MONSTERS).0
      ensures |spawns| == NUM_MONSTERS && Distinct(spawns)
      ensures forall p | p in spawns :: p in Spawnable(grid.tiles, start)
      ensures forall p {:trigger p in spawns} | p in spawns ::
        InBounds(p) && grid.tiles[MapIdx(p.x, p.y)] == Floor && DistSq(start, p) > 100
    {
      var spawnable := Spawnable(grid.tiles, start);
      ghost var pos0 := rng.pos;
      spawns := [];
      var left := spawnable;
      for n := 0 to NUM_MONSTERS
        invariant rng.pos == pos0 + n
        invariant (spawns, left) == Picks(spawnable, rng.source, pos0, n)
      {
        var target := rng.RandomSliceIndex(|left|);
        var k := target.value;
        spawns := spawns + [left[k]];
        left := Removed(left, k);
      }
      PicksSound(spawnable, rng.source, pos0, NUM_MONSTERS);
    }

    /** The three statements that close both architects' `new`: monsters are
        sampled around `start`, the player is put on `start`, and the amulet
        goes to the tile farthest from it. */
    method PlaceEntities(start: Point, rng: Rng, distances: DistanceOracle)
      requires WellFormed(grid) && InBounds(start) && IsDistanceField(distances)
      requires |Spawnable(grid.tiles, start)| >= NUM_MONSTERS
      modifies this`monsterSpawns, this`playerStart, this`amuletStart, rng
      ensures rng.pos == old(rng.pos) + NUM_MONSTERS
      ensures playerStart == start
      ensures monsterSpawns == Picks(Spawnable(grid.tiles, start), rng.source, old(rng.pos), NUM_MONSTERS).0
      ensures |monsterSpawns| == NUM_MONSTERS && Distinct(monsterSpawns)
      ensures forall p | p in monsterSpawns :: p in Spawnable(grid.tiles, start)
      ensures amuletStart == FindMostDistant(distances)
    {
      monsterSpawns := SpawnMonsters(start, rng);
      playerStart := start;
      amuletStart := FindMostDistant(distances);
    }
  }
}
