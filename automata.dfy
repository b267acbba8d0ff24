/**
 * The cellular-automata architect of src/map_builder/automata.rs: random
 * noise, ten smoothing passes of the "more than four walls around, or none
 * at all, makes a wall" rule over the interior cells, then the Floor tile
 * nearest the centre as the start. Each step is a method proved to compute
 * the specification function of the same name written here.
 */
module Automata {
  import opened Wrappers
  import opened Maps
  import opened Random
  import opened Placement
  import opened Builder

  /** Rolls in 0..=55 give Wall, rolls above 55 give Floor. */
  const FLOOR_ROLL_ABOVE: int := 55
  const SMOOTHING_PASSES: nat := 10

  /** The tile a noise roll produces. */
  function NoiseTile(roll: int): TileType {
    if roll > FLOOR_ROLL_ABOVE then Floor else Wall
  }

  /** The noise grid for `n` tiles when the generator stands at `pos`: tile i
      takes draw number pos + i. */
  function Noise(source: nat -> nat, pos: nat, n: nat): (r: seq<TileType>)
    ensures |r| == n
  {
    seq(n, i requires 0 <= i < n => NoiseTile(Draw(source, pos + i, 0, 100)))
  }

  /** `random_noise_map`: one roll from [0, 100) per tile, in tile order; a
      tile is Floor exactly when its roll exceeds 55. */
  method RandomNoiseMap(rng: Rng, m: Map) returns (noisy: Map)
    modifies rng
    ensures rng.pos == old(rng.pos) + |m.tiles|
    ensures noisy.tiles == Noise(rng.source, old(rng.pos), |m.tiles|)
    ensures forall i | 0 <= i < |m.tiles| ::
      noisy.tiles[i] == Floor <==> Draw(rng.source, old(rng.pos) + i, 0, 100) > FLOOR_ROLL_ABOVE
  {
    ghost var pos0 := rng.pos;
    var tiles := m.tiles;
    for i := 0 to |tiles|
      invariant |tiles| == |m.tiles|
      invariant rng.pos == pos0 + i
      invariant forall j | 0 <= j < i :: tiles[j] == Noise(rng.source, pos0, |m.tiles|)[j]
    {
      var roll := rng.Range(0, 100);
      assert Noise(rng.source, pos0, |m.tiles|)[i] == NoiseTile(roll);
      if roll > FLOOR_ROLL_ABOVE {
        tiles := tiles[i := Floor];
      } else {
        tiles := tiles[i := Wall];
      }
    }
    noisy := Map(tiles);
    assert forall i | 0 <= i < |m.tiles| ::
      noisy.tiles[i] == NoiseTile(Draw(rng.source, pos0 + i, 0, 100));
  }

  /** The 3x3 block around (x, y) lies inside the tile vector, so every index
      `count_neighbors` computes is valid. Near the left and right edges the
      row-major index wraps into the neighbouring row, which the block test
      does not forbid; the smoothing pass only asks about interior cells. */
  predicate BlockInside(x: int, y: int) {
    0 <= MapIdx(x - 1, y - 1) && MapIdx(x + 1, y + 1) < NUM_TILES
  }

  /** The tile at offset (dx, dy) from (x, y). */
  function Cell(tiles: seq<TileType>, x: int, y: int, dx: int, dy: int): TileType
    requires |tiles| == NUM_TILES && BlockInside(x, y) && -1 <= dx <= 1 && -1 <= dy <= 1
  {
    tiles[MapIdx(x + dx, y + dy)]
  }

  /** 1 when the cell at offset (dx, dy) from (x, y) is a Wall other than the
      centre itself, 0 otherwise. */
  function Counted(tiles: seq<TileType>, x: int, y: int, dx: int, dy: int): (c: nat)
    requires |tiles| == NUM_TILES && BlockInside(x, y) && -1 <= dx <= 1 && -1 <= dy <= 1
    ensures c <= 1
  {
    if !(dx == 0 && dy == 0) && Cell(tiles, x, y, dx, dy) == Wall then 1 else 0
  }

  /** Wall neighbours in row y + dy at column offsets -1 up to (excluding) `upto`. */
  function RowWalls(tiles: seq<TileType>, x: int, y: int, dy: int, upto: int): (n: nat)
    requires |tiles| == NUM_TILES && BlockInside(x, y) && -1 <= dy <= 1 && -1 <= upto <= 2
    ensures n <= upto + 1
    ensures dy == 0 && upto > 0 ==> n <= upto
    decreases upto + 1
  {
    if upto == -1 then 0 else RowWalls(tiles, x, y, dy, upto - 1) + Counted(tiles, x, y, upto - 1, dy)
  }

  /** Wall neighbours in the rows at offsets -1 up to (excluding) `upto`. */
  function BlockWalls(tiles: seq<TileType>, x: int, y: int, upto: int): (n: nat)
    requires |tiles| == NUM_TILES && BlockInside(x, y) && -1 <= upto <= 2
    ensures n <= 3 * (upto + 1) - (if upto > 0 then 1 else 0)
    decreases upto + 1
  {
    if upto == -1 then 0 else BlockWalls(tiles, x, y, upto - 1) + RowWalls(tiles, x, y, upto - 1, 2)
  }

  /** The number of the eight neighbours of (x, y) that are Wall. */
  function WallNeighbors(tiles: seq<TileType>, x: int, y: int): (n: nat)
    requires |tiles| == NUM_TILES && BlockInside(x, y)
    ensures n <= 8
  {
    BlockWalls(tiles, x, y, 2)
  }

  /** The count does not look at the centre cell: rewriting it changes no row's count. */
  lemma {:induction false} CentreIgnoredRow(tiles: seq<TileType>, x: int, y: int, t: TileType, dy: int, upto: int)
    requires |tiles| == NUM_TILES && BlockInside(x, y) && -1 <= dy <= 1 && -1 <= upto <= 2
    ensures RowWalls(tiles[MapIdx(x, y) := t], x, y, dy, upto) == RowWalls(tiles, x, y, dy, upto)
    decreases upto + 1
  {
    if upto > -1 {
      CentreIgnoredRow(tiles, x, y, t, dy, upto - 1);
    }
  }

  lemma {:induction false} CentreIgnored(tiles: seq<TileType>, x: int, y: int, t: TileType, upto: int)
    requires |tiles| == NUM_TILES && BlockInside(x, y) && -1 <= upto <= 2
    ensures BlockWalls(tiles[MapIdx(x, y) := t], x, y, upto) == BlockWalls(tiles, x, y, upto)
    decreases upto + 1
  {
    if upto > -1 {
      CentreIgnored(tiles, x, y, t, upto - 1);
      CentreIgnoredRow(tiles, x, y, t, upto - 1, 2);
    }
  }

  /** With every cell of the block a Wall, all eight neighbours count. */
  lemma {:induction false} AllWallsRow(tiles: seq<TileType>, x: int, y: int, dy: int, upto: int)
    requires |tiles| == NUM_TILES && BlockInside(x, y) && -1 <= dy <= 1 && -1 <= upto <= 2
    requires forall dx | -1 <= dx <= 1 :: Cell(tiles, x, y, dx, dy) == Wall
    ensures RowWalls(tiles, x, y, dy, upto) == upto + 1 - (if dy == 0 && upto > 0 then 1 else 0)
    decreases upto + 1
  {
    if upto > -1 {
      AllWallsRow(tiles, x, y, dy, upto - 1);
    }
  }

  lemma {:induction false} AllWallsCount(tiles: seq<TileType>, x: int, y: int, upto: int)
    requires |tiles| == NUM_TILES && BlockInside(x, y) && -1 <= upto <= 2
    requires forall dx, dy | -1 <= dx <= 1 && -1 <= dy <= 1 :: Cell(tiles, x, y, dx, dy) == Wall
    ensures BlockWalls(tiles, x, y, upto) == 3 * (upto + 1) - (if upto > 0 then 1 else 0)
    decreases upto + 1
  {
    if upto > -1 {
      AllWallsCount(tiles, x, y, upto - 1);
      AllWallsRow(tiles, x, y, upto - 1, 2);
    }
  }

  /** `count_neighbors`: the two nested loops over dy and dx, skipping the centre. */
  method CountNeighbors(x: int, y: int, m: Map) returns (neighbors: nat)
    requires WellFormed(m) && BlockInside(x, y)
    ensures neighbors == WallNeighbors(m.tiles, x, y)
    ensures neighbors <= 8
  {
    neighbors := 0;
    for iy := -1 to 2
      invariant neighbors == BlockWalls(m.tiles, x, y, iy)
    {
      neighbors := CountRow(x, y, iy, m, neighbors);
    }
  }

  /** The inner loop of the count: row `iy` of the block, adding to `before`. */
  method CountRow(x: int, y: int, iy: int, m: Map, before: nat) returns (neighbors: nat)
    requires WellFormed(m) && BlockInside(x, y) && -1 <= iy <= 1
    ensures neighbors == before + RowWalls(m.tiles, x, y, iy, 2)
  {
    neighbors := before;
    for ix := -1 to 2
      invariant neighbors == before + RowWalls(m.tiles, x, y, iy, ix)
    {
      if !(ix == 0 && iy == 0) && m.tiles[MapIdx(x + ix, y + iy)] == Wall {
        neighbors := neighbors + 1;
      }
    }
  }

  /** The cells a smoothing pass rewrites: all but row 0, row 49, column 0 and column 79. */
  predicate Interior(p: Point) {
    1 <= p.x < SCREEN_WIDTH - 1 && 1 <= p.y < SCREEN_HEIGHT - 1
  }

  lemma InteriorBlockInside(p: Point)
    requires Interior(p)
    ensures BlockInside(p.x, p.y)
  {
  }

  /** The smoothing rule: more than four wall neighbours, or none, makes a Wall. */
  function Rule(neighbors: int): TileType {
    if neighbors > 4 || neighbors == 0 then Wall else Floor
  }

  /** One pass over a grid: interior cells follow the rule applied to the
      neighbours in `tiles`, border cells keep their tile. */
  function Smoothed(tiles: seq<TileType>): (r: seq<TileType>)
    requires |tiles| == NUM_TILES
    ensures |r| == NUM_TILES
  {
    seq(NUM_TILES, i requires 0 <= i < NUM_TILES =>
      var p := IndexToPoint(i);
      if Interior(p) then Rule(WallNeighbors(tiles, p.x, p.y)) else tiles[i])
  }

  /** Row-major order: the cell at p comes before column x of row y. */
  predicate Visited(p: Point, x: int, y: int) {
    p.y < y || (p.y == y && p.x < x)
  }

  /** The tile a pass gives an interior cell. */
  lemma SmoothedAt(tiles: seq<TileType>, x: int, y: int)
    requires |tiles| == NUM_TILES && Interior(Point(x, y))
    ensures 0 <= MapIdx(x, y) < NUM_TILES
    ensures Smoothed(tiles)[MapIdx(x, y)] == Rule(WallNeighbors(tiles, x, y))
  {
    assert IndexToPoint(MapIdx(x, y)) == Point(x, y);
  }

  /** `iteration`: the counts are read from the old map while the writes go
      to a copy, so the result is a function of the grid before the pass. */
  method Iteration(m: Map) returns (next: Map)
    requires WellFormed(m)
    ensures next.tiles == Smoothed(m.tiles)
  {
    ghost var target := Smoothed(m.tiles);
    var newTiles := m.tiles;
    for y := 1 to SCREEN_HEIGHT - 1
      invariant |newTiles| == NUM_TILES
      invariant forall i | 0 <= i < NUM_TILES ::
        newTiles[i] == if Interior(IndexToPoint(i)) && Visited(IndexToPoint(i), 1, y) then target[i] else m.tiles[i]
    {
      for x := 1 to SCREEN_WIDTH - 1
        invariant |newTiles| == NUM_TILES
        invariant forall i | 0 <= i < NUM_TILES ::
          newTiles[i] == if Interior(IndexToPoint(i)) && Visited(IndexToPoint(i), x, y) then target[i] else m.tiles[i]
      {
        var neighbors := CountNeighbors(x, y, m);
        var idx := MapIdx(x, y);
        SmoothedAt(m.tiles, x, y);
        if neighbors > 4 || neighbors == 0 {
          newTiles := newTiles[idx := Wall];
        } else {
          newTiles := newTiles[idx := Floor];
        }
        forall i | 0 <= i < NUM_TILES
          ensures IndexToPoint(i) == Point(x, y) <==> i == idx
        {
          IndexOfPoint(Point(x, y), i);
        }
      }
    }
    next := Map(newTiles);
  }

  /** A pass rewrites each interior cell by the rule, both ways, and keeps the border. */
  lemma SmoothedCells(tiles: seq<TileType>, p: Point)
    requires |tiles| == NUM_TILES && InBounds(p)
    ensures Interior(p) ==>
      (Smoothed(tiles)[MapIdx(p.x, p.y)] == Wall <==>
       WallNeighbors(tiles, p.x, p.y) > 4 || WallNeighbors(tiles, p.x, p.y) == 0)
    ensures !Interior(p) ==> Smoothed(tiles)[MapIdx(p.x, p.y)] == tiles[MapIdx(p.x, p.y)]
  {
    assert IndexToPoint(MapIdx(p.x, p.y)) == p;
  }

  /** `n` passes, each applied to the result of the one before. */
  function SmoothN(tiles: seq<TileType>, n: nat): (r: seq<TileType>)
    requires |tiles| == NUM_TILES
    ensures |r| == NUM_TILES
  {
    if n == 0 then tiles else Smoothed(SmoothN(tiles, n - 1))
  }

  /** However many passes run, every border tile is still the tile it started
      as: the passes never force a wall border. */
  lemma {:induction false} SmoothNKeepsBorder(tiles: seq<TileType>, n: nat, i: int)
    requires |tiles| == NUM_TILES && 0 <= i < NUM_TILES && !Interior(IndexToPoint(i))
    ensures SmoothN(tiles, n)[i] == tiles[i]
  {
    if n > 0 {
      SmoothNKeepsBorder(tiles, n - 1, i);
    }
  }

  /** The `for _ in 0..10` loop of the architect: ten passes in a row. */
  method Smooth(m: Map) returns (smoothed: Map)
    requires WellFormed(m)
    ensures smoothed.tiles == SmoothN(m.tiles, SMOOTHING_PASSES)
  {
    smoothed := m;
    for pass := 0 to SMOOTHING_PASSES
      invariant WellFormed(smoothed)
      invariant smoothed.tiles == SmoothN(m.tiles, pass)
    {
      smoothed := Iteration(smoothed);
    }
  }

  /** The cave the architect smooths: ten passes over the noise drawn from `pos`. */
  function Cave(source: nat -> nat, pos: nat): (r: seq<TileType>)
    ensures |r| == NUM_TILES
  {
    SmoothN(Noise(source, pos, NUM_TILES), SMOOTHING_PASSES)
  }

  /** A generator whose every draw is 99 rolls Floor everywhere, and the top
      left corner of the cave is then Floor: the map border can be open. */
  lemma OpenBorderPossible()
    ensures Cave(_ => 99, 0)[0] == Floor
  {
    var noise := Noise(_ => 99, 0, NUM_TILES);
    assert noise[0] == NoiseTile(Draw(_ => 99, 0, 0, 100));
    SmoothNKeepsBorder(noise, SMOOTHING_PASSES, 0);
  }

  /** The map centre, (SCREEN_WIDTH / 2, SCREEN_HEIGHT / 2). */
  const CENTER: Point := Point(40, 25)

  /** The `filter(Floor).map(distance).min_by(...)` fold over the first `n`
      tiles. `min_by` keeps the earlier of two equal elements, so ties go to
      the first minimal index. None when no tile is Floor. */
  function NearestFloorIn(tiles: seq<TileType>, n: nat): (r: Option<nat>)
    requires n <= |tiles|
    ensures r.None? <==> forall i | 0 <= i < n :: tiles[i] != Floor
    ensures r.Some? ==> r.value < n && tiles[r.value] == Floor
    ensures r.Some? ==> forall i {:trigger tiles[i]} | 0 <= i < n && tiles[i] == Floor ::
      DistSq(CENTER, IndexToPoint(r.value)) <= DistSq(CENTER, IndexToPoint(i))
    ensures r.Some? ==> forall i {:trigger tiles[i]} | 0 <= i < r.value && tiles[i] == Floor ::
      DistSq(CENTER, IndexToPoint(r.value)) < DistSq(CENTER, IndexToPoint(i))
  {
    if n == 0 then None
    else
      var best := NearestFloorIn(tiles, n - 1);
      if tiles[n - 1] != Floor then best
      else if best.None? || DistSq(CENTER, IndexToPoint(n - 1)) < DistSq(CENTER, IndexToPoint(best.value)) then Some(n - 1)
      else best
  }

  predicate HasFloor(tiles: seq<TileType>) {
    exists i | 0 <= i < |tiles| :: tiles[i] == Floor
  }

  /** `find_start`: the Floor tile nearest the centre, the first on ties. On a
      map without Floor the final `unwrap` panics; the precondition excludes it. */
  function FindStart(m: Map): (p: Point)
    requires WellFormed(m) && HasFloor(m.tiles)
    ensures InBounds(p) && m.tiles[MapIdx(p.x, p.y)] == Floor
    ensures forall i {:trigger m.tiles[i]} | 0 <= i < NUM_TILES && m.tiles[i] == Floor :: DistSq(CENTER, p) <= DistSq(CENTER, IndexToPoint(i))
    ensures forall i {:trigger m.tiles[i]} | 0 <= i < MapIdx(p.x, p.y) && m.tiles[i] == Floor :: DistSq(CENTER, p) < DistSq(CENTER, IndexToPoint(i))
  {
    var best := NearestFloorIn(m.tiles, NUM_TILES);
    IndexToPoint(best.value)
  }

  /** The first steps of the architect's `new`: the builder literal, noise
      over its fresh map, then the ten smoothing passes. */
  method CaveBuilder(rng: Rng) returns (mb: MapBuilder)
    modifies rng
    ensures fresh(mb)
    ensures rng.pos == old(rng.pos) + NUM_TILES
    ensures mb.grid == Map(Cave(rng.source, old(rng.pos))) && mb.rooms == []
  {
    mb := new MapBuilder();
    var noisy := RandomNoiseMap(rng, mb.grid);
    var cave := Smooth(noisy);
    mb.grid := cave;
  }

  /** The architect's `new`: noise, ten passes, the start, the monsters
      sampled around that start, the player placed there and the amulet on
      the farthest reachable tile. The two `unwrap` panics (no Floor at all,
      fewer than NUM_MONSTERS admissible tiles) are excluded by the
      preconditions, which are stated on the cave the generator's draws produce. */
  method Build(rng: Rng, distances: DistanceOracle) returns (mb: MapBuilder)
    requires IsDistanceField(distances)
    requires HasFloor(Cave(rng.source, rng.pos))
    requires |Spawnable(Cave(rng.source, rng.pos), FindStart(Map(Cave(rng.source, rng.pos))))| >= NUM_MONSTERS
    modifies rng
    ensures fresh(mb)
    ensures rng.pos == old(rng.pos) + NUM_TILES + NUM_MONSTERS
    ensures mb.grid.tiles == Cave(rng.source, old(rng.pos)) && mb.rooms == []
    ensures mb.playerStart == FindStart(mb.grid)
    ensures mb.monsterSpawns == Picks(Spawnable(mb.grid.tiles, mb.playerStart), rng.source, old(rng.pos) + NUM_TILES, NUM_MONSTERS).0
    ensures |mb.monsterSpawns| == NUM_MONSTERS && Distinct(mb.monsterSpawns)
    ensures forall p | p in mb.monsterSpawns :: p in Spawnable(mb.grid.tiles, mb.playerStart)
    ensures mb.amuletStart == mb.FindMostDistant(distances)
  {
    mb := CaveBuilder(rng);
    var start := FindStart(mb.grid);
    mb.PlaceEntities(start, rng, distances);
  }
}
