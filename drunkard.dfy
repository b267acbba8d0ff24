/**
 * The drunkard's-walk architect of src/map_builder/drunkard.rs: a digger
 * stumbles from a start tile, turning each tile it stands on into Floor,
 * until it leaves the map or has taken STAGGER_DISTANCE steps; walks from
 * random starts are repeated, each followed by walling off every tile too
 * far from the centre, until a third of the map is Floor.
 */
module Drunkard {
  import opened Wrappers
  import opened Maps
  import opened Random
  import opened Carving
  import opened Placement
  import opened Builder

  const STAGGER_DISTANCE: nat := 400
  /** NUM_TILES / 3, truncated. */
  const DESIRED_FLOOR: nat := 1333
  /** Tiles whose distance from the centre exceeds this become Wall again. */
  const PRUNE_DISTANCE: real := 2000.0
  const CENTER: Point := Point(40, 25)

  /** The tiles one walk digs, in order, when the walk began with the
      generator at draw `first`, the digger stands on `p` and the generator is
      at draw `k`. Each step takes one draw, so the digger has staggered
      `k - first` steps. The walk ends after digging `p` if the next step
      leaves the map or would be step number STAGGER_DISTANCE + 1. */
  function WalkFrom(source: nat -> nat, first: nat, k: nat, p: Point): (path: seq<Point>)
    requires InBounds(p) && first <= k <= first + STAGGER_DISTANCE
    ensures 1 <= |path| <= first + STAGGER_DISTANCE + 1 - k
    ensures path[0] == p
    ensures forall i | 0 <= i < |path| :: InBounds(path[i])
    decreases first + STAGGER_DISTANCE - k
  {
    var next := Step(p, Draw(source, k, 0, 4));
    if !InBounds(next) || k - first + 1 > STAGGER_DISTANCE then [p]
    else [p] + WalkFrom(source, first, k + 1, next)
  }

  predicate UnitSteps(path: seq<Point>) {
    forall i | 0 <= i < |path| - 1 :: Adjacent(path[i], path[i + 1])
  }

  /** Consecutive positions of a walk are one orthogonal step apart. */
  lemma {:induction false} WalkSteps(source: nat -> nat, first: nat, k: nat, p: Point)
    requires InBounds(p) && first <= k <= first + STAGGER_DISTANCE
    ensures UnitSteps(WalkFrom(source, first, k, p))
    decreases first + STAGGER_DISTANCE - k
  {
    var next := Step(p, Draw(source, k, 0, 4));
    if InBounds(next) && k - first + 1 <= STAGGER_DISTANCE {
      WalkSteps(source, first, k + 1, next);
      var rest := WalkFrom(source, first, k + 1, next);
      var path := WalkFrom(source, first, k, p);
      assert path == [p] + rest;
      forall i | 0 <= i < |path| - 1
        ensures Adjacent(path[i], path[i + 1])
      {
        if i > 0 {
          assert path[i] == rest[i - 1] && path[i + 1] == rest[i];
          var j := i - 1;
          assert Adjacent(rest[j], rest[j + 1]);
        } else {
          assert path[0] == p && path[1] == rest[0] == next;
          assert Adjacent(p, next);
        }
      }
    }
  }

  /** The map after digging the positions of `path` in order, each one a
      single tile write of Floor. Every position of a walk is in bounds; an
      out-of-bounds one would be skipped. */
  function Dig(tiles: seq<TileType>, path: seq<Point>): (r: seq<TileType>)
    requires |tiles| == NUM_TILES
    ensures |r| == NUM_TILES
    decreases |path|
  {
    if |path| == 0 then tiles
    else
      var p := path[0];
      Dig(if InBounds(p) then tiles[MapIdx(p.x, p.y) := Floor] else tiles, path[1..])
  }

  /** What the writes add up to: the tiles at the visited positions are
      Floor, every other tile is as it was. So a walk writes only Floor, and
      only on positions it visits. */
  lemma {:induction false} DigEffect(tiles: seq<TileType>, path: seq<Point>)
    requires |tiles| == NUM_TILES && forall i | 0 <= i < |path| :: InBounds(path[i])
    ensures forall i | 0 <= i < NUM_TILES ::
      Dig(tiles, path)[i] == if IndexToPoint(i) in path then Floor else tiles[i]
    decreases |path|
  {
    if |path| > 0 {
      var p := path[0];
      var next := tiles[MapIdx(p.x, p.y) := Floor];
      DigEffect(next, path[1..]);
      assert path == [p] + path[1..];
      forall i | 0 <= i < NUM_TILES
        ensures Dig(tiles, path)[i] == if IndexToPoint(i) in path then Floor else tiles[i]
      {
        IndexOfPoint(p, i);
      }
    }
  }

  /** A tile that was Floor, or that the walk visits, is Floor afterwards. */
  lemma DigFloorAt(tiles: seq<TileType>, path: seq<Point>, i: int)
    requires |tiles| == NUM_TILES && forall j | 0 <= j < |path| :: InBounds(path[j])
    requires 0 <= i < NUM_TILES && (tiles[i] == Floor || IndexToPoint(i) in path)
    ensures Dig(tiles, path)[i] == Floor
  {
    DigEffect(tiles, path);
  }

  /** One round of the walk loop on the tiles: digging the walk from `p` is
      digging `p` and then the rest of the walk, if there is one. */
  lemma DigWalkStep(tiles: seq<TileType>, source: nat -> nat, first: nat, k: nat, p: Point)
    requires |tiles| == NUM_TILES && InBounds(p) && first <= k <= first + STAGGER_DISTANCE
    ensures var next := Step(p, Draw(source, k, 0, 4));
      var dug := tiles[MapIdx(p.x, p.y) := Floor];
      var path := WalkFrom(source, first, k, p);
      if !InBounds(next) || k - first + 1 > STAGGER_DISTANCE then
        |path| == 1 && Dig(tiles, path) == dug
      else
        |path| == 1 + |WalkFrom(source, first, k + 1, next)| &&
        Dig(tiles, path) == Dig(dug, WalkFrom(source, first, k + 1, next))
  {
    var next := Step(p, Draw(source, k, 0, 4));
    var path := WalkFrom(source, first, k, p);
    if !InBounds(next) || k - first + 1 > STAGGER_DISTANCE {
      assert path == [p];
      assert path[1..] == [];
    } else {
      var rest := WalkFrom(source, first, k + 1, next);
      assert path == [p] + rest;
      assert path[1..] == rest;
    }
  }

  /** `drunkard`: dig the current tile, draw a direction, stop once off the
      map or after STAGGER_DISTANCE steps. One draw per dug tile. The source
      indexes with `point2d_to_index`, which needs the start in bounds; both
      callers pass an in-bounds start. */
  method DrunkardWalk(start: Point, rng: Rng, m: Map) returns (dug: Map)
    requires WellFormed(m) && InBounds(start)
    modifies rng
    ensures rng.pos == old(rng.pos) + |WalkFrom(rng.source, old(rng.pos), old(rng.pos), start)|
    ensures dug.tiles == Dig(m.tiles, WalkFrom(rng.source, old(rng.pos), old(rng.pos), start))
  {
    ghost var full := WalkFrom(rng.source, rng.pos, rng.pos, start);
    ghost var pos0 := rng.pos;
    var tiles := m.tiles;
    var drunkardPos := start;
    var distanceStaggered: nat := 0;
    while true
      invariant |tiles| == NUM_TILES
      invariant InBounds(drunkardPos) && distanceStaggered <= STAGGER_DISTANCE
      invariant rng.pos == pos0 + distanceStaggered
      invariant rng.pos + |WalkFrom(rng.source, pos0, rng.pos, drunkardPos)| == pos0 + |full|
      invariant Dig(tiles, WalkFrom(rng.source, pos0, rng.pos, drunkardPos)) == Dig(m.tiles, full)
      decreases STAGGER_DISTANCE - distanceStaggered
    {
      DigWalkStep(tiles, rng.source, pos0, rng.pos, drunkardPos);
      var drunkIdx := MapIdx(drunkardPos.x, drunkardPos.y);
      tiles := tiles[drunkIdx := Floor];
      var roll := rng.Range(0, 4);
      drunkardPos := Step(drunkardPos, roll);
      if !InBounds(drunkardPos) {
        break;
      }
      distanceStaggered := distanceStaggered + 1;
      if distanceStaggered > STAGGER_DISTANCE {
        break;
      }
    }
    dug := Map(tiles);
  }

  /** The `filter(Floor).count()` of the loop guard. */
  function FloorCount(tiles: seq<TileType>): (n: nat)
    ensures n <= |tiles|
  {
    if |tiles| == 0 then 0
    else FloorCount(tiles[..|tiles| - 1]) + (if tiles[|tiles| - 1] == Floor then 1 else 0)
  }

  /** A change that keeps every Floor tile Floor cannot lower the count. */
  lemma {:induction false} FloorCountMonotone(a: seq<TileType>, b: seq<TileType>)
    requires |a| == |b| && forall i | 0 <= i < |a| :: a[i] == Floor ==> b[i] == Floor
    ensures FloorCount(a) <= FloorCount(b)
  {
    if |a| > 0 {
      FloorCountMonotone(a[..|a| - 1], b[..|b| - 1]);
    }
  }

  /** A walk never lowers the Floor count. */
  lemma DigNeverLowersFloor(tiles: seq<TileType>, path: seq<Point>)
    requires |tiles| == NUM_TILES && forall i | 0 <= i < |path| :: InBounds(path[i])
    ensures FloorCount(tiles) <= FloorCount(Dig(tiles, path))
  {
    DigEffect(tiles, path);
    FloorCountMonotone(tiles, Dig(tiles, path));
  }

  /** The pruning pass: every tile whose distance exceeds PRUNE_DISTANCE becomes
      Wall and every other tile is left as it was. */
  function Pruned(tiles: seq<TileType>, dist: seq<real>): (r: seq<TileType>)
    requires |dist| == |tiles|
    ensures |r| == |tiles|
  {
    seq(|tiles|, i requires 0 <= i < |tiles| => if dist[i] > PRUNE_DISTANCE then Wall else tiles[i])
  }

  /** Pruning only ever writes Wall, so it never adds Floor and never raises the count. */
  lemma PruneNeverAddsFloor(tiles: seq<TileType>, dist: seq<real>)
    requires |dist| == |tiles|
    ensures forall i | 0 <= i < |tiles| :: Pruned(tiles, dist)[i] == Floor ==> tiles[i] == Floor
    ensures FloorCount(Pruned(tiles, dist)) <= FloorCount(tiles)
  {
    var r := Pruned(tiles, dist);
    assert forall i | 0 <= i < |tiles| :: r[i] == Floor ==> tiles[i] == Floor;
    FloorCountMonotone(r, tiles);
  }

  /** The `enumerate().filter(dist > 2000).for_each(...)` pass over the
      Dijkstra map, writing Wall in place. */
  method Prune(m: Map, dist: seq<real>) returns (pruned: Map)
    requires |dist| == |m.tiles|
    ensures pruned.tiles == Pruned(m.tiles, dist)
  {
    var tiles := m.tiles;
    for idx := 0 to |dist|
      invariant |tiles| == |m.tiles|
      invariant forall i | 0 <= i < |tiles| ::
        tiles[i] == if i < idx then Pruned(m.tiles, dist)[i] else m.tiles[i]
    {
      if dist[idx] > PRUNE_DISTANCE {
        tiles := tiles[idx := Wall];
      }
    }
    pruned := Map(tiles);
  }

  /** The random start of a later walk: x from [0, 80), then y from [0, 50). */
  function RandomStart(source: nat -> nat, pos: nat): (p: Point)
    ensures InBounds(p)
  {
    Point(Draw(source, pos, 0, SCREEN_WIDTH), Draw(source, pos + 1, 0, SCREEN_HEIGHT))
  }

  /** One round of the architect's `while` loop from generator position
      `pos`: draw a start, walk from it, then wall off every tile farther than
      PRUNE_DISTANCE from the centre on the dug map. The new tiles and the
      generator position after the round. */
  function Round(tiles: seq<TileType>, source: nat -> nat, pos: nat, distances: DistanceOracle)
    : (r: (seq<TileType>, nat))
    requires |tiles| == NUM_TILES && IsDistanceField(distances)
    ensures |r.0| == NUM_TILES && r.1 > pos + 2
  {
    var path := WalkFrom(source, pos + 2, pos + 2, RandomStart(source, pos));
    var dug := Dig(tiles, path);
    (Pruned(dug, distances(dug, MapIdx(CENTER.x, CENTER.y))), pos + 2 + |path|)
  }

  /** The `while` loop of the architect, with at most `fuel` rounds: the tiles
      and the generator position it ends with. */
  function MoreWalks(tiles: seq<TileType>, source: nat -> nat, pos: nat, distances: DistanceOracle, fuel: nat)
    : (r: (seq<TileType>, nat))
    requires |tiles| == NUM_TILES && IsDistanceField(distances)
    ensures |r.0| == NUM_TILES && r.1 >= pos
    ensures FloorCount(r.0) < DESIRED_FLOOR ==> r.1 - pos >= 3 * fuel
    decreases fuel
  {
    if FloorCount(tiles) >= DESIRED_FLOOR || fuel == 0 then (tiles, pos)
    else
      var next := Round(tiles, source, pos, distances);
      MoreWalks(next.0, source, next.1, distances, fuel - 1)
  }

  /** A round keeps a Floor centre Floor: the walk only adds Floor, and the
      centre is at distance 0 from itself, so pruning leaves it alone. */
  lemma RoundKeepsCentre(tiles: seq<TileType>, source: nat -> nat, pos: nat, distances: DistanceOracle)
    requires |tiles| == NUM_TILES && IsDistanceField(distances)
    requires tiles[MapIdx(CENTER.x, CENTER.y)] == Floor
    ensures Round(tiles, source, pos, distances).0[MapIdx(CENTER.x, CENTER.y)] == Floor
  {
    var c := MapIdx(CENTER.x, CENTER.y);
    var path := WalkFrom(source, pos + 2, pos + 2, RandomStart(source, pos));
    var dug := Dig(tiles, path);
    DigFloorAt(tiles, path, c);
    assert distances(dug, c)[c] == 0.0;
  }

  /** However many rounds run, a Floor centre stays Floor. */
  lemma {:induction false} MoreWalksKeepCentre(tiles: seq<TileType>, source: nat -> nat, pos: nat, distances: DistanceOracle, fuel: nat)
    requires |tiles| == NUM_TILES && IsDistanceField(distances)
    requires tiles[MapIdx(CENTER.x, CENTER.y)] == Floor
    ensures MoreWalks(tiles, source, pos, distances, fuel).0[MapIdx(CENTER.x, CENTER.y)] == Floor
    decreases fuel
  {
    if FloorCount(tiles) < DESIRED_FLOOR && fuel > 0 {
      var next := Round(tiles, source, pos, distances);
      RoundKeepsCentre(tiles, source, pos, distances);
      MoreWalksKeepCentre(next.0, source, next.1, distances, fuel - 1);
    }
  }

  /** The map after `fill(Wall)`. */
  function AllWall(): (r: seq<TileType>)
    ensures |r| == NUM_TILES
  {
    seq(NUM_TILES, _ => Wall)
  }

  /** The body of the architect's `while` loop: a walk from a random start,
      then pruning by the distance from the centre on the dug map. */
  method DigAndPrune(m: Map, rng: Rng, distances: DistanceOracle) returns (pruned: Map)
    requires WellFormed(m) && IsDistanceField(distances)
    modifies rng
    ensures pruned.tiles == Round(m.tiles, rng.source, old(rng.pos), distances).0
    ensures rng.pos == Round(m.tiles, rng.source, old(rng.pos), distances).1
  {
    ghost var pos := rng.pos;
    ghost var path := WalkFrom(rng.source, pos + 2, pos + 2, RandomStart(rng.source, pos));
    var x := rng.Range(0, SCREEN_WIDTH);
    var y := rng.Range(0, SCREEN_HEIGHT);
    assert Point(x, y) == RandomStart(rng.source, pos);
    var dug := DrunkardWalk(Point(x, y), rng, m);
    assert dug.tiles == Dig(m.tiles, path);
    var dist := distances(dug.tiles, MapIdx(CENTER.x, CENTER.y));
    pruned := Prune(dug, dist);
    assert rng.pos == pos + 2 + |path|;
    assert pruned.tiles == Pruned(Dig(m.tiles, path), distances(Dig(m.tiles, path), MapIdx(CENTER.x, CENTER.y)));
  }

  /** The `while` loop of the architect's `new` on the map under
      construction, with at most `fuel` walks: it computes MoreWalks, and
      stops short of the target only when the fuel is spent. */
  method WalkUntilDug(m: Map, rng: Rng, distances: DistanceOracle, fuel: nat) returns (level: Map, walks: nat)
    requires WellFormed(m) && IsDistanceField(distances)
    modifies rng
    ensures walks <= fuel
    ensures level.tiles == MoreWalks(m.tiles, rng.source, old(rng.pos), distances, fuel).0
    ensures rng.pos == MoreWalks(m.tiles, rng.source, old(rng.pos), distances, fuel).1
    ensures walks < fuel ==> FloorCount(level.tiles) >= DESIRED_FLOOR
  {
    level := m;
    walks := 0;
    while FloorCount(level.tiles) < DESIRED_FLOOR && walks < fuel
      invariant WellFormed(level) && walks <= fuel
      invariant MoreWalks(level.tiles, rng.source, rng.pos, distances, fuel - walks)
             == MoreWalks(m.tiles, rng.source, old(rng.pos), distances, fuel)
      decreases fuel - walks
    {
      level := DigAndPrune(level, rng, distances);
      walks := walks + 1;
    }
  }

  /** A new builder whose map is all Wall, as after `fill(Wall)`. */
  method WalledBuilder() returns (mb: MapBuilder)
    ensures fresh(mb)
    ensures mb.grid.tiles == AllWall() && mb.rooms == []
  {
    mb := new MapBuilder();
    mb.Fill(Wall);
    assert mb.grid.tiles == AllWall();
  }

  /** The level the architect digs, with at most `fuel` walks after the
      first, and the generator position after the digging: one walk from the
      centre on the all-Wall map, then the `while` loop. */
  function Architect(source: nat -> nat, pos: nat, distances: DistanceOracle, fuel: nat): (r: (seq<TileType>, nat))
    requires IsDistanceField(distances)
    ensures |r.0| == NUM_TILES && r.1 > pos
  {
    var first := WalkFrom(source, pos, pos, CENTER);
    MoreWalks(Dig(AllWall(), first), source, pos + |first|, distances, fuel)
  }

  /** The first walk starts on the centre, so it digs it. */
  lemma FirstWalkDigsCentre(source: nat -> nat, pos: nat)
    ensures Dig(AllWall(), WalkFrom(source, pos, pos, CENTER))[MapIdx(CENTER.x, CENTER.y)] == Floor
  {
    var first := WalkFrom(source, pos, pos, CENTER);
    assert IndexToPoint(MapIdx(CENTER.x, CENTER.y)) == CENTER == first[0];
    DigFloorAt(AllWall(), first, MapIdx(CENTER.x, CENTER.y));
  }

  /** The player's start is Floor on the level the architect digs: the
      first walk begins on the centre, and no later round walls it. */
  lemma CentreIsFloor(source: nat -> nat, pos: nat, distances: DistanceOracle, fuel: nat)
    requires IsDistanceField(distances)
    ensures Architect(source, pos, distances, fuel).0[MapIdx(CENTER.x, CENTER.y)] == Floor
  {
    var first := WalkFrom(source, pos, pos, CENTER);
    FirstWalkDigsCentre(source, pos);
    var dug := Dig(AllWall(), first);
    MoreWalksKeepCentre(dug, source, pos + |first|, distances, fuel);
    assert Architect(source, pos, distances, fuel) == MoreWalks(dug, source, pos + |first|, distances, fuel);
  }

  /** The digging part of the architect's `new` on the all-Wall map `m`. */
  method Excavate(m: Map, rng: Rng, distances: DistanceOracle, fuel: nat) returns (level: Map, walks: nat)
    requires m.tiles == AllWall() && IsDistanceField(distances)
    modifies rng
    ensures walks <= fuel
    ensures level.tiles == Architect(rng.source, old(rng.pos), distances, fuel).0
    ensures rng.pos == Architect(rng.source, old(rng.pos), distances, fuel).1
    ensures walks < fuel ==> FloorCount(level.tiles) >= DESIRED_FLOOR
  {
    var dug := DrunkardWalk(CENTER, rng, m);
    level, walks := WalkUntilDug(dug, rng, distances, fuel);
  }

  /** The architect's `new` with at most `fuel` walks after the first. The
      source loops until the target is met; here the loop also stops when the
      fuel is spent, and only then can it stop short of the target. The
      monsters are sampled around the centre, which needs NUM_MONSTERS
      admissible tiles on the final level. */
  method Build(rng: Rng, distances: DistanceOracle, fuel: nat) returns (mb: MapBuilder, walks: nat)
    requires IsDistanceField(distances)
    requires |Spawnable(Architect(rng.source, rng.pos, distances, fuel).0, CENTER)| >= NUM_MONSTERS
    modifies rng
    ensures fresh(mb)
    ensures walks <= fuel
    ensures mb.grid.tiles == Architect(rng.source, old(rng.pos), distances, fuel).0
    ensures rng.pos == Architect(rng.source, old(rng.pos), distances, fuel).1 + NUM_MONSTERS
    ensures walks < fuel ==> FloorCount(mb.grid.tiles) >= DESIRED_FLOOR
    ensures mb.rooms == [] && mb.playerStart == CENTER
    ensures mb.grid.tiles[MapIdx(mb.playerStart.x, mb.playerStart.y)] == Floor
    ensures mb.monsterSpawns == Picks(Spawnable(mb.grid.tiles, CENTER), rng.source, Architect(rng.source, old(rng.pos), distances, fuel).1, NUM_MONSTERS).0
    ensures |mb.monsterSpawns| == NUM_MONSTERS && Distinct(mb.monsterSpawns)
    ensures forall p | p in mb.monsterSpawns :: p in Spawnable(mb.grid.tiles, CENTER)
    ensures mb.amuletStart == mb.FindMostDistant(distances)
  {
    CentreIsFloor(rng.source, rng.pos, distances, fuel);
    mb := WalledBuilder();
    var level;
    level, walks := Excavate(mb.grid, rng, distances, fuel);
    mb.grid := level;
    mb.PlaceEntities(CENTER, rng, distances);
  }
}
