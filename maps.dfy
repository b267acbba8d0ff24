/**
 * The tile grid of src/map.rs: a flat vector of SCREEN_WIDTH * SCREEN_HEIGHT
 * tiles stored row by row, with bounds checks, a checked index lookup and the
 * walkability predicate used by movement.
 */
module Maps {
  import opened Wrappers

  const SCREEN_WIDTH: int := 80
  const SCREEN_HEIGHT: int := 50
  const NUM_TILES: int := 4000

  datatype TileType = Wall | Floor

  datatype Point = Point(x: int, y: int) {
    /** `Point + Point`, component-wise. */
    function Plus(d: Point): Point { Point(x + d.x, y + d.y) }
  }

  datatype Map = Map(tiles: seq<TileType>)

  /** A map produced by `Map::new` and kept by every operation: exactly NUM_TILES tiles. */
  predicate WellFormed(m: Map) { |m.tiles| == NUM_TILES }

  predicate InBounds(p: Point) {
    0 <= p.x < SCREEN_WIDTH && 0 <= p.y < SCREEN_HEIGHT
  }

  /** `map_idx`: the row-major index of (x, y); for an in-bounds point it is a
      valid index from which the point can be recovered. */
  function MapIdx(x: int, y: int): (i: int)
    ensures InBounds(Point(x, y)) ==>
      0 <= i < NUM_TILES && i % SCREEN_WIDTH == x && i / SCREEN_WIDTH == y
  {
    y * SCREEN_WIDTH + x
  }

  /** `index_to_point2d` of bracket_lib for an 80-wide map (an assumption about that library). */
  function IndexToPoint(i: int): (p: Point)
    ensures 0 <= i < NUM_TILES ==> InBounds(p) && MapIdx(p.x, p.y) == i
  {
    Point(i % SCREEN_WIDTH, i / SCREEN_WIDTH)
  }

  lemma MapIdxInjective(p: Point, q: Point)
    requires InBounds(p) && InBounds(q)
    ensures MapIdx(p.x, p.y) == MapIdx(q.x, q.y) <==> p == q
  {
  }

  /** For an in-bounds point, the only index that decodes to it is its own index. */
  lemma IndexOfPoint(p: Point, i: int)
    requires InBounds(p) && 0 <= i < NUM_TILES
    ensures IndexToPoint(i) == p <==> i == MapIdx(p.x, p.y)
  {
    if IndexToPoint(i) == p {
      assert i == (i / SCREEN_WIDTH) * SCREEN_WIDTH + i % SCREEN_WIDTH;
    }
  }

  /** `Map::new`: every one of the NUM_TILES tiles is Floor. */
  function NewMap(): (m: Map)
    ensures WellFormed(m)
    ensures forall i | 0 <= i < NUM_TILES :: m.tiles[i] == Floor
  {
    Map(seq(NUM_TILES, _ => Floor))
  }

  /** `try_idx`: the single checked conversion from a point to an index. */
  function TryIdx(p: Point): (r: Option<int>)
    ensures r.None? <==> !InBounds(p)
    ensures r.Some? ==> 0 <= r.value < NUM_TILES && r.value == MapIdx(p.x, p.y)
    ensures r.Some? ==> IndexToPoint(r.value) == p
  {
    if !InBounds(p) then None else Some(MapIdx(p.x, p.y))
  }

  /** `can_enter_tile`: the tile exists and is Floor. The bounds test comes
      first, so an out-of-bounds point is never used as an index. */
  function CanEnterTile(m: Map, p: Point): (b: bool)
    requires WellFormed(m)
    ensures b ==> InBounds(p)
    ensures b <==> TryIdx(p).Some? && m.tiles[TryIdx(p).value] == Floor
  {
    InBounds(p) && m.tiles[MapIdx(p.x, p.y)] == Floor
  }

  /** Orthogonal neighbours: the points differ by one unit on one axis. */
  predicate Adjacent(p: Point, q: Point) {
    (p.x == q.x && (p.y - q.y == 1 || q.y - p.y == 1)) ||
    (p.y == q.y && (p.x - q.x == 1 || q.x - p.x == 1))
  }

  /** The one-tile move for a direction roll from [0, 4), shared by the
      drunkard's digger and randomly moving monsters: 0 left, 1 right, 2 up,
      anything else down. */
  function Step(p: Point, roll: int): (q: Point)
    ensures Adjacent(p, q)
  {
    match roll
    case 0 => Point(p.x - 1, p.y)
    case 1 => Point(p.x + 1, p.y)
    case 2 => Point(p.x, p.y - 1)
    case _ => Point(p.x, p.y + 1)
  }
}
