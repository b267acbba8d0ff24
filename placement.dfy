/**
 * The two placement queries of src/map_builder/mod.rs: the goal is the
 * reachable tile farthest from the player in a distance field, and monsters
 * spawn on Floor tiles more than 10 tiles (straight-line) from the start.
 */
module Placement {
  import opened Wrappers
  import opened Maps
  import opened Random

  const NUM_MONSTERS: int := 50

  /** `f32::MAX`, the value bracket_lib's `DijkstraMap` gives tiles it cannot reach. */
  const UNREACHABLE: real := 340282346638528859811704183484516925440.0

  /** A `DijkstraMap` computation: the distance of every tile from a seed
      tile, for a given grid. The flood fill itself belongs to bracket_lib and
      is not part of this model. */
  type DistanceOracle = (seq<TileType>, nat) -> seq<real>

  /** What the model requires of that library: one distance per tile, and the
      seed itself at distance 0. */
  ghost predicate IsDistanceField(distances: DistanceOracle) {
    forall tiles: seq<TileType>, seed: nat {:trigger distances(tiles, seed)} ::
      seed < NUM_TILES ==> |distances(tiles, seed)| == NUM_TILES && distances(tiles, seed)[seed] == 0.0
  }

  /** The `filter(dist < UNREACHABLE).max_by(...)` fold over the first `n`
      entries. `max_by` keeps the later of two equal elements, so ties go to
      the last maximal index. None when no entry passes the filter. */
  function MostDistantIn(dist: seq<real>, n: nat): (r: Option<nat>)
    requires n <= |dist|
    ensures r.None? <==> forall i | 0 <= i < n :: dist[i] >= UNREACHABLE
    ensures r.Some? ==> r.value < n && dist[r.value] < UNREACHABLE
    ensures r.Some? ==> forall i | 0 <= i < n && dist[i] < UNREACHABLE :: dist[i] <= dist[r.value]
    ensures r.Some? ==> forall i | r.value < i < n && dist[i] < UNREACHABLE :: dist[i] < dist[r.value]
  {
    if n == 0 then None
    else
      var best := MostDistantIn(dist, n - 1);
      if dist[n - 1] >= UNREACHABLE then best
      else if best.None? || dist[best.value] <= dist[n - 1] then Some(n - 1)
      else best
  }

  /** Squared straight-line distance; `Pythagoras.distance2d(a, b) > 10.0`
      holds exactly when this exceeds 100, since the square root is monotone. */
  function DistSq(a: Point, b: Point): int {
    (a.x - b.x) * (a.x - b.x) + (a.y - b.y) * (a.y - b.y)
  }

  /** The spawn filter: a Floor tile more than 10 tiles from `start`. */
  predicate Admissible(tiles: seq<TileType>, start: Point, i: int)
    requires 0 <= i < |tiles|
  {
    tiles[i] == Floor && DistSq(start, IndexToPoint(i)) > 100
  }

  predicate Distinct<T(==)>(s: seq<T>) {
    forall i, j | 0 <= i < j < |s| :: s[i] != s[j]
  }

  /** The `enumerate().filter(...).map(index_to_point2d)` chain over the first
      `n` tiles: exactly the admissible tiles, as points, once each, in index order. */
  function SpawnableIn(tiles: seq<TileType>, start: Point, n: nat): (r: seq<Point>)
    requires |tiles| == NUM_TILES && n <= NUM_TILES
    ensures forall p {:trigger p in r} | p in r :: InBounds(p) && MapIdx(p.x, p.y) < n && Admissible(tiles, start, MapIdx(p.x, p.y))
    ensures forall i {:trigger Admissible(tiles, start, i)} | 0 <= i < n && Admissible(tiles, start, i) :: IndexToPoint(i) in r
    ensures Distinct(r)
  {
    if n == 0 then []
    else
      var init := SpawnableIn(tiles, start, n - 1);
      if Admissible(tiles, start, n - 1) then
        var p := IndexToPoint(n - 1);
        assert p !in init;
        init + [p]
      else init
  }

  function Spawnable(tiles: seq<TileType>, start: Point): seq<Point>
    requires |tiles| == NUM_TILES
  {
    SpawnableIn(tiles, start, NUM_TILES)
  }

  /** Appending an element not yet present keeps a list free of duplicates. */
  lemma AppendFresh<T>(s: seq<T>, x: T)
    requires Distinct(s) && x !in s
    ensures Distinct(s + [x])
  {
    var r := s + [x];
    assert forall i | 0 <= i < |s| :: r[i] == s[i];
  }

  /** `Vec::remove(k)`: the list without its element at index `k`. */
  function Removed<T>(s: seq<T>, k: nat): (r: seq<T>)
    requires k < |s|
    ensures |r| == |s| - 1
  {
    s[..k] + s[k + 1..]
  }

  /** Removing one element of a list without duplicates: the rest has none,
      does not contain the removed element and contains nothing new. */
  lemma RemoveAt<T>(s: seq<T>, k: nat)
    requires Distinct(s) && k < |s|
    ensures Distinct(Removed(s, k))
    ensures s[k] !in Removed(s, k)
    ensures forall x | x in Removed(s, k) :: x in s
  {
    var r := Removed(s, k);
    assert forall i | 0 <= i < |r| :: r[i] == if i < k then s[i] else s[i + 1];
  }

  /** The state of `spawn_monsters` after `n` rounds from the list
      `spawnable` with the generator at draw `pos`: the points picked so
      far and the list left. Each round draws an index into what is left,
      pushes that point and removes it from the list. */
  function Picks(spawnable: seq<Point>, source: nat -> nat, pos: nat, n: nat): (r: (seq<Point>, seq<Point>))
    requires n <= |spawnable|
    ensures |r.0| == n && |r.1| == |spawnable| - n
  {
    if n == 0 then ([], spawnable)
    else
      var prev := Picks(spawnable, source, pos, n - 1);
      var k := Draw(source, pos + n - 1, 0, |prev.1|);
      (prev.0 + [prev.1[k]], Removed(prev.1, k))
  }

  /** Picking without replacement, whatever the draws: from a list without
      duplicates, `n` rounds pick `n` points of the list, no point twice, and
      what is left is the rest of the list, without duplicates. */
  lemma {:induction false} PicksSound(spawnable: seq<Point>, source: nat -> nat, pos: nat, n: nat)
    requires Distinct(spawnable) && n <= |spawnable|
    ensures var r := Picks(spawnable, source, pos, n);
      Distinct(r.0) && Distinct(r.1) &&
      (forall p | p in r.0 :: p in spawnable && p !in r.1) &&
      (forall p | p in r.1 :: p in spawnable)
  {
    if n > 0 {
      PicksSound(spawnable, source, pos, n - 1);
      var prev := Picks(spawnable, source, pos, n - 1);
      var k := Draw(source, pos + n - 1, 0, |prev.1|);
      RemoveAt(prev.1, k);
      AppendFresh(prev.0, prev.1[k]);
    }
  }
}
