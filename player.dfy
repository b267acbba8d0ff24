/**
 * The stand-alone `Player` of src/player.rs: a position that an arrow key
 * moves by one tile when the destination can be entered.
 */
module Players {
  import opened Wrappers
  import opened Maps
  import opened Components

  /** Where `update` leaves a player standing on `p`, given the key pressed
      this frame, if any. */
  function Moved(p: Point, key: Option<Key>, m: Map): (q: Point)
    requires WellFormed(m)
    ensures key.None? ==> q == p
    ensures key.Some? && CanEnterTile(m, p.Plus(KeyDelta(key.value))) ==> q == p.Plus(KeyDelta(key.value))
    ensures key.Some? && !CanEnterTile(m, p.Plus(KeyDelta(key.value))) ==> q == p
  {
    if key.None? then p
    else
      var next := p.Plus(KeyDelta(key.value));
      if CanEnterTile(m, next) then next else p
  }

  /** A move is at most one orthogonal step, and a player who moved stands
      on an in-bounds Floor tile. */
  lemma MovedAtMostOneStep(p: Point, key: Option<Key>, m: Map)
    requires WellFormed(m)
    ensures var q := Moved(p, key, m);
      q == p || (Adjacent(p, q) && InBounds(q) && m.tiles[MapIdx(q.x, q.y)] == Floor)
  {
    var q := Moved(p, key, m);
    if q != p {
      var d := KeyDelta(key.value);
      assert q == p.Plus(d) && d != Point(0, 0);
      assert Adjacent(Point(0, 0), d);
    }
  }

  class Player {
    var position: Point

    constructor (position: Point)
      ensures this.position == position
    {
      this.position := position;
    }

    /** `update`: with a key pressed, step by its delta when the
        destination can be entered; otherwise stay. */
    method Update(key: Option<Key>, m: Map)
      requires WellFormed(m)
      modifies this
      ensures position == Moved(old(position), key, m)
    {
      if key.Some? {
        var delta := KeyDelta(key.value);
        var newPosition := position.Plus(delta);
        if CanEnterTile(m, newPosition) {
          position := newPosition;
        }
      }
    }
  }
}
