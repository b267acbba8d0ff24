/**
 * The `random_move` system of src/systems/random_moves.rs: each randomly
 * moving actor picks one of the four directions; it attacks every player
 * standing on the destination, and moves there only when no actor with
 * Health stands there.
 */
module RandomMoves {
  import opened Wrappers
  import opened Maps
  import opened Random
  import opened Components

  /** Some actor with Health stands on `dest`. */
  predicate Occupied(world: seq<Actor>, dest: Point) {
    exists v | 0 <= v < |world| :: world[v].health.Some? && world[v].pos == dest
  }

  /** The attacks `mover` issues on the first `n` actors for the destination
      `dest`: one on each player with Health standing there, in order. */
  function PlayerAttacks(world: seq<Actor>, mover: nat, dest: Point, n: nat): seq<Command>
    requires n <= |world|
  {
    if n == 0 then []
    else
      var before := PlayerAttacks(world, mover, dest, n - 1);
      var a := world[n - 1];
      if a.health.Some? && a.pos == dest && a.isPlayer then before + [WantsToAttack(mover, n - 1)] else before
  }

  /** Every attack is from `mover` on a player with Health standing on
      `dest`, and every such player among the first `n` actors is attacked. */
  lemma {:induction false} PlayerAttacksMeaning(world: seq<Actor>, mover: nat, dest: Point, n: nat)
    requires n <= |world|
    ensures forall c | c in PlayerAttacks(world, mover, dest, n) ::
      c.WantsToAttack? && c.attacker == mover && c.victim < n && world[c.victim].isPlayer &&
      world[c.victim].health.Some? && world[c.victim].pos == dest
    ensures forall v | 0 <= v < n && world[v].isPlayer && world[v].health.Some? && world[v].pos == dest ::
      WantsToAttack(mover, v) in PlayerAttacks(world, mover, dest, n)
  {
    if n > 0 {
      PlayerAttacksMeaning(world, mover, dest, n - 1);
    }
  }

  /** What `mover` issues for the destination `dest`. */
  function MoverCommands(world: seq<Actor>, mover: nat, dest: Point): seq<Command> {
    PlayerAttacks(world, mover, dest, |world|) +
    if Occupied(world, dest) then [] else [WantsToMove(mover, dest)]
  }

  /** A mover attacks each player with Health on its destination and
      nothing else, and moves there exactly when no actor with Health
      stands there. */
  lemma MoverCommandsMeaning(world: seq<Actor>, mover: nat, dest: Point)
    ensures var r := MoverCommands(world, mover, dest);
      (WantsToMove(mover, dest) in r <==> !Occupied(world, dest)) &&
      (forall c | c in r :: c.WantsToMove? ==> c == WantsToMove(mover, dest)) &&
      (forall c | c in r :: !c.Remove?) &&
      (forall c | c in r && c.WantsToAttack? ::
        c.attacker == mover && c.victim < |world| && world[c.victim].isPlayer &&
        world[c.victim].health.Some? && world[c.victim].pos == dest) &&
      (forall v | 0 <= v < |world| && world[v].isPlayer && world[v].health.Some? && world[v].pos == dest ::
        WantsToAttack(mover, v) in r)
  {
    PlayerAttacksMeaning(world, mover, dest, |world|);
  }

  /** The inner loop over the actors with Health, with its `attacked` flag. */
  method MoverDecision(world: seq<Actor>, mover: nat, dest: Point) returns (issued: seq<Command>)
    ensures issued == MoverCommands(world, mover, dest)
  {
    issued := [];
    var attacked := false;
    for v := 0 to |world|
      invariant attacked <==> exists u | 0 <= u < v :: world[u].health.Some? && world[u].pos == dest
      invariant issued == PlayerAttacks(world, mover, dest, v)
    {
      if world[v].health.Some? && world[v].pos == dest {
        if world[v].isPlayer {
          issued := issued + [WantsToAttack(mover, v)];
        }
        attacked := true;
      }
    }
    if !attacked {
      issued := issued + [WantsToMove(mover, dest)];
    }
  }

  /** How many of the first `n` actors move randomly; each takes one draw. */
  function Movers(world: seq<Actor>, n: nat): (m: nat)
    requires n <= |world|
    ensures m <= n
  {
    if n == 0 then 0 else Movers(world, n - 1) + (if world[n - 1].movingRandomly then 1 else 0)
  }

  /** The commands the first `n` actors issue, the generator starting at draw `k`. */
  function RandomMoveCommands(world: seq<Actor>, source: nat -> nat, k: nat, n: nat): seq<Command>
    requires n <= |world|
  {
    if n == 0 then []
    else
      var before := RandomMoveCommands(world, source, k, n - 1);
      var a := world[n - 1];
      if a.movingRandomly then
        before + MoverCommands(world, n - 1, Step(a.pos, Draw(source, k + Movers(world, n - 1), 0, 4)))
      else before
  }

  /** One more actor that moves randomly appends its own commands. */
  lemma MoverStep(world: seq<Actor>, source: nat -> nat, k: nat, n: nat)
    requires n < |world| && world[n].movingRandomly
    ensures RandomMoveCommands(world, source, k, n + 1) ==
      RandomMoveCommands(world, source, k, n) + MoverCommands(world, n, Step(world[n].pos, Draw(source, k + Movers(world, n), 0, 4)))
  {
  }

  /** One more actor that does not move randomly adds nothing. */
  lemma StillStep(world: seq<Actor>, source: nat -> nat, k: nat, n: nat)
    requires n < |world| && !world[n].movingRandomly
    ensures RandomMoveCommands(world, source, k, n + 1) == RandomMoveCommands(world, source, k, n)
  {
  }

  /** Whatever the draws, only movers issue commands; a move goes one
      orthogonal step to a tile no actor with Health stands on; an attack
      targets a player with Health one orthogonal step from the attacker;
      nothing is removed. */
  lemma {:induction false} RandomMovesSound(world: seq<Actor>, source: nat -> nat, k: nat, n: nat)
    requires n <= |world|
    ensures forall c | c in RandomMoveCommands(world, source, k, n) ::
      c.WantsToMove? ==>
        c.entity < n && world[c.entity].movingRandomly &&
        Adjacent(world[c.entity].pos, c.destination) && !Occupied(world, c.destination)
    ensures forall c | c in RandomMoveCommands(world, source, k, n) ::
      c.WantsToAttack? ==>
        c.attacker < n && world[c.attacker].movingRandomly && c.victim < |world| &&
        world[c.victim].isPlayer && world[c.victim].health.Some? &&
        Adjacent(world[c.attacker].pos, world[c.victim].pos)
    ensures forall c | c in RandomMoveCommands(world, source, k, n) :: !c.Remove?
  {
    if n > 0 {
      RandomMovesSound(world, source, k, n - 1);
      var a := world[n - 1];
      if a.movingRandomly {
        var dest := Step(a.pos, Draw(source, k + Movers(world, n - 1), 0, 4));
        var own := MoverCommands(world, n - 1, dest);
        MoverCommandsMeaning(world, n - 1, dest);
        assert RandomMoveCommands(world, source, k, n) == RandomMoveCommands(world, source, k, n - 1) + own;
        assert Adjacent(a.pos, dest);
      }
    }
  }

  /** `random_move`: the movers in order, each drawing its direction. The
      source makes a fresh generator per mover; here each of those draws is
      the next one of the stream. */
  method RandomMoveSystem(world: seq<Actor>, rng: Rng) returns (commands: seq<Command>)
    modifies rng
    ensures rng.pos == old(rng.pos) + Movers(world, |world|)
    ensures commands == RandomMoveCommands(world, rng.source, old(rng.pos), |world|)
  {
    ghost var pos0 := rng.pos;
    commands := [];
    for i := 0 to |world|
      invariant rng.pos == pos0 + Movers(world, i)
      invariant commands == RandomMoveCommands(world, rng.source, pos0, i)
    {
      if world[i].movingRandomly {
        var roll := rng.Range(0, 4);
        var destination := Step(world[i].pos, roll);
        var issued := MoverDecision(world, i, destination);
        MoverStep(world, rng.source, pos0, i);
        commands := commands + issued;
      } else {
        StillStep(world, rng.source, pos0, i);
      }
    }
  }
}
