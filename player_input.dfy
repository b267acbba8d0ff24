/**
 * The `player_input` system of src/systems/player_input.rs: a key press
 * becomes an attack on every enemy standing where the player would step,
 * or else a move there, and hands the turn to the player's systems.
 */
module PlayerInput {
  import opened Wrappers
  import opened Maps
  import opened Components

  predicate HasPlayer(world: seq<Actor>) {
    exists i | 0 <= i < |world| :: world[i].isPlayer
  }

  /** The player entity `find_map` yields: the first actor with `Player`. */
  function FirstPlayer(world: seq<Actor>): (i: nat)
    requires HasPlayer(world)
    ensures i < |world| && world[i].isPlayer
    ensures forall j | 0 <= j < i :: !world[j].isPlayer
  {
    if world[0].isPlayer then 0
    else
      assert HasPlayer(world[1..]) by {
        var k :| 0 <= k < |world| && world[k].isPlayer;
        assert world[1..][k - 1] == world[k];
      }
      1 + FirstPlayer(world[1..])
  }

  /** Some actor with `Enemy` stands on `dest`. */
  predicate EnemyAt(world: seq<Actor>, dest: Point) {
    exists v | 0 <= v < |world| :: world[v].isEnemy && world[v].pos == dest
  }

  /** The attacks `player` issues on the first `n` actors for the
      destination `dest`: one on each enemy standing there, in order. */
  function EnemyAttacks(world: seq<Actor>, player: nat, dest: Point, n: nat): seq<Command>
    requires n <= |world|
  {
    if n == 0 then []
    else
      var before := EnemyAttacks(world, player, dest, n - 1);
      if world[n - 1].isEnemy && world[n - 1].pos == dest then before + [WantsToAttack(player, n - 1)] else before
  }

  /** Every attack is from `player` on an enemy standing on `dest`, every
      such enemy among the first `n` actors is attacked, and there is no
      attack exactly when no enemy stands there. */
  lemma {:induction false} EnemyAttacksMeaning(world: seq<Actor>, player: nat, dest: Point, n: nat)
    requires n <= |world|
    ensures forall c | c in EnemyAttacks(world, player, dest, n) ::
      c.WantsToAttack? && c.attacker == player && c.victim < n &&
      world[c.victim].isEnemy && world[c.victim].pos == dest
    ensures forall v | 0 <= v < n && world[v].isEnemy && world[v].pos == dest ::
      WantsToAttack(player, v) in EnemyAttacks(world, player, dest, n)
    ensures |EnemyAttacks(world, player, dest, n)| == 0 <==>
      forall v | 0 <= v < n :: !(world[v].isEnemy && world[v].pos == dest)
  {
    if n > 0 {
      EnemyAttacksMeaning(world, player, dest, n - 1);
    }
  }

  /** The healing write: actor `i`, if it has Health, gains one hit point up
      to its maximum. */
  function Healed(world: seq<Actor>, i: nat): (r: seq<Actor>)
    ensures |r| == |world|
  {
    if i < |world| && world[i].health.Some? then
      var hp := world[i].health.value;
      var current := if hp.max < hp.current + 1 then hp.max else hp.current + 1;
      world[i := world[i].(health := Some(Health(current, hp.max)))]
    else world
  }

  /** `player_input`. With no key nothing happens. With a key the turn
      passes to PlayerTurn; a non-zero step towards `dest` attacks every
      enemy on `dest`, one message each, or moves there if none stands
      there; a zero step issues nothing. The healing write the source guards
      by `!did_something` never takes place: the world comes back unchanged.
      The source unwraps the player query, so a key press needs a player. */
  method PlayerInputSystem(world: seq<Actor>, key: Option<Key>, state: TurnState)
    returns (commands: seq<Command>, newWorld: seq<Actor>, newState: TurnState)
    requires key.Some? ==> HasPlayer(world)
    ensures newWorld == world
    ensures key.None? ==> commands == [] && newState == state
    ensures key.Some? ==> newState == PlayerTurn
    ensures key.Some? && KeyDelta(key.value) == Point(0, 0) ==> commands == []
    ensures key.Some? && KeyDelta(key.value) != Point(0, 0) ==>
      var player := FirstPlayer(world);
      var dest := world[player].pos.Plus(KeyDelta(key.value));
      (EnemyAt(world, dest) ==> commands == EnemyAttacks(world, player, dest, |world|)) &&
      (!EnemyAt(world, dest) ==> commands == [WantsToMove(player, dest)])
  {
    commands := [];
    newWorld := world;
    newState := state;
    if key.Some? {
      var delta := KeyDelta(key.value);
      var player := FirstPlayer(world);
      var destination := world[player].pos.Plus(delta);
      var didSomething := false;
      if delta.x != 0 || delta.y != 0 {
        var hitSomething := false;
        for i := 0 to |world|
          invariant hitSomething == didSomething
          invariant hitSomething <==> exists v | 0 <= v < i :: world[v].isEnemy && world[v].pos == destination
          invariant commands == EnemyAttacks(world, player, destination, i)
        {
          if world[i].isEnemy && world[i].pos == destination {
            hitSomething := true;
            didSomething := true;
            commands := commands + [WantsToAttack(player, i)];
          }
        }
        EnemyAttacksMeaning(world, player, destination, |world|);
        if !hitSomething {
          didSomething := true;
          commands := commands + [WantsToMove(player, destination)];
        }
        if !didSomething {
          newWorld := Healed(newWorld, player);
        }
      }
      newState := PlayerTurn;
    }
  }
}
