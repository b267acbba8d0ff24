/**
 * The `end_turn` system of src/systems/end_turn.rs: the turn-state machine.
 * The turn state is a resource borrowed mutably; the model takes its value
 * and returns the value written back.
 */
module EndTurn {
  import opened Wrappers
  import opened Components

  /** The state after a turn in which no player has fallen; AwaitingInput is
      not advanced here (the system returns early on it). */
  function Advance(state: TurnState): (next: TurnState)
    ensures state == PlayerTurn <==> next == MonsterTurn
    ensures state == MonsterTurn ==> next == AwaitingInput
    ensures state != PlayerTurn && state != MonsterTurn ==> next == state
  {
    match state
    case PlayerTurn => MonsterTurn
    case MonsterTurn => AwaitingInput
    case _ => state
  }

  /** An actor the `<&Health>` query filtered on `Player` yields, with hit points below one. */
  predicate FallenPlayer(a: Actor) {
    a.isPlayer && a.health.Some? && a.health.value.current < 1
  }

  /** `end_turn`: AwaitingInput is kept whatever the players' health; from
      any other state a fallen player means GameOver, and otherwise the
      state advances. */
  method EndTurnSystem(world: seq<Actor>, state: TurnState) returns (next: TurnState)
    ensures state == AwaitingInput ==> next == AwaitingInput
    ensures state != AwaitingInput && (exists i | 0 <= i < |world| :: FallenPlayer(world[i])) ==> next == GameOver
    ensures state != AwaitingInput && (forall i | 0 <= i < |world| :: !FallenPlayer(world[i])) ==> next == Advance(state)
  {
    if state == AwaitingInput {
      return state;
    }
    var newState := Advance(state);
    for i := 0 to |world|
      invariant (exists j | 0 <= j < i :: FallenPlayer(world[j])) ==> newState == GameOver
      invariant (forall j | 0 <= j < i :: !FallenPlayer(world[j])) ==> newState == Advance(state)
    {
      var a := world[i];
      if a.isPlayer && a.health.Some? && a.health.value.current < 1 {
        newState := GameOver;
      }
    }
    next := newState;
  }
}
