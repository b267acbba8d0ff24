/**
 * The ECS data the turn systems read and write. The files declaring the
 * components and the turn state (src/components.rs, src/turn_state.rs) are
 * not part of this model; the shapes below are the ones the systems use.
 *
 * The legion world is a sequence of actors; the entity handle of an actor
 * is its index, and queries visit actors in that order. A `WantsToAttack`
 * message is an entity of its own, so handles are either actors or
 * messages. Commands pushed to the command buffer form an output sequence.
 */
module Components {
  import opened Wrappers
  import opened Maps

  /** The keys the systems tell apart; every other key code is `OtherKey`. */
  datatype Key = Left | Right | Up | Down | OtherKey(code: nat)

  datatype TurnState = AwaitingInput | PlayerTurn | MonsterTurn | GameOver

  datatype Health = Health(current: int, max: int)

  /** An actor: its `Point`, its `Health` if it has one, and its marker components. */
  datatype Actor = Actor(pos: Point, health: Option<Health>, isPlayer: bool, isEnemy: bool, movingRandomly: bool)

  /** An entity handle: actor `index` of the world, or attack message `index`. */
  datatype Entity = ActorId(index: nat) | MessageId(index: nat)

  /** A `WantsToAttack` message entity's component. */
  datatype AttackMessage = AttackMessage(attacker: nat, victim: nat)

  /** Entries of the command buffer: a pushed message entity, or a removal. */
  datatype Command =
    | WantsToAttack(attacker: nat, victim: nat)
    | WantsToMove(entity: nat, destination: Point)
    | Remove(target: Entity)

  /** The arrow keys move one tile in their direction; any other key moves
      nowhere. Used alike by `Player::update` and the `player_input` system. */
  function KeyDelta(key: Key): (d: Point)
    ensures d == Point(0, 0) <==> key.OtherKey?
    ensures !key.OtherKey? ==> Adjacent(Point(0, 0), d)
    ensures key == Left ==> d.x < 0
    ensures key == Right ==> d.x > 0
    ensures key == Up ==> d.y < 0
    ensures key == Down ==> d.y > 0
  {
    match key
    case Left => Point(-1, 0)
    case Right => Point(1, 0)
    case Up => Point(0, -1)
    case Down => Point(0, 1)
    case OtherKey(_) => Point(0, 0)
  }
}
