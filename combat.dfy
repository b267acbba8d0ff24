/**
 * The `combat` system of src/systems/combat.rs: every attack message costs
 * its victim one hit point if the victim has Health, a victim left below
 * one hit point is queued for removal, and every message is removed.
 * Health is written in place; the model takes the actors and returns them
 * as the system leaves them, with the command buffer's removals.
 */
module Combat {
  import opened Wrappers
  import opened Components

  /** How many of the first `n` messages target actor `v`. */
  function Hits(messages: seq<AttackMessage>, v: nat, n: nat): (h: nat)
    requires n <= |messages|
    ensures h <= n
    ensures h == 0 <==> forall j | 0 <= j < n :: messages[j].victim != v
  {
    if n == 0 then 0
    else Hits(messages, v, n - 1) + (if messages[n - 1].victim == v then 1 else 0)
  }

  /** The state after the first `n` messages: each actor with Health has
      lost one hit point per message aimed at it, the others are untouched;
      the removals queued are the first `n` messages and the actors with
      Health that were hit and are below one hit point. */
  ghost predicate Dealt(world: seq<Actor>, messages: seq<AttackMessage>, n: nat, current: seq<Actor>, commands: seq<Command>)
    requires n <= |messages|
  {
    |current| == |world| &&
    (forall v | 0 <= v < |world| && world[v].health.None? :: current[v] == world[v]) &&
    (forall v | 0 <= v < |world| && world[v].health.Some? ::
      var hp := world[v].health.value;
      current[v] == world[v].(health := Some(Health(hp.current - Hits(messages, v, n), hp.max)))) &&
    (forall k | 0 <= k < n :: Remove(MessageId(k)) in commands) &&
    (forall v | 0 <= v < |world| :: Remove(ActorId(v)) in commands <==>
      world[v].health.Some? && Hits(messages, v, n) > 0 &&
      world[v].health.value.current - Hits(messages, v, n) < 1) &&
    (forall c | c in commands ::
      (c.Remove? && c.target.MessageId? && c.target.index < n) ||
      (c.Remove? && c.target.ActorId? && c.target.index < |world|))
  }

  /** The loop body for message `j`: strike its victim if it has Health,
      queue the victim's removal when it drops below one hit point, and
      queue the message's removal. */
  method Strike(world: seq<Actor>, messages: seq<AttackMessage>, j: nat, current: seq<Actor>, commands: seq<Command>)
    returns (current': seq<Actor>, commands': seq<Command>)
    requires j < |messages| && messages[j].victim < |world|
    requires Dealt(world, messages, j, current, commands)
    ensures Dealt(world, messages, j + 1, current', commands')
  {
    var victim := messages[j].victim;
    var target := current[victim];
    current' := current;
    commands' := commands;
    if target.health.Some? {
      var hp := target.health.value;
      var lowered := Health(hp.current - 1, hp.max);
      current' := current[victim := target.(health := Some(lowered))];
      if lowered.current < 1 {
        commands' := commands' + [Remove(ActorId(victim))];
      }
    }
    commands' := commands' + [Remove(MessageId(j))];
  }

  /** `combat`. The source unwraps each victim's entry, so every victim must
      exist. A victim with Health loses exactly one hit point per message
      aimed at it and keeps its maximum; a victim without Health is left as
      it was. An actor is queued for removal exactly when it has Health, was
      hit, and ended below one hit point; every message entity is removed;
      nothing else is queued. */
  method CombatSystem(world: seq<Actor>, messages: seq<AttackMessage>) returns (newWorld: seq<Actor>, commands: seq<Command>)
    requires forall j | 0 <= j < |messages| :: messages[j].victim < |world|
    ensures |newWorld| == |world|
    ensures forall v | 0 <= v < |world| && world[v].health.None? :: newWorld[v] == world[v]
    ensures forall v | 0 <= v < |world| && world[v].health.Some? ::
      var hp := world[v].health.value;
      newWorld[v] == world[v].(health := Some(Health(hp.current - Hits(messages, v, |messages|), hp.max)))
    ensures forall j | 0 <= j < |messages| :: Remove(MessageId(j)) in commands
    ensures forall v | 0 <= v < |world| :: Remove(ActorId(v)) in commands <==>
      world[v].health.Some? && Hits(messages, v, |messages|) > 0 &&
      world[v].health.value.current - Hits(messages, v, |messages|) < 1
    ensures forall c | c in commands ::
      (c.Remove? && c.target.MessageId? && c.target.index < |messages|) ||
      (c.Remove? && c.target.ActorId? && c.target.index < |world|)
  {
    newWorld := world;
    commands := [];
    for j := 0 to |messages|
      invariant Dealt(world, messages, j, newWorld, commands)
    {
      newWorld, commands := Strike(world, messages, j, newWorld, commands);
    }
  }
}
