# rusty-crawler level generation and turn rules in Dafny

This project models the core of rusty-crawler, a roguelike on an 80 × 50 tile grid. It covers two things.

Level generation:
- the flat tile grid and its index arithmetic;
- the room-packing builder: random non-overlapping rooms, L-shaped corridors between rooms sorted by centre x, monster spawns sampled without replacement, and the amulet placed on the farthest reachable tile;
- the cellular-automata architect: noise, ten smoothing passes, and the start tile nearest the centre;
- the drunkard's-walk architect: bounded random walks repeated until a third of the map is Floor, with distance pruning after each extra walk.

Turn logic:
- `Player::update`;
- the `end_turn`, `player_input`, `combat` and `random_move` systems.

Modules follow the source files:

| module | models |
|---|---|
| `Maps` | `src/map.rs` |
| `Rects`, `Random` | the bracket-lib `Rect` and `RandomNumberGenerator` the builders use |
| `Placement` | the goal and spawn selection of `src/map_builder/mod.rs` |
| `Carving` | what the tile writes of `src/map_builder/mod.rs` produce, stated as functions |
| `Builder` | the `MapBuilder` class of `src/map_builder/mod.rs` and of its older copy `src/map_builder.rs` |
| `Automata` | `src/map_builder/automata.rs` |
| `Drunkard` | `src/map_builder/drunkard.rs` |
| `Players` | `src/player.rs` |
| `Components` | the component shapes the systems use |
| `EndTurn`, `PlayerInput`, `Combat`, `RandomMoves` | the four systems |

Code that updates state in place is modelled as imperative Dafny. `MapBuilder` and `Player` are classes whose methods update their fields. The generator is a class whose position advances with each draw. The loops of `fill`, `build_random_rooms`, the tunnels, `build_corridors`, `spawn_monsters`, `random_noise_map`, `count_neighbors`, `iteration`, `drunkard`, the pruning pass and the four systems are methods with loop invariants.

Each such method is proved against a specification function of its inputs. Examples are `Carving.CarveCorridors`, `Automata.Smoothed`, `Drunkard.WalkFrom` and `Drunkard.Dig`. Separate lemmas then prove what the source promises about those functions.

Randomness is an input. A generator is a stream `source: nat -> nat` of raw draws and a position in it. `range(lo, hi)` maps draw `k` to `lo + source(k) % (hi - lo)`. So every result is a function of the stream and the starting position.

The Dijkstra distance field, whose code is not part of this model, is an input function `(tiles, seed index) -> distances`. It is taken to return one value per tile, 0 at the seed, with the value `f32::MAX` for unreachable tiles.

Where the game's design description and the code disagree, the model follows the code:
- Goal ties. The code's `max_by` picks the last tile of greatest distance, not the first (`Placement.MostDistantIn`).
- Pruning. The drunkard architect prunes after every extra walk, inside the loop, rather than once after reaching the target.
- Noise. A tile is Wall for rolls 0 to 55 of [0, 100), that is 56 %, not about 45 %.
- Border. Smoothing leaves the border as the noise made it and never forces it to Wall. `Automata.OpenBorderPossible` exhibits a level with a Floor corner.

## Model

| member | source | states |
|---|---|---|
| Maps.MapIdx | src/map.rs:14-16 | for an in-bounds point the index lies in [0, 4000), and `% 80` and `/ 80` give back its column and row |
| Maps.IndexToPoint | src/map.rs:14-16 | inverse of `map_idx` on [0, 4000): the point is in bounds and indexes back to the same index |
| Maps.MapIdxInjective | src/map.rs:14-16 | two in-bounds points have the same index exactly when they are equal |
| Maps.IndexOfPoint | src/map.rs:14-16 | an index converts to an in-bounds point exactly when it is that point's index |
| Maps.NewMap | src/map.rs:19-23 | a new map has exactly 4000 tiles, all Floor |
| Maps.TryIdx | src/map.rs:42-48 | None exactly when the point is off the map; otherwise the index is in range and converts back to the point |
| Maps.CanEnterTile | src/map.rs:34-37 | true exactly when the checked index exists and its tile is Floor; so an enterable tile is always in bounds |
| Maps.Step | src/map_builder/drunkard.rs:27-32 | every direction roll moves the point by exactly one orthogonal unit |
| Rects.DisjointCells | src/map_builder/mod.rs:69-74 | two rooms that do not intersect have no cell in common |
| Rects.CenterCovered | src/map_builder/mod.rs:142-143 | the centre of a non-empty room is one of its own cells |
| Random.Draw | src/map_builder/mod.rs:60-65 | a `range(lo, hi)` value lies in the half-open interval [lo, hi) |
| Random.Rng.Range | src/map_builder/mod.rs:60-65 | `range` consumes exactly one draw and returns that draw mapped into [lo, hi) |
| Random.Rng.RandomSliceIndex | src/map_builder/mod.rs:201-202 | `random_slice_index` returns None on an empty slice without drawing; otherwise it returns an index below the length and consumes one draw |
| Placement.MostDistantIn | src/map_builder/mod.rs:166-173 | None exactly when every distance is unreachable; otherwise a reachable index whose distance is at least every reachable distance and strictly greater than every later one, so ties resolve to the last |
| Placement.SpawnableIn | src/map_builder/mod.rs:183-197 | the filtered tile list holds exactly the Floor tiles whose squared distance from the start exceeds 100, each once |
| Placement.RemoveAt | src/map_builder/mod.rs:203-204 | removing index k from a list free of repeats leaves a list free of repeats that no longer holds the element taken and holds only elements of the original |
| Placement.Removed | src/map_builder/mod.rs:204 | `remove(k)` shortens the list by exactly one |
| Placement.AppendFresh | src/map_builder/mod.rs:203 | pushing a point not yet picked keeps the picks free of repeats |
| Placement.Picks | src/map_builder/mod.rs:199-205 | after n rounds exactly n points are picked and the list left is shorter by n |
| Placement.PicksSound | src/map_builder/mod.rs:183-205 | from a list free of repeats, whatever the draws, the picks are distinct points of the list, none of them still left, and what is left is free of repeats and holds only points of the list |
| Carving.GeneratedRoomInsideGuard | src/map_builder.rs:24-29 | every cell of a generated room already passes the bounds guard of lines 45-46, so the guard never skips a cell |
| Carving.Candidate | src/map_builder/mod.rs:60-65 | every candidate is a generated room: corner in [1, 70) × [1, 40), width and height in [2, 10) |
| Carving.RoomsAfterSound | src/map_builder/mod.rs:57-89 | whatever the draws, after n candidates the old rooms are a prefix of the new list, at most n rooms were added, and each added room is a generated room that intersects no room before it |
| Carving.AppendPlaced | src/map_builder/mod.rs:69-88 | appending a generated room that intersects no placed room keeps every added room disjoint from all rooms before it |
| Carving.KeepsPairwise | src/map_builder/mod.rs:54-91 | rooms added that way keep a pairwise disjoint list pairwise disjoint |
| Carving.StampAllEffect | src/map_builder/mod.rs:80-88 | after stamping, a tile is Floor exactly when it was Floor or lies inside a stamped room and passes the guard; any tile that changed became Floor, so no earlier room is erased |
| Carving.TunnelsSymmetric | src/map_builder/mod.rs:93-118 | both tunnels give the same tiles with their end points swapped |
| Carving.RowPathWalks | src/map_builder/mod.rs:113-117 | the cells of a horizontal tunnel form a unit-step walk from one end to the other, all on the segment |
| Carving.ColumnPathWalks | src/map_builder/mod.rs:102-106 | the cells of a vertical tunnel form a unit-step walk from one end to the other, all on the segment |
| Carving.JoinWalks | src/map_builder/mod.rs:147-153 | two walks that share their meeting cell join into one walk |
| Carving.CorridorConnects | src/map_builder/mod.rs:147-153 | for either coin the two legs form a unit-step walk from one centre to the other; every in-bounds cell of it is Floor afterwards; with both centres on the map the whole walk is on the map |
| Carving.CarveCorridorOnlyFloor | src/map_builder/mod.rs:147-153 | one corridor keeps every Floor tile and writes nothing but Floor |
| Carving.CarveCorridorsOnlyFloor | src/map_builder/mod.rs:138-154 | the corridor pass keeps every Floor tile and writes nothing but Floor |
| Carving.CarveCorridorsConnect | src/map_builder/mod.rs:138-154 | after the whole pass each corridor's walk is still all Floor: later corridors never undo earlier ones |
| Carving.CarveCorridorsEffect | src/map_builder/mod.rs:120-155 | `build_corridors` only adds Floor, and every two rooms adjacent in centre-x order are joined by a walk that is all Floor |
| Carving.InsertByCenterX | src/map_builder/mod.rs:133 | inserting into a sorted list gives a sorted list holding the same rooms plus the new one |
| Carving.SortByCenterX | src/map_builder/mod.rs:133 | `sort_by` on centre x gives a list sorted by centre x that is a permutation of the rooms |
| Builder.MapBuilder.constructor | src/map_builder/automata.rs:88-94 | the builder literal: a new all-Floor map, no rooms and no spawns, both points at the origin |
| Builder.MapBuilder.Fill | src/map_builder/mod.rs:47-49 | every tile becomes the given tile; the tile count is kept |
| Builder.MapBuilder.StampRoom | src/map_builder/mod.rs:80-87 | the tiles become exactly the old tiles with the room's guarded cells set to Floor |
| Builder.MapBuilder.OverlapsPlaced | src/map_builder/mod.rs:69-74 | the flag is set exactly when the candidate intersects some room placed so far |
| Builder.MapBuilder.DrawCandidate | src/map_builder/mod.rs:60-65 | the four draws x, y, width, height give `Carving.Candidate` at the old position and advance the generator by four |
| Builder.MapBuilder.TryCandidate | src/map_builder/mod.rs:59-89 | one pass of the loop takes the rooms from those after n candidates to those after n + 1, adds at most one room, advances the generator by four and keeps the tiles equal to the start tiles with the new rooms stamped |
| Builder.MapBuilder.DrawRooms | src/map_builder/mod.rs:57-90 | the loop ends with the rooms after its candidates, every candidate drawn while fewer than 20 rooms were placed, and stops early only on reaching 20 |
| Builder.MapBuilder.BuildRandomRooms | src/map_builder/mod.rs:54-91 | the rooms are exactly those the candidates drawn at four draws each admit in order (`Carving.RoomsAfter`), every candidate being drawn while fewer than 20 rooms were placed; placed rooms are only appended, at most one per candidate; every new room is a generated room that intersects no earlier room, so pairwise disjointness is kept; starting from at most 20 rooms it stops at 20 unless the candidate bound runs out; the tiles are the old tiles with the new rooms stamped |
| Builder.MapBuilder.ApplyVerticalTunnel | src/map_builder/mod.rs:93-107 | the tiles become the old tiles with every in-bounds cell of the inclusive column segment set to Floor and nothing else changed |
| Builder.MapBuilder.ApplyHorizontalTunnel | src/map_builder/mod.rs:111-118 | the same for the inclusive row segment |
| Builder.MapBuilder.DigCorridor | src/map_builder/mod.rs:142-153 | one corridor produces the tiles of its L-shaped walk, with the leg order chosen by the coin |
| Builder.MapBuilder.DigCorridors | src/map_builder/mod.rs:138-154 | the loop takes one draw per room after the first and produces the corridor pass over the sorted rooms |
| Builder.MapBuilder.BuildCorridors | src/map_builder/mod.rs:120-155 | the room list is left unchanged; the tiles are the corridor pass over the rooms sorted by centre x |
| Builder.MapBuilder.FindMostDistant | src/map_builder/mod.rs:157-175 | in the field seeded at the player's start, the result is on the map and reachable; its distance is greatest among reachable tiles, and it is the last such tile |
| Builder.MapBuilder.SpawnMonsters | src/map_builder/mod.rs:177-207 | with at least 50 admissible tiles, the spawns are exactly the picks `Placement.Picks` makes from the admissible tiles with one draw each; so they are 50 distinct points, every one a Floor tile on the map farther than 10 from the start |
| Builder.MapBuilder.PlaceEntities | src/map_builder/automata.rs:99-102 | the spawns are the picks from the tiles admissible around the start, 50 distinct ones, with 50 draws; the player is put on the start; the amulet goes to the farthest tile from it |
| Automata.RandomNoiseMap | src/map_builder/automata.rs:7-20 | one draw per tile, in order; a tile is Floor exactly when its roll from [0, 100) exceeds 55 |
| Automata.WallNeighbors | src/map_builder/automata.rs:22-34 | the neighbour count is at most 8 |
| Automata.CentreIgnored | src/map_builder/automata.rs:27-28 | the count does not depend on the centre tile |
| Automata.AllWallsCount | src/map_builder/automata.rs:24-32 | a block of nine Walls counts exactly 8, so the bound is reached and only the centre is skipped |
| Automata.CountNeighbors | src/map_builder/automata.rs:22-34 | the nested loops return the neighbour count, at most 8 |
| Automata.InteriorBlockInside | src/map_builder/automata.rs:38-40 | at every cell the loops visit, all nine reads are on the map |
| Automata.SmoothedAt | src/map_builder/automata.rs:40-46 | a smoothed interior tile follows the rule applied to the count on the pre-pass tiles |
| Automata.Iteration | src/map_builder/automata.rs:36-50 | one pass, written into a copy, produces the smoothed tiles of the pre-pass map |
| Automata.SmoothedCells | src/map_builder/automata.rs:36-50 | an interior tile becomes Wall exactly when its old count is above 4 or 0; every border tile is unchanged |
| Automata.SmoothNKeepsBorder | src/map_builder/automata.rs:95-98 | after any number of passes every border tile equals its noise value |
| Automata.Smooth | src/map_builder/automata.rs:96-98 | the loop applies exactly ten passes |
| Automata.OpenBorderPossible | src/map_builder/automata.rs:95-98 | for a stream of high rolls the corner tile ends as Floor, so no Wall border is guaranteed |
| Automata.NearestFloorIn | src/map_builder/automata.rs:56-81 | None exactly when no tile is Floor; otherwise a Floor tile of least squared distance to (40, 25), strictly nearer than every earlier Floor tile, so ties resolve to the first |
| Automata.FindStart | src/map_builder/automata.rs:52-83 | with some Floor tile, a Floor point on the map nearest the centre, the lowest index on ties |
| Automata.CaveBuilder | src/map_builder/automata.rs:87-98 | a fresh builder with no rooms whose map is the noise of the next 4000 draws after ten smoothing passes, and exactly those draws are consumed |
| Automata.Build | src/map_builder/automata.rs:87-104 | the level is the smoothed noise; the player starts on `find_start` of it; the spawns are the 50 distinct picks around that start made by the 50 draws after the noise; the amulet is on the farthest tile; 4050 draws are consumed |
| Drunkard.WalkFrom | src/map_builder/drunkard.rs:21-43 | the digger's positions start at the start point, are all on the map and number at most 401 |
| Drunkard.WalkSteps | src/map_builder/drunkard.rs:27-32 | consecutive digger positions differ by exactly one orthogonal unit |
| Drunkard.DigEffect | src/map_builder/drunkard.rs:22-23 | after a walk a tile is Floor if the digger stood on it and is unchanged otherwise |
| Drunkard.DrunkardWalk | src/map_builder/drunkard.rs:12-44 | the loop consumes one draw per position and produces the tiles dug along the walk |
| Drunkard.FloorCountMonotone | src/map_builder/drunkard.rs:62-63 | turning tiles into Floor never lowers the Floor count |
| Drunkard.DigNeverLowersFloor | src/map_builder/drunkard.rs:22-23 | a walk never lowers the Floor count |
| Drunkard.PruneNeverAddsFloor | src/map_builder/drunkard.rs:80-89 | pruning never creates Floor and never raises the Floor count |
| Drunkard.Prune | src/map_builder/drunkard.rs:80-89 | exactly the tiles farther than 2000 become Wall; the others are unchanged |
| Drunkard.RandomStart | src/map_builder/drunkard.rs:66-69 | a later walk starts on the map |
| Drunkard.MoreWalks | src/map_builder/drunkard.rs:62-90 | the loop ends below the Floor target only after its whole round bound is spent |
| Drunkard.DigAndPrune | src/map_builder/drunkard.rs:65-89 | one round is a walk from a random start, then pruning against the field seeded at the centre |
| Drunkard.WalkUntilDug | src/map_builder/drunkard.rs:62-90 | the loop produces the rounds of the architect; stopping before the bound means a third of the tiles are Floor |
| Drunkard.RoundKeepsCentre | src/map_builder/drunkard.rs:65-89 | a round keeps a Floor centre Floor: the walk only adds Floor and the centre, at distance 0 from itself, is never pruned |
| Drunkard.MoreWalksKeepCentre | src/map_builder/drunkard.rs:62-90 | however many rounds the loop runs, a Floor centre stays Floor |
| Drunkard.FirstWalkDigsCentre | src/map_builder/drunkard.rs:57-61 | the first walk starts on the centre, so the centre is Floor after it |
| Drunkard.CentreIsFloor | src/map_builder/drunkard.rs:57-92 | the player's start, the centre, is Floor on the finished level |
| Drunkard.WalledBuilder | src/map_builder/drunkard.rs:49-57 | the builder literal followed by `fill(Wall)`: all Wall, no rooms |
| Drunkard.Excavate | src/map_builder/drunkard.rs:57-90 | from an all-Wall map: the first walk from the centre, then the loop; stopping before the bound means the Floor target is met |
| Drunkard.Build | src/map_builder/drunkard.rs:48-95 | the level is the excavated map; the player starts at (40, 25), which is a Floor tile; the spawns are the 50 distinct picks around it made by the draws after the architect's; the amulet is on the farthest tile |
| Components.KeyDelta | src/player.rs:26-32 | an arrow key gives a unit step in its own direction; any other key gives (0, 0), and only other keys do |
| Players.Moved | src/player.rs:25-37 | with no key the position stays; with a key it becomes position plus delta when that tile can be entered, and stays otherwise |
| Players.MovedAtMostOneStep | src/player.rs:34-37 | the player stays or moves one orthogonal step onto an in-bounds Floor tile |
| Players.Player.constructor | src/player.rs:8-12 | a player stands on the given point |
| Players.Player.Update | src/player.rs:24-39 | `update` sets the position to the moved position |
| EndTurn.Advance | src/systems/end_turn.rs:12-17 | PlayerTurn goes to MonsterTurn and only it does; MonsterTurn goes to AwaitingInput; every other state is kept |
| EndTurn.EndTurnSystem | src/systems/end_turn.rs:6-29 | AwaitingInput is kept even with a fallen player; from any other state, a player with Health below 1 forces GameOver, and otherwise the state advances |
| PlayerInput.FirstPlayer | src/systems/player_input.rs:34-37 | `find_map` yields the first actor with `Player` |
| PlayerInput.EnemyAttacksMeaning | src/systems/player_input.rs:42-57 | the attacks are from the player on enemies at the destination; every such enemy is attacked; there are none exactly when no enemy stands there |
| PlayerInput.PlayerInputSystem | src/systems/player_input.rs:24-79 | with no key nothing is issued and the state is kept; a key sets PlayerTurn; a zero step issues nothing; a non-zero step attacks every enemy at the destination, or else issues one move there; the healing write never happens |
| Combat.Hits | src/systems/combat.rs:18-27 | the hit count is zero exactly when no message targets the actor |
| Combat.Strike | src/systems/combat.rs:20-33 | handling one more message keeps the combat invariant |
| Combat.CombatSystem | src/systems/combat.rs:11-35 | a victim with Health loses one point per message and keeps its maximum; other actors are untouched; an actor is removed exactly when it has Health, was hit, and ends below 1; every message is removed; nothing else is queued |
| RandomMoves.PlayerAttacksMeaning | src/systems/random_moves.rs:28-44 | the attacks are from the mover on players with Health at the destination, and every such player is attacked |
| RandomMoves.MoverCommandsMeaning | src/systems/random_moves.rs:28-49 | the mover moves to its destination exactly when no actor with Health stands there; it attacks exactly the players with Health there; it issues no removal |
| RandomMoves.MoverDecision | src/systems/random_moves.rs:28-49 | the `attacked`-flag loop issues exactly the mover's commands |
| RandomMoves.RandomMovesSound | src/systems/random_moves.rs:14-52 | whatever the draws, only movers issue commands; a move is one orthogonal step to an unoccupied tile; an attack targets a player with Health one step away; nothing is removed |
| RandomMoves.RandomMoveSystem | src/systems/random_moves.rs:8-53 | the system consumes one draw per mover and issues the movers' commands in order |

## Left out

- `src/main.rs` is not part of this model: the game loop, console, schedules and state dispatch are I/O and glue. Its turn dispatch has no `GameOver` arm.
- The rendering systems are UI and are not modelled: `map_render.rs`, `entity_render.rs`, `tooltips.rs` and `hud.rs`.
- `src/systems/movement.rs` is not modelled. Its only rule is `can_enter_tile`, which `Maps.CanEnterTile` covers; the rest is command-buffer and camera glue.
- `src/systems/mod.rs` is scheduler wiring and is not modelled.
- `src/systems/use_items.rs` has an empty body.
- `src/spawner.rs` and `src/spawner/template.rs` are not modelled. They push entities into the ECS world and declare data.
- `src/components.rs` and `src/turn_state.rs` are not part of this model; `Components` gives the shapes the systems use.
- `MapBuilder::new` is left out, with its strategy dispatch, `apply_prefab` and the themes: the `prefab`, `rooms` and `themes` modules are not part of this model. The `theme` field is left out too; the architects' literals omit it.
- `src/map_builder.rs` and `src/map_builder/mod.rs` both declare `MapBuilder`. Their `fill` and `build_random_rooms` are the same code, so both are modelled once, by `Builder.MapBuilder`.
- The Dijkstra flood fill is not modelled. `Placement.IsDistanceField` only requires one value per tile and 0 at the seed; `f32::MAX` is the unreachable mark. Its search depth of 1024 and its actual distances are not modelled.
- Builder.MapBuilder.FindMostDistant: distances are reals, so a NaN that would make `partial_cmp(..).unwrap()` panic is not modelled.
- Placement.SpawnableIn: the `Pythagoras` distance test `> 10.0` is the integer test `dx² + dy² > 100`, which is equivalent because the square root is monotone. The same holds for Automata.NearestFloorIn, where `min_by` on distance becomes `min_by` on squared distance.
- Builder.MapBuilder.BuildRandomRooms: the source loops until 20 rooms are placed, which ends only with probability 1. The model draws at most `fuel` candidates. It promises 20 rooms only when it stops before the bound.
- Drunkard.WalkUntilDug: the source's `while` loop ends only with probability 1. The model runs at most `fuel` rounds and promises the Floor target only when it stops before the bound. The same bound is carried by Drunkard.MoreWalks, Drunkard.Excavate and Drunkard.Build.
- RandomMoves.RandomMoveSystem: the source seeds a fresh generator for each mover. The model takes each mover's roll as the next draw of one stream, so the draws are inputs rather than system entropy.
- Random.Rng.Range: bracket-lib's generator algorithm is not modelled; a draw is any value of the input stream.
- Combat.CombatSystem: `current` is an `i32`, and its wrap-around below `i32::MIN` is not modelled. Health values are unbounded integers.
- PlayerInput.PlayerInputSystem: the healing branch is kept only as the value `PlayerInput.Healed`, which is proved never to apply. Its `i32::min` and `entry_mut(..).unwrap()` are not modelled.
- Entity handles are modelled as indices into a sequence of actors. Legion queries visit actors in index order, and every actor has a `Point`. Entities outside the queried archetypes are not modelled.
- The command buffer is the output sequence of commands. Its deferred application to the world, and the message removals' effect on the world, are not modelled.
- Automata.CountNeighbors requires only that all nine row-major indices of the 3 × 3 block lie in [0, 4000); the source's indexing would panic on any other. At x = 0 or x = 79 such a block wraps into the next or previous row, exactly as `map_idx` does in the source. `iteration` calls it only on interior cells, where nothing wraps.
- Automata.FindStart and Automata.Build require some Floor tile. On a map with none, the source's `min_by(..).unwrap()` panics; the model excludes that case instead of modelling the panic.
- Builder.MapBuilder.SpawnMonsters and Builder.MapBuilder.PlaceEntities require at least 50 admissible tiles. With fewer, `random_slice_index(..)` yields None and its `unwrap()` panics; the model excludes that case instead of modelling the panic. Automata.Build carries the same requirement on the smoothed level.
- Drunkard.Build requires at least 50 admissible tiles around the centre on the level the architect digs, for the same `unwrap()` panic.
- Carving.SortByCenterX: `sort_by` is stable, so rooms with equal centre x keep their order. The model proves a sorted permutation but does not state stability.
- Random.Rng.RandomSliceIndex: that a non-empty slice takes exactly one draw, mapped like `range(0, len)`, is an assumption about bracket-lib, whose source is not part of this model.
- The `println!` calls in `combat` are output and are not modelled.
