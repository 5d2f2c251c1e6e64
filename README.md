# ucs game core, modelled in Dafny

This project models the engine core of the `ucs` top-down game and the game
entities built on it:

- actors and the scene that ticks them, collecting the actions they return;
- the action classes an actor can hand to the game;
- the tile map's grid queries;
- the four component systems: tile-to-tile walking, square colliders,
  velocity movement and sprites;
- the humanoid component: a body sprite plus two hands that wield items;
- the player, pickup and NPC entities;
- the stage-grouped dispatch of draw commands in `gfx_frame`.

Each module-level component list of the source (`_colliders`,
`_walk_components`, `_movement_components`, `_sprite_components`) becomes a
`Registry` object. A component joins its registry in its constructor and
leaves it in `destroy`. When Python's `list.remove` would raise, the model
returns `ok == false` from that method. A chain of `destroy` calls stops at
the first one that raises, and `Registries.Deregistered` models that chain.

Callbacks whose code is not part of the core become inputs of the methods
that call them:

- an actor's own `tick`;
- a sub-action's reply;
- the key poller;
- a factory;
- the UI prompt flag;
- an action's `finished` flag;
- the NPC behaviour.

Objects the source updates in place are classes with `modifies` clauses:
actors, scenes, components, the render context and the actions. The
pure computations are functions, and lemmas prove their properties.

Modules, one per source file: `Foundation` (foundation.py), `Actions`
(game/actions.py), `TileMaps` (tilemap.py), `Walk`, `Collision`, `Movement`,
`Sprites` (components/), `Humanoids` (game/components/humanoid.py),
`Players`, `Pickups`, `Npcs` (game/entities/) and `Gfx` (gfx.py). Two
modules are shared helpers: `Lists` (sequence helpers) and `Registries`
(the component lists).

## Model

| member | source | states |
|---|---|---|
| Foundation.Actor.constructor | src/ucs/foundation.py:41-45 | a new actor stands at (x, y), is ACTIVE and belongs to no scene |
| Foundation.Scene.constructor | src/ucs/foundation.py:64-67 | the scene holds the given actors in order and every one of them points back at it |
| Foundation.Scene.Create | src/ucs/foundation.py:64-65 | the default argument `None` raises (`list(None)`); a list builds the scene |
| Foundation.Scene.Append | src/ucs/foundation.py:84-86 | the actor is added at the end and points at the scene |
| Foundation.Scene.Extend | src/ucs/foundation.py:88-91 | the actors are added at the end in order and all point at the scene |
| Foundation.Scene.Tick | src/ucs/foundation.py:69-82 | every member is ticked in order; the non-None actions come back in that order; exactly the members left INACTIVE are removed, get `destroy` called in visiting order and lose their scene; the rest keep their order and scene |
| Foundation.Scene.Visit | src/ucs/foundation.py:70-77 | the ticking loop collects the returned actions and marks the INACTIVE actors in order |
| Foundation.Scene.Detach | src/ucs/foundation.py:79-82 | the removal loop drops exactly the marked actors, keeps the others in order and clears the scene of each removed one |
| Foundation.YieldedSpec | src/ucs/foundation.py:71-74 | every action an actor returned is yielded, and nothing else is |
| Foundation.DeactivatedSpec | src/ucs/foundation.py:76-77 | an actor is marked for removal exactly when its own tick left it INACTIVE |
| Foundation.RemovedExactlyDeactivated | src/ucs/foundation.py:76-80 | on a scene without repeated members, a member survives the pass iff its tick did not leave it INACTIVE, and the scene still has no repeats |
| Foundation.Event.constructor | src/ucs/foundation.py:114-116 | a new event has no subscribers |
| Foundation.Event.Subscribe | src/ucs/foundation.py:118-120 | `+=` appends the listener at the end, duplicates allowed |
| Foundation.Event.Unsubscribe | src/ucs/foundation.py:122-124 | `-=` drops the first equal listener; it raises iff the listener is absent |
| Foundation.Event.Invoke | src/ucs/foundation.py:126-128 | calling the event calls every subscriber once, in order, with the same arguments |
| Registries.Registry.Add | src/ucs/components/sprite.py:17 | registering appends the fresh component; the list has no repeats |
| Registries.Registry.Remove | src/ucs/components/sprite.py:20 | removal drops the component; it raises iff the component is not registered |
| Registries.DeregisteredSpec | src/ucs/game/components/humanoid.py:30-37 | a chain of destroys of distinct components succeeds iff all of them are registered, and then removes exactly them and keeps the rest in order |
| Actions.FuncAction.Call | src/ucs/game/actions.py:19-20 | the call returns the stored callable itself, which is truthy but is not `True` |
| Actions.WieldItemAction.Call | src/ucs/game/actions.py:30-33 | the item goes into the left hand if free, else the right hand, each with a fresh sprite of the item's image at (0, 3) or (10, 3) appended to the sprite registry; with both hands full nothing changes; the name is appended to the pickups; the call returns `True` |
| Actions.Done | src/ucs/game/actions.py:43-46 | counts the leading sub-actions that reply truthy: all before it are truthy and the one at it is not |
| Actions.DoneTruthy | src/ucs/game/actions.py:44-46 | a truthy reply right after a truthy prefix extends the run of finished sub-actions |
| Actions.SequenceAction.Call | src/ucs/game/actions.py:42-46 | calls and pops the finished head actions; a falsy head stops the call with `False` and stays queued; an exhausted queue returns `None`, so the call never returns `True` |
| Actions.IntendedSequenceResult | src/ucs/game/actions.py:42-46 | the intended result is finished iff every queued sub-action replied truthy, including the empty queue |
| Actions.ShowMessageAction.Call | src/ucs/game/actions.py:54-61 | the first call shows the message and returns `False`; later calls show nothing and finish iff the UI no longer prompts |
| Actions.SpawnActorsAction.Call | src/ucs/game/actions.py:70-72 | the factory's actors are appended to the scene, which they point at; the call finishes |
| Actions.DestroyActorsAction.Call | src/ucs/game/actions.py:80-83 | every listed actor becomes INACTIVE; the call finishes |
| TileMaps.TileMap.constructor | src/ucs/tilemap.py:20-41 | the origin is (0, 0), the walk matrix has one cell per tile and no cell is occupied |
| TileMaps.TileMap.Index | src/ucs/tilemap.py:81 | the row-major index of an in-bounds cell lies inside the grid |
| TileMaps.TileMap.PixelsToCoords | src/ucs/tilemap.py:74-77 | the pixel lies inside the returned tile, by floor division from the origin |
| TileMaps.TileMap.IsWalkableAt | src/ucs/tilemap.py:79-83 | a cell outside the grid is never walkable; inside, it is walkable iff the matrix allows it and nobody occupies it |
| TileMaps.TileMap.GetOccupantAt | src/ucs/tilemap.py:89-92 | None outside the grid, the occupant of the cell inside it |
| TileMaps.TileMap.SetOccupantAt | src/ucs/tilemap.py:85-87 | writes exactly the one in-bounds cell, ignores out-of-bounds writes, and an occupied cell is no longer walkable |
| TileMaps.TileMap.GetNearestOccupants | src/ucs/tilemap.py:94-99 | the occupants of the west, east, north and south neighbours, in that order, each once, empty tiles skipped (`Present` keeps order and multiplicity: `PresentAppend`, `PresentCount`) |
| TileMaps.Neighbours | src/ucs/tilemap.py:95 | the four neighbours in the order west, east, north, south |
| TileMaps.TileToPixelsRoundTrip | src/ucs/components/walk.py:62-64 | the pixel of a tile converts back to that tile |
| TileMaps.TileToPixelsInjective | src/ucs/components/walk.py:62-64 | distinct tiles have distinct pixels |
| Walk.WalkComponent.constructor | src/ucs/components/walk.py:22-28 | a walker registers, stands still (`STOP`) and has no destination |
| Walk.WalkComponent.Destroy | src/ucs/components/walk.py:30-31 | the walker leaves its registry; it raises iff it was not registered |
| Walk.Shift | src/ucs/components/walk.py:90-99 | NORTH and SOUTH change the row by one, WEST and EAST the column by one, STOP nothing |
| Walk.AdjacentTile | src/ucs/components/walk.py:89-105 | the shifted tile clamped to [0, width] x [0, height], including the upper bounds |
| Walk.Advance | src/ucs/components/walk.py:62-76 | each axis moves toward the destination by at most the energy left, and the energy spent is the distance moved |
| Walk.NextDestination | src/ucs/components/walk.py:78-86 | on arrival: STOP or no energy ends the walk; otherwise the next destination is the adjacent tile in the walking direction exactly when that tile is walkable and differs from the tile reached, and there is none otherwise |
| Walk.Step | src/ucs/components/walk.py:60-86 | one loop iteration moves as `Advance` does, keeps the destination until it is reached, and on arrival takes `NextDestination` of the tile reached with the energy left |
| Walk.StepDecreases | src/ucs/components/walk.py:60 | each iteration spends energy or ends the walk, so the loop terminates |
| Walk.Run | src/ucs/components/walk.py:60-86 | the loop ends with no destination or no energy |
| Walk.RunSpends | src/ucs/components/walk.py:59-76 | the energy never grows, and the pixels moved, summed over both axes, never exceed the energy spent |
| Walk.RunOverspendBound | src/ucs/components/walk.py:59-76 | since `dx` and `dy` are each capped at the energy separately, a frame ends with energy no lower than minus the speed and moves at most twice the speed |
| Walk.OffGridOverspend | src/ucs/components/walk.py:47-76 | a walker at pixel (0, 8) on 16-pixel tiles, walking EAST at speed 1, moves two pixels in one frame and ends with energy -1 |
| Walk.InitialDestination | src/ucs/components/walk.py:47-57 | a walker with a destination or direction STOP keeps its destination; one with no destination and a direction gets the adjacent tile exactly when it is walkable and differs from its current tile, and stays without one otherwise |
| Walk.StandingStill | src/ucs/components/walk.py:47-60 | a walker with no destination and direction STOP does not move |
| Walk.WalkUpdate | src/ucs/components/walk.py:42-86 | every walker of an ACTIVE actor gets a destination chosen and then walks; walkers of INACTIVE actors do not change |
| Walk.AsWrittenWestEdgeLoops | src/ucs/components/walk.py:78-86 | as written, a walker on its destination in column 0 that still walks west gets the same tile back without moving or spending energy |
| Walk.CorrectedWestEdgeStops | src/ucs/components/walk.py:78-86 | with the corrected rule the same walker stops |
| Collision.CollisionComponent.constructor | src/ucs/components/collision.py:10-14 | a collider registers with its size and no collision |
| Collision.CollisionComponent.Destroy | src/ucs/components/collision.py:16-17 | the collider leaves its registry; it raises iff it was not registered |
| Collision.OverlapsSymmetric | src/ucs/components/collision.py:45 | the strict overlap test of two squares is symmetric |
| Collision.LastPartnerSpec | src/ucs/components/collision.py:34-47 | the partner found overlaps, no higher-index collider overlaps, and none is found iff no other collider overlaps |
| Collision.HeldAfterClosed | src/ucs/components/collision.py:34-47 | replaying the rounds, in which both colliders of a pair are written, agrees with a closed form |
| Collision.AllRounds | src/ucs/components/collision.py:34-47 | after all rounds each collider holds its highest-index overlapping partner |
| Collision.NoPartnerNoActor | src/ucs/components/collision.py:28-47 | a collision stays None iff no other collider overlaps |
| Collision.ColliderSystemUpdate | src/ucs/components/collision.py:28-47 | after the reset and all pairs, each collider holds the actor of its highest-index overlapping partner, and None iff there is none |
| Collision.ResetCollisions | src/ucs/components/collision.py:30-31 | the reset loop clears every collision |
| Movement.MovementComponent.constructor | src/ucs/components/movement.py:12-17 | a component registers at rest with its rectangle |
| Movement.MovementComponent.Destroy | src/ucs/components/movement.py:19-20 | the component leaves its registry; it raises iff it was not registered |
| Movement.Corners | src/ucs/components/movement.py:33-41 | the four probe points are exactly the corners of the rectangle at the new position |
| Movement.Moved | src/ucs/components/movement.py:42-45 | the actor moves by its velocity iff every probe corner there is walkable, else stays |
| Movement.MovedKeepsWalkable | src/ucs/components/movement.py:31-45 | an actor whose probe corners are all walkable never moves onto a blocked one |
| Movement.MovementSystemUpdate | src/ucs/components/movement.py:31-45 | every registered component's actor ends where `Moved` puts it |
| Sprites.SpriteComponent.constructor | src/ucs/components/sprite.py:13-17 | a sprite registers with its frame and offset |
| Sprites.SpriteComponent.Destroy | src/ucs/components/sprite.py:19-20 | the sprite leaves its registry; it raises iff it was not registered |
| Sprites.CommandFor | src/ucs/components/sprite.py:36-38 | a sprite draws a masked texture command of order 1e6 |
| Sprites.SpriteCommandsSpec | src/ucs/components/sprite.py:32-38 | one command per sprite of a non-INACTIVE actor, in registry order |
| Sprites.ShownSprites | src/ucs/components/sprite.py:33-35 | a sprite gets a command iff it is registered and its actor is not INACTIVE |
| Sprites.SpriteUpdate | src/ucs/components/sprite.py:32-38 | the update appends exactly those commands after what the context already holds |
| Humanoids.HumanoidComponent.Sprites | src/ucs/game/components/humanoid.py:30-37 | the sprites in deregistration order end with the body |
| Humanoids.HumanoidComponent.constructor | src/ucs/game/components/humanoid.py:8-13 | the body sprite registers, centred by half its frame's size; both hands are empty |
| Humanoids.HumanoidComponent.WieldItem | src/ucs/game/components/humanoid.py:15-28 | the item goes into the left hand if free, else the right, each with a new sprite at (0, 3) or (10, 3); with both hands full nothing changes and the result is false |
| Humanoids.HumanoidComponent.Destroy | src/ucs/game/components/humanoid.py:30-37 | left hand, right hand and body sprites leave the registry in that order, stopping at the first that raises |
| Humanoids.DestroyRemovesOwned | src/ucs/game/components/humanoid.py:30-37 | with all its sprites registered, destroy succeeds and removes exactly them |
| Humanoids.SpritesDistinct | src/ucs/game/components/humanoid.py:11-23 | a humanoid's sprites are distinct and share its actor and registry |
| Players.PyIndex | src/ucs/game/entities/player.py:35 | Python list indexing: negative indices count from the end, and an index outside [-n, n) raises |
| Players.ChosenDirection | src/ucs/game/entities/player.py:36-45 | the first pressed of up, down, left, right selects the direction; none pressed means STOP |
| Players.Player.constructor | src/ucs/game/entities/player.py:15-21 | a player gets a humanoid, a collider of size 16, a walker of speed 1 and no attack |
| Players.Player.HandleInput | src/ucs/game/entities/player.py:34-48 | the walker's direction follows the keys; the attack is restarted when primary is released with a weapon and otherwise kept; a gamepad outside the map raises |
| Players.Player.Tick | src/ucs/game/entities/player.py:23-27 | the tick handles input as `HandleInput` does: the direction follows the keys, the attack is restarted from the right hand when primary is released with a weapon and otherwise kept; it returns the current attack, and once started an attack is never dropped |
| Players.Player.Destroy | src/ucs/game/entities/player.py:29-32 | humanoid sprites, then collider, then walker leave their registries, stopping at the first that raises |
| Pickups.PlayerOf | src/ucs/game/entities/pickup.py:19-21 | finds the player whose actor is the collided actor, or reports that none is |
| Pickups.Pickup.constructor | src/ucs/game/entities/pickup.py:12-16 | a pickup gets a collider of size 16 and a sprite showing its item |
| Pickups.Pickup.TickAsWritten | src/ucs/game/entities/pickup.py:18-24 | as written, touching a player makes the pickup INACTIVE and then raises, so no action is returned |
| Pickups.Pickup.Tick | src/ucs/game/entities/pickup.py:18-24 | touching a player makes the pickup INACTIVE and returns an action wielding the item in that player's humanoid; otherwise nothing changes |
| Pickups.Pickup.Destroy | src/ucs/game/entities/pickup.py:26-28 | the collider and then the sprite leave their registries, stopping at the first that raises |
| Npcs.NPC.constructor | src/ucs/game/entities/npc.py:22-28 | an NPC gets a humanoid, a sight area of size 20, no seen actors and no action |
| Npcs.NPC.Tick | src/ucs/game/entities/npc.py:30-45 | while the action is unfinished nothing happens; otherwise a newly seen actor is remembered and `on_sight` is asked, and `on_idle` is asked iff no action resulted; the result is the new current action |
| Npcs.NPC.Destroy | src/ucs/game/entities/npc.py:47-49 | humanoid sprites, then the sight area, leave their registries, stopping at the first that raises |
| Npcs.SeeStep | src/ucs/game/entities/npc.py:36-39 | a tick adds an actor to the seen list iff one is in sight and it is new |
| Npcs.SeenAfterSpec | src/ucs/game/entities/npc.py:36-40 | over any run of ticks the seen list only grows, never repeats, and holds exactly the actors ever seen, so `on_sight` is asked about each actor at most once |
| Gfx.DrawCommand.Stage | src/ucs/gfx.py:132-173 | outline and texture commands are DEFAULT, masked texture commands MASKED |
| Gfx.RenderContext.Append | src/ucs/gfx.py:181-183 | the command is added at the end of the context |
| Gfx.SortSorted | src/ucs/gfx.py:221 | sorting by (stage, order) yields a sorted permutation of the commands |
| Gfx.SortStable | src/ucs/gfx.py:221 | commands with equal keys keep their insertion order |
| Gfx.InsertPerm | src/ucs/gfx.py:221 | each insertion step of the sort adds exactly one command |
| Gfx.FrameIsGrouped | src/ucs/gfx.py:219-231 | on stage-sorted commands, the frame enters each used stage once in increasing order, draws its commands in order and exits it |
| Gfx.FrameDrawsAll | src/ucs/gfx.py:219-231 | every command is drawn exactly once, in the order given |
| Gfx.FrameBalanced | src/ucs/gfx.py:219-231 | enters and exits alternate, each exit closing the stage just entered |
| Gfx.EmptyFrame | src/ucs/gfx.py:219-231 | an empty frame enters and exits no stage |
| Gfx.SortedFrame | src/ucs/gfx.py:219-231 | the dispatched frame draws all sorted commands and is balanced |
| Gfx.Frame | src/ucs/gfx.py:208-233 | the dispatch of a filled context is the frame of its sorted commands |
| Gfx.Dispatch | src/ucs/gfx.py:219-231 | the dispatch loop produces exactly that frame's event trace |

## Left out

- Rendering itself is not modelled: raylib calls, textures, shaders, the
  camera, `begin_drawing` and `end_drawing`. The stage `enter`, `exit` and
  `draw` calls are recorded as a trace of events.
- Tiled map parsing, the entry point and the map's own draw commands are
  not modelled. The `TileMap` constructor takes the grid size, the tile
  size and the walk matrix directly.
- anim.py, ui.py, the items, the tutorial, the game state and
  `__main__.py` are not part of this model. `MeleeAttackAction` keeps only
  its weapon argument, not its animation.
- Player.Tick: the write of the camera target (`get_camera().target`) is
  dropped.
- Humanoids.HumanoidComponent.WieldItem: the `print` when no hand is free is
  dropped.
- Foundation.Scene.Tick: `Scene.tick` is a generator. The model is one pass
  run to completion. Actors added or removed while the pass runs, and a pass
  abandoned part way, are not modelled. Each actor's `tick` and `destroy`
  are inputs: a `TickOutcome` per actor and the list of destroyed actors.
- Foundation.Scene.Extend: the argument is a sequence. A one-shot iterator,
  which `extend` would exhaust before setting `scene`, is not modelled.
- Walk.WalkUpdate, Movement.MovementSystemUpdate: both require the
  registered components to belong to distinct actors. Two components moving
  one actor are not modelled.
- Walk.WalkUpdate: uses the corrected arrival rule, `Walk.Step`. The
  source's loop can run forever (see Findings), and a loop with no end
  cannot be a terminating Dafny method.
- Movement.MovementSystemUpdate: the source calls `is_walkable_at(point)`
  with one tuple argument, which does not match the two-parameter
  `TileMap.is_walkable_at`. The model takes the walkability test of a point
  as an input predicate.
- Players.Player.HandleInput: `HumanoidComponent` defines no `has_weapon`,
  so the weapon check is an input (`hasWeapon`).
- Players.Player.HandleInput: input.py defines no `is_key_released`, and its
  `Key` has no Q, E, J or K, which game/config.py uses. The pressed and
  released tests are input predicates over a `Key` type that has every key
  config.py uses.
- Players.Player.HandleInput: as written, the attack branch raises
  `AttributeError`. `right_hand` is `None` or a (sprite, item) tuple
  (src/ucs/game/components/humanoid.py:12, 21-23), and `MeleeAttackAction`
  reads `weapon.offset` (src/ucs/game/actions.py:88-89), which neither has.
  The model takes the intended reading: the attack is set and records the
  right hand it was built from.
- Foundation.Event.Invoke: the source loops over the live `subscribers`
  list, so a listener that adds or removes listeners during the call
  changes which later listeners run. The model calls the list as it was
  when the event fired; listeners are opaque and cannot change it.
- Foundation.Scene.Tick: requires the scene's actors to be distinct. The
  constructor, `Append` and `Extend` do not enforce that, as in the source.
  An actor listed twice, which the source would tick twice and try to
  remove twice, is not modelled.
- Npcs.NPC.Tick: the behaviour is called as `on_sight(seen)` and `on_idle()`.
  These are inputs: a function from actors to optional actions, and an
  optional action.
- Npcs.NPC.Tick: as written, `tick` reads `current_action.finished`
  (src/ucs/game/entities/npc.py:31), but no action class defines
  `finished`: neither `Action` (src/ucs/foundation.py:12-25) nor any class
  in src/ucs/game/actions.py. The tutorial's behaviour returns a
  `SequenceAction` (src/ucs/game/tutorial.py:28-31). So the tick after an NPC has obtained an
  action raises `AttributeError`. The model takes the flag as an input
  (`finished`) and does not model that raise.
- Walk.RunSpends: the bound is on the energy spent, not on the speed. The
  energy can end below zero: an off-grid walker moving diagonally spends up
  to twice its speed in one frame (`Walk.OffGridOverspend`), and
  `Walk.RunOverspendBound` proves twice the speed is the limit.
- Sprites.CommandFor: the order `1e6` is a float in the source and the
  integer 1000000 here. Sprite offsets are `real`, because the humanoid
  body's offset uses true division.
- Actions.FuncAction.Call: the callable is an opaque handle (`nat`), and it
  is never called.
- The game state's `pickups` list is a `PickupLog` object. Only the appends
  done by this core are modelled.
- Registries: the source's module lists are reset by `*_init` functions.
  Here each registry is an object passed in; the init functions are its
  constructor.

The `Action.__call__` docstring (src/ucs/foundation.py:19-24) says an
action is finished when its call returns `True`. `SequenceAction.__call__`
(src/ucs/game/actions.py:42-46) falls off its end once the queue is empty
and returns `None`, so an exhausted sequence never reports that it has
finished. The model follows the code (`Actions.SequenceAction.Call`) and
states the behaviour the docstring implies separately
(`Actions.IntendedSequenceResult`); the second row of Findings records it.

## Findings

| source | as written | input that shows it | evidently intended | confidence | as-written member | corrected member |
|---|---|---|---|---|---|---|
| src/ucs/components/walk.py:78-86 | on arrival the next tile is taken as the destination whenever it is walkable, even when clamping made it the tile just reached | a walker standing on its destination (0, r), a walkable tile, with direction WEST and speed 1: each iteration moves 0 pixels, spends 0 energy and keeps (0, r), so `walk_update` never returns; the same holds at row 0 going NORTH | stop when the adjacent tile is the current one, as the initial choice at line 56 already checks | not executed | Walk.AsWrittenWestEdgeLoops | Walk.CorrectedWestEdgeStops |
| src/ucs/game/actions.py:42-46 | an exhausted queue falls off the end and returns `None` | `SequenceAction([])()` returns `None`, and so does a queue whose actions all return `True`; a caller waiting for `True` keeps calling it forever | return `True` once every sub-action has finished | not executed | Actions.SequenceAction.Call | Actions.IntendedSequenceResult |
| src/ucs/game/entities/pickup.py:22 | `WieldItemAction(target.humanoid, self.item)` passes two arguments, but the dataclass has three required fields | a pickup touching a player: it becomes INACTIVE, then the call raises `TypeError`, so the item is never wielded | pass the item's name as the third argument | not executed | Pickups.Pickup.TickAsWritten | Pickups.Pickup.Tick |
