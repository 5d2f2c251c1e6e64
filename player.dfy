/** The player actor: a humanoid body, a collider and a walker steered by
    the keys of its controller layout. */
module Players {
  import opened Lists
  import opened Foundation
  import opened Registries
  import opened Sprites
  import opened Humanoids
  import opened Collision
  import opened Walk

  /** The keys used by the controller layouts. */
  datatype Key = W | S | A | D | Q | E | Up | Down | Left | Right | J | K

  /** A controller layout: up, down, left, right, primary, secondary. */
  datatype Controls = Controls(up: Key, down: Key, left: Key, right: Key, primary: Key, secondary: Key)

  /** `PLAYER_CONTROLS_MAP`: player 0 uses W, S, A, D, Q, E; player 1 the
      arrow keys, J and K. */
  const ControlsMap: seq<Controls> := [Controls(W, S, A, D, Q, E), Controls(Up, Down, Left, Right, J, K)]

  /** Python's `xs[i]` on a list of length `n`: a negative index counts from
      the end, and an index outside [-n, n) raises. */
  function PyIndex(n: nat, i: int): (r: Option<nat>)
    ensures r.Some? <==> 0 <= n + i && i < n
    ensures r.Some? ==> r.value < n && (r.value == i || r.value == n + i)
  {
    if 0 <= i < n then Some(i) else if 0 <= n + i && i < 0 then Some(n + i) else None
  }

  /** The walking direction the keys select: the first pressed of up, down,
      left, right, in that order of priority; none pressed means `STOP`. */
  function ChosenDirection(c: Controls, pressed: Key -> bool): (d: WalkDirection)
    ensures d == North <==> pressed(c.up)
    ensures d == South <==> !pressed(c.up) && pressed(c.down)
    ensures d == West <==> !pressed(c.up) && !pressed(c.down) && pressed(c.left)
    ensures d == East <==> !pressed(c.up) && !pressed(c.down) && !pressed(c.left) && pressed(c.right)
    ensures d == Stop <==> !pressed(c.up) && !pressed(c.down) && !pressed(c.left) && !pressed(c.right)
  {
    if pressed(c.up) then North
    else if pressed(c.down) then South
    else if pressed(c.left) then West
    else if pressed(c.right) then East
    else Stop
  }

  /** `MeleeAttackAction(humanoid.right_hand)`: the attack the player
      starts, built from what its right hand holds.  Its animation is not
      modelled. */
  datatype MeleeAttackAction = MeleeAttackAction(weapon: Option<Hand>)

  class Player {
    /** The player as an actor of the scene. */
    const actor: Actor
    const gamepad: int
    const humanoid: HumanoidComponent
    const collider: CollisionComponent
    const walk: WalkComponent
    var attack: Option<MeleeAttackAction>

    /** Its components belong to its actor. */
    ghost predicate Valid()
      reads this, humanoid
    {
      humanoid.Valid() && humanoid.actor == actor && collider.actor == actor && walk.actor == actor
    }

    /** A new, ACTIVE player at `position`, with a humanoid body, a collider
        of size 16 and a walker of speed 1 that stands still; no attack. */
    constructor (position: Position, gamepad: int, bodyFrame: Rect,
                 sprites: Registry<SpriteComponent>, colliders: Registry<CollisionComponent>, walkers: Registry<WalkComponent>)
      requires sprites.Valid() && colliders.Valid() && walkers.Valid()
      modifies sprites, colliders, walkers
      ensures Valid() && sprites.Valid() && colliders.Valid() && walkers.Valid()
      ensures fresh(actor) && actor.Position() == position && actor.state == Active && actor.scene == null
      ensures this.gamepad == gamepad && attack.None?
      ensures fresh(humanoid) && fresh(humanoid.body) && humanoid.body.registry == sprites
      ensures humanoid.leftHand.None? && humanoid.rightHand.None? && humanoid.body.frame == Some(bodyFrame)
      ensures sprites.items == old(sprites.items) + [humanoid.body]
      ensures fresh(collider) && collider.size == 16 && collider.registry == colliders && collider.collision == null
      ensures colliders.items == old(colliders.items) + [collider]
      ensures fresh(walk) && walk.speed == 1 && walk.registry == walkers && walk.direction == Stop && walk.dst.None?
      ensures walkers.items == old(walkers.items) + [walk]
    {
      var a := new Actor(position.0, position.1);
      actor := a;
      this.gamepad := gamepad;
      humanoid := new HumanoidComponent(a, bodyFrame, sprites);
      collider := new CollisionComponent(a, 16, colliders);
      walk := new WalkComponent(a, 1, walkers);
      attack := None;
    }

    /** `_handle_input`: the walker's direction becomes the one the pressed
        keys select, and the attack is (re)started when the primary key is
        released while the humanoid has a weapon; otherwise the attack is
        left as it was, never cleared.  `pressed`, `released` and
        `hasWeapon` stand for the input poller and the humanoid's weapon
        check.  A gamepad outside the controls map makes the lookup raise
        (`ok` false) before anything changes. */
    method HandleInput(pressed: Key -> bool, released: Key -> bool, hasWeapon: bool) returns (ok: bool)
      modifies walk`direction, this`attack
      ensures ok <==> PyIndex(|ControlsMap|, gamepad).Some?
      ensures !ok ==> walk.direction == old(walk.direction) && attack == old(attack)
      ensures ok ==> var c := ControlsMap[PyIndex(|ControlsMap|, gamepad).value];
        walk.direction == ChosenDirection(c, pressed) &&
        attack == if released(c.primary) && hasWeapon then Some(MeleeAttackAction(humanoid.rightHand)) else old(attack)
    {
      var index := PyIndex(|ControlsMap|, gamepad);
      if index.None? {
        return false;
      }
      var Controls(up, down, left, right, primary, _) := ControlsMap[index.value];
      walk.direction := Stop;
      if pressed(up) {
        walk.direction := North;
      } else if pressed(down) {
        walk.direction := South;
      } else if pressed(left) {
        walk.direction := West;
      } else if pressed(right) {
        walk.direction := East;
      }
      if released(primary) && hasWeapon {
        attack := Some(MeleeAttackAction(humanoid.rightHand));
      }
      ok := true;
    }

    /** `tick`: handles the input and returns the current attack, if any.
        Once an attack has been started, every later tick returns one. */
    method Tick(pressed: Key -> bool, released: Key -> bool, hasWeapon: bool) returns (ok: bool, r: Option<MeleeAttackAction>)
      modifies walk`direction, this`attack
      ensures ok <==> PyIndex(|ControlsMap|, gamepad).Some?
      ensures ok ==> r == attack
      ensures !ok ==> r.None? && attack == old(attack)
      ensures old(attack).Some? ==> attack.Some?
      ensures ok ==> var c := ControlsMap[PyIndex(|ControlsMap|, gamepad).value];
        walk.direction == ChosenDirection(c, pressed) &&
        attack == if released(c.primary) && hasWeapon then Some(MeleeAttackAction(humanoid.rightHand)) else old(attack)
      ensures !ok ==> walk.direction == old(walk.direction)
    {
      ok := HandleInput(pressed, released, hasWeapon);
      r := if ok then attack else None;
    }

    /** `destroy`: deregisters the humanoid's sprites, then the collider,
        then the walker; the first deregistration that finds its entry
        missing raises (`ok` false) and the later ones do not happen. */
    method Destroy() returns (ok: bool)
      requires Valid() && humanoid.body.registry.Valid() && collider.registry.Valid() && walk.registry.Valid()
      modifies humanoid.body.registry, collider.registry, walk.registry
      ensures humanoid.body.registry.Valid() && collider.registry.Valid() && walk.registry.Valid()
      ensures var spritesOk := AllDeregistered(old(humanoid.body.registry.items), humanoid.Sprites());
        var colliderOk := spritesOk && collider in old(collider.registry.items);
        humanoid.body.registry.items == Deregistered(old(humanoid.body.registry.items), humanoid.Sprites()) &&
        collider.registry.items == (if spritesOk then RemoveFirst(old(collider.registry.items), collider) else old(collider.registry.items)) &&
        walk.registry.items == (if colliderOk then RemoveFirst(old(walk.registry.items), walk) else old(walk.registry.items)) &&
        (ok <==> colliderOk && walk in old(walk.registry.items))
    {
      ok := humanoid.Destroy();
      if !ok {
        return;
      }
      ok := collider.Destroy();
      if !ok {
        return;
      }
      ok := walk.Destroy();
    }
  }
}
