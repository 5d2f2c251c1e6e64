/** Velocity-driven movement: `MovementComponent`, its registry and
    `movement_system_update`, which moves an actor by its velocity unless a
    corner of its collision rectangle would land on a blocked point. */
module Movement {
  import opened Lists
  import opened Foundation
  import opened Registries

  class MovementComponent {
    const actor: Actor
    const registry: Registry<MovementComponent>
    var velX: int
    var velY: int
    /** The actor's collision rectangle, relative to its position. */
    var rect: Rect

    /** Registers a new movement component, at rest. */
    constructor (actor: Actor, rect: Rect, registry: Registry<MovementComponent>)
      requires registry.Valid()
      modifies registry
      ensures registry.Valid() && registry.items == old(registry.items) + [this]
      ensures this.actor == actor && this.registry == registry && this.rect == rect
      ensures velX == 0 && velY == 0
    {
      this.actor, this.registry, this.rect := actor, registry, rect;
      velX, velY := 0, 0;
      new;
      registry.Add(this);
    }

    /** `destroy`: `ok` is false when the component was not registered (the
        source raises). */
    method Destroy() returns (ok: bool)
      requires registry.Valid()
      modifies registry
      ensures registry.Valid()
      ensures ok <==> this in old(registry.items)
      ensures registry.items == RemoveFirst(old(registry.items), this)
    {
      ok := registry.Remove(this);
    }
  }

  /** The four probe points of `rect` placed at `(x, y)`: the corners
      (x0, y0), (x0, y1), (x1, y1), (x1, y0), where (x0, y0) is the rect's
      origin moved by the position and (x1, y1) lies `w`, `h` further. */
  function Corners(x: int, y: int, rect: Rect): (ps: seq<Position>)
    ensures |ps| == 4
    ensures forall p :: p in ps ==>
      (p.0 == x + rect.0 || p.0 == x + rect.0 + rect.2) && (p.1 == y + rect.1 || p.1 == y + rect.1 + rect.3)
    ensures forall cx, cy ::
      ((cx == x + rect.0 || cx == x + rect.0 + rect.2) && (cy == y + rect.1 || cy == y + rect.1 + rect.3)) ==> (cx, cy) in ps
  {
    var (rx, ry, w, h) := rect;
    var x0, y0 := rx + x, ry + y;
    var x1, y1 := x0 + w, y0 + h;
    [(x0, y0), (x0, y1), (x1, y1), (x1, y0)]
  }

  /** Some corner of `rect` at `(x, y)` is not walkable. */
  predicate Blocked(walkable: Position -> bool, x: int, y: int, rect: Rect) {
    exists p :: p in Corners(x, y, rect) && !walkable(p)
  }

  /** Where one component's actor ends up: moved by the velocity when every
      probe corner at the new place is walkable, else where it was. */
  function Moved(walkable: Position -> bool, x: int, y: int, velX: int, velY: int, rect: Rect): (p: Position)
    ensures (forall c :: c in Corners(x + velX, y + velY, rect) ==> walkable(c)) ==> p == (x + velX, y + velY)
    ensures (exists c :: c in Corners(x + velX, y + velY, rect) && !walkable(c)) ==> p == (x, y)
  {
    if Blocked(walkable, x + velX, y + velY, rect) then (x, y) else (x + velX, y + velY)
  }

  /** A position whose probe corners are all walkable stays so: the update
      never moves an actor onto a blocked tile. */
  lemma MovedKeepsWalkable(walkable: Position -> bool, x: int, y: int, velX: int, velY: int, rect: Rect)
    requires !Blocked(walkable, x, y, rect)
    ensures var p := Moved(walkable, x, y, velX, velY, rect);
      forall c :: c in Corners(p.0, p.1, rect) ==> walkable(c)
  {
  }

  /** One component's part of `movement_system_update`. */
  method MoveOne(m: MovementComponent, walkable: Position -> bool)
    modifies m.actor`x, m.actor`y
    ensures m.actor.Position() == Moved(walkable, old(m.actor.x), old(m.actor.y), m.velX, m.velY, m.rect)
  {
    var x := m.actor.x + m.velX;
    var y := m.actor.y + m.velY;
    var points := Corners(x, y, m.rect);
    var collision := exists p :: p in points && !walkable(p);
    if !collision {
      m.actor.x := x;
      m.actor.y := y;
    }
  }

  /** `movement_system_update`: every registered component, in order,
      moves its actor by its velocity unless a probe corner at the target
      is not walkable.  Velocities and rectangles are not touched.
      `walkable` stands for the tile map's walkability of a point. */
  method MovementSystemUpdate(registry: Registry<MovementComponent>, walkable: Position -> bool)
    requires forall i, j :: 0 <= i < j < |registry.items| ==> registry.items[i].actor != registry.items[j].actor
    modifies (set m | m in registry.items :: m.actor)`x, (set m | m in registry.items :: m.actor)`y
    ensures forall m :: m in registry.items ==>
      m.actor.Position() == Moved(walkable, old(m.actor.x), old(m.actor.y), m.velX, m.velY, m.rect)
  {
    var movers := registry.items;
    var i := 0;
    while i < |movers|
      invariant 0 <= i <= |movers| && registry.items == movers
      invariant forall k :: 0 <= k < i ==>
        movers[k].actor.Position() == Moved(walkable, old(movers[k].actor.x), old(movers[k].actor.y), movers[k].velX, movers[k].velY, movers[k].rect)
      invariant forall k :: i <= k < |movers| ==>
        movers[k].actor.x == old(movers[k].actor.x) && movers[k].actor.y == old(movers[k].actor.y)
    {
      MoveOne(movers[i], walkable);
      i := i + 1;
    }
  }
}
