/** Tile-to-tile walking: `WalkComponent`, its registry, `walk_update` and
    `_get_adjacent_tile`. */
module Walk {
  import opened Lists
  import opened Foundation
  import opened Registries
  import opened TileMaps

  datatype WalkDirection = Stop | North | South | East | West

  class WalkComponent {
    const actor: Actor
    const registry: Registry<WalkComponent>
    var direction: WalkDirection
    var speed: int
    /** The tile the walker is heading for, if any. */
    var dst: Option<Tile>

    /** Registers a new walker; it starts standing (`STOP`, no destination). */
    constructor (actor: Actor, speed: int, registry: Registry<WalkComponent>)
      requires registry.Valid()
      modifies registry
      ensures registry.Valid() && registry.items == old(registry.items) + [this]
      ensures this.actor == actor && this.registry == registry && this.speed == speed
      ensures direction == Stop && dst == None
    {
      this.actor, this.registry, this.speed := actor, registry, speed;
      direction, dst := Stop, None;
      new;
      registry.Add(this);
    }

    /** `destroy`: `ok` is false when the walker was not registered (the
        source raises). */
    method Destroy() returns (ok: bool)
      requires registry.Valid()
      modifies registry
      ensures registry.Valid()
      ensures ok <==> this in old(registry.items)
      ensures registry.items == RemoveFirst(old(registry.items), this)
    {
      ok := registry.Remove(this);
    }
  }

  function Clamp(v: int, lo: int, hi: int): int {
    var r := if v < lo then lo else v;
    if r > hi then hi else r
  }

  /** The neighbouring tile one step in `direction` (the tile itself for `STOP`). */
  function Shift(t: Tile, direction: WalkDirection): (s: Tile)
    ensures direction == Stop ==> s == t
    ensures direction in {North, South} ==> s.0 == t.0 && (s.1 == t.1 - 1 <==> direction == North) && (s.1 == t.1 + 1 <==> direction == South)
    ensures direction in {West, East} ==> s.1 == t.1 && (s.0 == t.0 - 1 <==> direction == West) && (s.0 == t.0 + 1 <==> direction == East)
  {
    match direction
    case Stop => t
    case North => (t.0, t.1 - 1)
    case South => (t.0, t.1 + 1)
    case West => (t.0 - 1, t.1)
    case East => (t.0 + 1, t.1)
  }

  /** `_get_adjacent_tile`: the shifted tile, clamped to [0, width] x
      [0, height].  Both upper bounds are inclusive, so the result may lie
      just outside the grid on the east and south edges. */
  function AdjacentTile(t: Tile, direction: WalkDirection, width: nat, height: nat): (a: Tile)
    ensures 0 <= a.0 <= width && 0 <= a.1 <= height
    ensures var s := Shift(t, direction);
      (0 <= s.0 <= width ==> a.0 == s.0) && (0 <= s.1 <= height ==> a.1 == s.1)
    ensures var s := Shift(t, direction);
      (s.0 < 0 ==> a.0 == 0) && (s.0 > width ==> a.0 == width) &&
      (s.1 < 0 ==> a.1 == 0) && (s.1 > height ==> a.1 == height)
  {
    var s := Shift(t, direction);
    (Clamp(s.0, 0, width), Clamp(s.1, 0, height))
  }

  /** One walker's movement state inside `walk_update`: the actor's pixel
      position, the destination tile and the local `energy`. */
  datatype WalkState = WalkState(x: int, y: int, dst: Option<Tile>, energy: int)

  function Abs(v: int): nat { if v < 0 then -v else v }
  function Min(a: int, b: int): int { if a < b then a else b }

  /** `b` lies between `a` and `c`, ends included. */
  predicate Between(a: int, b: int, c: int) {
    (a <= b <= c) || (c <= b <= a)
  }

  /** The loop body's condition: a destination and energy left. */
  predicate Walking(s: WalkState) {
    s.dst.Some? && s.energy > 0
  }

  /** The walker stands exactly on the pixel of its destination tile. */
  predicate AtDestination(tm: TileMap, s: WalkState)
    reads tm
  {
    s.dst.Some? && (s.x, s.y) == tm.TileToPixels(s.dst.value)
  }

  /** The movement half of one loop iteration: each axis moves toward the
      destination pixel by as much as the energy allows and no further, and
      the energy pays for both axes. */
  function Advance(tm: TileMap, s: WalkState): (m: WalkState)
    reads tm
    requires Walking(s)
    ensures var (dx, dy) := tm.TileToPixels(s.dst.value);
      Between(s.x, m.x, dx) && Between(s.y, m.y, dy) &&
      Abs(m.x - s.x) == Min(Abs(dx - s.x), s.energy) && Abs(m.y - s.y) == Min(Abs(dy - s.y), s.energy)
    ensures m.energy == s.energy - Abs(m.x - s.x) - Abs(m.y - s.y)
    ensures m.dst == s.dst
    ensures AtDestination(tm, s) ==> m == s
    ensures !AtDestination(tm, s) ==> m.energy < s.energy
  {
    var (dstX, dstY) := tm.TileToPixels(s.dst.value);
    var dx := Min(Abs(dstX - s.x), s.energy);
    var dy := Min(Abs(dstY - s.y), s.energy);
    WalkState(
      s.x + (if dstX > s.x then dx else -dx),
      s.y + (if dstY > s.y then dy else -dy),
      s.dst,
      s.energy - (dx + dy))
  }

  /** The destination chosen on arrival, as the source picks it: the next
      tile in the walking direction if it is walkable.  It does not check
      that this tile differs from the current destination. */
  function NextDestinationAsWritten(tm: TileMap, direction: WalkDirection, dst: Tile, energy: int): Option<Tile>
    reads tm
    requires tm.Valid()
  {
    if energy == 0 || direction == Stop then None
    else
      var t := AdjacentTile(dst, direction, tm.width, tm.height);
      if tm.IsWalkableAt(t.0, t.1) then Some(t) else None
  }

  /** The destination chosen on arrival, with the check the initial
      destination choice already makes: the next tile must differ from the
      tile just reached. */
  function NextDestination(tm: TileMap, direction: WalkDirection, dst: Tile, energy: int): (r: Option<Tile>)
    reads tm
    requires tm.Valid()
    ensures r.Some? ==> r.value != dst && tm.IsWalkableAt(r.value.0, r.value.1)
    ensures r.Some? ==> r.value == AdjacentTile(dst, direction, tm.width, tm.height)
    ensures energy == 0 || direction == Stop ==> r.None?
    ensures energy != 0 && direction != Stop ==>
      var t := AdjacentTile(dst, direction, tm.width, tm.height);
      (r.Some? <==> t != dst && tm.IsWalkableAt(t.0, t.1))
  {
    if energy == 0 || direction == Stop then None
    else
      var t := AdjacentTile(dst, direction, tm.width, tm.height);
      if t != dst && tm.IsWalkableAt(t.0, t.1) then Some(t) else None
  }

  /** One iteration of the `walk_update` loop as the source writes it.  The
      arrival test uses the position from before the move. */
  function StepAsWritten(tm: TileMap, direction: WalkDirection, s: WalkState): WalkState
    reads tm
    requires tm.Valid() && Walking(s)
  {
    var m := Advance(tm, s);
    if AtDestination(tm, s) then m.(dst := NextDestinationAsWritten(tm, direction, s.dst.value, m.energy))
    else m
  }

  /** One iteration of the `walk_update` loop with the corrected arrival
      rule: the walker keeps its destination until it stands on it; then it
      stops (direction `STOP`) or heads for a different, walkable,
      neighbouring tile, or stops. */
  function Step(tm: TileMap, direction: WalkDirection, s: WalkState): (r: WalkState)
    reads tm
    requires tm.Valid() && Walking(s)
    ensures (r.x, r.y, r.energy) == (Advance(tm, s).x, Advance(tm, s).y, Advance(tm, s).energy)
    ensures !AtDestination(tm, s) ==> r.dst == s.dst
    ensures AtDestination(tm, s) && direction == Stop ==> r.dst.None?
    ensures AtDestination(tm, s) && r.dst.Some? ==>
      r.dst.value != s.dst.value && tm.IsWalkableAt(r.dst.value.0, r.dst.value.1) &&
      r.dst.value == AdjacentTile(s.dst.value, direction, tm.width, tm.height)
    ensures AtDestination(tm, s) ==> r.dst == NextDestination(tm, direction, s.dst.value, Advance(tm, s).energy)
  {
    var m := Advance(tm, s);
    if AtDestination(tm, s) then m.(dst := NextDestination(tm, direction, s.dst.value, m.energy))
    else m
  }

  /** The termination measure of the walking loop: energy first, then
      whether the walker still has to notice that it has arrived. */
  function Pending(tm: TileMap, s: WalkState): nat
    reads tm
  {
    if AtDestination(tm, s) then 1 else 0
  }

  /** Every corrected iteration makes progress: it spends energy, or it
      leaves a destination it stands on. */
  lemma StepDecreases(tm: TileMap, direction: WalkDirection, s: WalkState)
    requires tm.Valid() && Walking(s)
    ensures var r := Step(tm, direction, s);
      r.energy < s.energy || (r.energy == s.energy && Pending(tm, r) < Pending(tm, s))
  {
    var r := Step(tm, direction, s);
    if AtDestination(tm, s) && r.dst.Some? {
      TileToPixelsInjective(tm, r.dst.value, s.dst.value);
    }
  }

  /** The walking loop run to completion with the corrected step. */
  function Run(tm: TileMap, direction: WalkDirection, s: WalkState): (r: WalkState)
    reads tm
    requires tm.Valid()
    ensures !Walking(r)
    ensures !Walking(s) ==> r == s
    decreases if s.energy > 0 then s.energy else 0, Pending(tm, s)
  {
    if Walking(s) then
      StepDecreases(tm, direction, s);
      Run(tm, direction, Step(tm, direction, s))
    else s
  }

  /** The destination chosen before the loop: only a walker without a
      destination and with a direction gets one, namely the adjacent tile of
      the tile it stands on, if that differs from it and is walkable. */
  function InitialDestination(tm: TileMap, direction: WalkDirection, x: int, y: int, dst: Option<Tile>): (r: Option<Tile>)
    reads tm
    requires tm.Valid()
    ensures dst.Some? || direction == Stop ==> r == dst
    ensures r != dst <==>
      dst.None? && direction != Stop &&
      var here := tm.PixelsToCoords((x, y));
      var t := AdjacentTile(here, direction, tm.width, tm.height);
      t != here && tm.IsWalkableAt(t.0, t.1) && r == Some(t)
    ensures dst.None? && direction != Stop ==>
      var here := tm.PixelsToCoords((x, y));
      var t := AdjacentTile(here, direction, tm.width, tm.height);
      (t != here && tm.IsWalkableAt(t.0, t.1) ==> r == Some(t)) &&
      (t == here || !tm.IsWalkableAt(t.0, t.1) ==> r.None?)
  {
    if dst.None? && direction != Stop then
      var here := tm.PixelsToCoords((x, y));
      var t := AdjacentTile(here, direction, tm.width, tm.height);
      if here != t && tm.IsWalkableAt(t.0, t.1) then Some(t) else dst
    else dst
  }

  /** What one frame of `walk_update` does to an active walker. */
  function WalkFrame(tm: TileMap, direction: WalkDirection, speed: int, x: int, y: int, dst: Option<Tile>): WalkState
    reads tm
    requires tm.Valid()
  {
    Run(tm, direction, WalkState(x, y, InitialDestination(tm, direction, x, y, dst), speed))
  }

  /** The walkers' actors, in registry order: what `walk_update` moves. */
  function ActorsOf(ws: seq<WalkComponent>): (r: seq<Actor>)
    ensures |r| == |ws| && forall i :: 0 <= i < |ws| ==> r[i] == ws[i].actor
  {
    seq(|ws|, i requires 0 <= i < |ws| => ws[i].actor)
  }

  /** One walker's part of `walk_update`: an INACTIVE actor is skipped;
      otherwise the initial destination is chosen and the walking loop
      spends `speed` energy. */
  method WalkOne(w: WalkComponent, tm: TileMap)
    requires tm.Valid()
    modifies w`dst, w.actor`x, w.actor`y
    ensures old(w.actor.state) == Inactive ==>
      w.dst == old(w.dst) && w.actor.x == old(w.actor.x) && w.actor.y == old(w.actor.y)
    ensures old(w.actor.state) != Inactive ==>
      var r := WalkFrame(tm, w.direction, w.speed, old(w.actor.x), old(w.actor.y), old(w.dst));
      w.actor.x == r.x && w.actor.y == r.y && w.dst == r.dst
  {
    if w.actor.state == Inactive {
      return;
    }
    ChooseDestination(w, tm);
    var energy := w.speed;
    var actor, direction := w.actor, w.direction;
    ghost var final := Run(tm, direction, WalkState(actor.x, actor.y, w.dst, energy));
    while w.dst.Some? && energy > 0
      invariant Run(tm, direction, WalkState(actor.x, actor.y, w.dst, energy)) == final
      decreases if energy > 0 then energy else 0, Pending(tm, WalkState(actor.x, actor.y, w.dst, energy))
    {
      ghost var s := WalkState(actor.x, actor.y, w.dst, energy);
      StepDecreases(tm, direction, s);
      assert Run(tm, direction, Step(tm, direction, s)) == final;
      energy := WalkStep(w, tm, energy);
    }
  }

  /** The part of `walk_update` before the loop: picks a destination for a
      walker that has none. */
  method ChooseDestination(w: WalkComponent, tm: TileMap)
    requires tm.Valid()
    modifies w`dst
    ensures w.dst == InitialDestination(tm, w.direction, w.actor.x, w.actor.y, old(w.dst))
  {
    if w.dst.None? && w.direction != Stop {
      var here := tm.PixelsToCoords(w.actor.Position());
      var t := AdjacentTile(here, w.direction, tm.width, tm.height);
      if here != t && tm.IsWalkableAt(t.0, t.1) {
        w.dst := Some(t);
      }
    }
  }

  /** The body of the `walk_update` loop, with the corrected arrival rule. */
  method WalkStep(w: WalkComponent, tm: TileMap, energy: int) returns (left: int)
    requires tm.Valid() && Walking(WalkState(w.actor.x, w.actor.y, w.dst, energy))
    modifies w`dst, w.actor`x, w.actor`y
    ensures WalkState(w.actor.x, w.actor.y, w.dst, left) ==
      Step(tm, w.direction, WalkState(old(w.actor.x), old(w.actor.y), old(w.dst), energy))
  {
    ghost var s := WalkState(w.actor.x, w.actor.y, w.dst, energy);
    ghost var moved := Advance(tm, s);
    var actor := w.actor;
    var (dstX, dstY) := tm.TileToPixels(w.dst.value);
    var (x, y) := actor.Position();
    var dx := Min(Abs(dstX - x), energy);
    var dy := Min(Abs(dstY - y), energy);
    actor.x := actor.x + (if dstX > x then dx else -dx);
    actor.y := actor.y + (if dstY > y then dy else -dy);
    left := energy - (dx + dy);
    assert actor.x == moved.x && actor.y == moved.y && left == moved.energy;
    if x == dstX && y == dstY {
      if left == 0 || w.direction == Stop {
        w.dst := None;
      } else {
        var t := AdjacentTile(w.dst.value, w.direction, tm.width, tm.height);
        w.dst := if t != w.dst.value && tm.IsWalkableAt(t.0, t.1) then Some(t) else None;
      }
    }
  }

  /** `walk_update`: every registered walker, in registry order, takes its
      frame of walking; INACTIVE ones are left exactly as they were.  No two
      walkers share an actor. */
  method WalkUpdate(registry: Registry<WalkComponent>, tm: TileMap)
    requires tm.Valid() && registry.Valid()
    requires forall i, j :: 0 <= i < j < |registry.items| ==> registry.items[i].actor != registry.items[j].actor
    modifies registry.items`dst, ActorsOf(registry.items)`x, ActorsOf(registry.items)`y
    ensures forall w :: w in registry.items && old(w.actor.state) == Inactive ==>
      w.dst == old(w.dst) && w.actor.x == old(w.actor.x) && w.actor.y == old(w.actor.y)
    ensures forall w :: w in registry.items && old(w.actor.state) != Inactive ==>
      var r := WalkFrame(tm, w.direction, w.speed, old(w.actor.x), old(w.actor.y), old(w.dst));
      w.actor.x == r.x && w.actor.y == r.y && w.dst == r.dst
  {
    var walkers := registry.items;
    var i := 0;
    while i < |walkers|
      invariant 0 <= i <= |walkers| && registry.items == walkers
      invariant forall k :: 0 <= k < i && old(walkers[k].actor.state) == Inactive ==>
        walkers[k].dst == old(walkers[k].dst) && walkers[k].actor.x == old(walkers[k].actor.x) && walkers[k].actor.y == old(walkers[k].actor.y)
      invariant forall k :: 0 <= k < i && old(walkers[k].actor.state) != Inactive ==>
        var r := WalkFrame(tm, walkers[k].direction, walkers[k].speed, old(walkers[k].actor.x), old(walkers[k].actor.y), old(walkers[k].dst));
        walkers[k].actor.x == r.x && walkers[k].actor.y == r.y && walkers[k].dst == r.dst
      invariant forall k :: i <= k < |walkers| ==>
        walkers[k].dst == old(walkers[k].dst) && walkers[k].actor.x == old(walkers[k].actor.x) && walkers[k].actor.y == old(walkers[k].actor.y)
      invariant forall k :: 0 <= k < |walkers| ==> walkers[k].actor.state == old(walkers[k].actor.state)
    {
      WalkOne(walkers[i], tm);
      i := i + 1;
    }
  }

  /** The flaw of the source's arrival rule: on the west edge, a walker that
      stands on its walkable destination tile in column 0 and still walks
      west gets that same tile as its next destination, without moving or
      spending energy, so the `while` loop of `walk_update` never ends. */
  lemma AsWrittenWestEdgeLoops(tm: TileMap, row: int, energy: int)
    requires tm.Valid() && tm.IsWalkableAt(0, row) && energy > 0
    ensures var s := WalkState(tm.TileToPixels((0, row)).0, tm.TileToPixels((0, row)).1, Some((0, row)), energy);
      Walking(s) && StepAsWritten(tm, West, s) == s
  {
  }

  /** The same situation under the corrected rule ends the walk. */
  lemma CorrectedWestEdgeStops(tm: TileMap, row: int, energy: int)
    requires tm.Valid() && tm.IsWalkableAt(0, row) && energy > 0
    ensures var s := WalkState(tm.TileToPixels((0, row)).0, tm.TileToPixels((0, row)).1, Some((0, row)), energy);
      Step(tm, West, s) == s.(dst := None) && !Walking(Step(tm, West, s))
  {
  }

  /** A walker that is standing (no destination) and has no direction stays
      where it is. */
  lemma StandingStill(tm: TileMap, speed: int, x: int, y: int)
    requires tm.Valid()
    ensures WalkFrame(tm, Stop, speed, x, y, None) == WalkState(x, y, None, speed)
  {
  }

  /** Walking never increases energy, and the pixels moved, summed over
      both axes, never exceed the energy spent: every iteration pays for
      what it moved.  The energy may end below zero, since each axis is
      capped by the energy separately (see `RunOverspendBound`). */
  lemma {:induction false} RunSpends(tm: TileMap, direction: WalkDirection, s: WalkState)
    requires tm.Valid()
    ensures Run(tm, direction, s).energy <= s.energy
    ensures Abs(Run(tm, direction, s).x - s.x) + Abs(Run(tm, direction, s).y - s.y) <= s.energy - Run(tm, direction, s).energy
    decreases if s.energy > 0 then s.energy else 0, Pending(tm, s)
  {
    if Walking(s) {
      StepDecreases(tm, direction, s);
      RunSpends(tm, direction, Step(tm, direction, s));
    }
  }

  /** A frame spends at most twice the walker's speed: an iteration that
      starts with energy `e` moves at most `e` on each axis, so the energy
      never ends below minus the starting energy. */
  lemma {:induction false} RunOverspendBound(tm: TileMap, direction: WalkDirection, s: WalkState)
    requires tm.Valid() && s.energy >= 0
    ensures Run(tm, direction, s).energy >= -s.energy
    ensures Abs(Run(tm, direction, s).x - s.x) + Abs(Run(tm, direction, s).y - s.y) <= 2 * s.energy
    decreases s.energy, Pending(tm, s)
  {
    RunSpends(tm, direction, s);
    if Walking(s) {
      var t := Step(tm, direction, s);
      StepDecreases(tm, direction, s);
      assert Run(tm, direction, s) == Run(tm, direction, t);
      var m := Advance(tm, s);
      assert Abs(m.x - s.x) <= s.energy && Abs(m.y - s.y) <= s.energy;
      assert -s.energy <= t.energy <= s.energy;
      if t.energy > 0 {
        RunOverspendBound(tm, direction, t);
      }
    }
  }

  /** A walker off the tile grid can move on both axes at once: at (0, 8)
      on 16-pixel tiles, walking EAST with speed 1 heads for tile (1, 0)
      and moves one pixel right and one pixel up in the same iteration,
      two pixels in all, leaving energy -1. */
  lemma OffGridOverspend(tm: TileMap)
    requires tm.Valid() && tm.tileWidth == 16 && tm.tileHeight == 16 && tm.x == 0 && tm.y == 0
    requires tm.IsWalkableAt(1, 0)
    ensures WalkFrame(tm, East, 1, 0, 8, None) == WalkState(1, 7, Some((1, 0)), -1)
  {
    var s := WalkState(0, 8, Some((1, 0)), 1);
    assert tm.PixelsToCoords((0, 8)) == (0, 0);
    assert InitialDestination(tm, East, 0, 8, None) == Some((1, 0));
    assert Step(tm, East, s) == WalkState(1, 7, Some((1, 0)), -1);
  }
}
