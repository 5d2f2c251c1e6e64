/** Non-player characters: a humanoid with a sight area that reacts, once
    per actor, to the actors it sees, and otherwise idles.  The behaviour
    callbacks `on_sight` and `on_idle` are inputs of the model. */
module Npcs {
  import opened Lists
  import opened Foundation
  import opened Registries
  import opened Sprites
  import opened Humanoids
  import opened Collision

  /** A call the NPC makes to its behaviour. */
  datatype BehaviourCall = OnSight(seen: Actor) | OnIdle

  /** An NPC whose behaviour returns actions of type `A`. */
  class NPC<A> {
    /** The NPC as an actor of the scene. */
    const actor: Actor
    const humanoid: HumanoidComponent
    const sightArea: CollisionComponent
    var seenActors: seq<Actor>
    var currentAction: Option<A>

    /** Its components belong to its actor, and no actor is seen twice. */
    ghost predicate Valid()
      reads this, humanoid
    {
      humanoid.Valid() && humanoid.actor == actor && sightArea.actor == actor && Distinct(seenActors)
    }

    /** A new, ACTIVE NPC at `position` with a humanoid body and a sight
        area of size 20; it has seen nobody and has no action. */
    constructor (position: Position, bodyFrame: Rect, sprites: Registry<SpriteComponent>, colliders: Registry<CollisionComponent>)
      requires sprites.Valid() && colliders.Valid()
      modifies sprites, colliders
      ensures Valid() && sprites.Valid() && colliders.Valid()
      ensures fresh(actor) && actor.Position() == position && actor.state == Active && actor.scene == null
      ensures fresh(humanoid) && fresh(humanoid.body) && humanoid.body.registry == sprites && humanoid.body.frame == Some(bodyFrame)
      ensures humanoid.leftHand.None? && humanoid.rightHand.None?
      ensures sprites.items == old(sprites.items) + [humanoid.body]
      ensures fresh(sightArea) && sightArea.size == 20 && sightArea.registry == colliders && sightArea.collision == null
      ensures colliders.items == old(colliders.items) + [sightArea]
      ensures seenActors == [] && currentAction.None?
    {
      var a := new Actor(position.0, position.1);
      actor := a;
      humanoid := new HumanoidComponent(a, bodyFrame, sprites);
      sightArea := new CollisionComponent(a, 20, colliders);
      seenActors := [];
      currentAction := None;
    }

    /** `tick`.  While the current action is set and not finished (the
        action's `finished` flag, an input here) nothing happens and `None`
        is returned.  Otherwise the action is dropped; an actor in the sight
        area that was never seen before is remembered and `on_sight` is
        asked for an action; if that produced none, `on_idle` is asked.
        The action obtained becomes the current one and is returned.
        `calls` lists the behaviour calls made, in order. */
    method Tick(finished: bool, onSight: Actor -> Option<A>, onIdle: Option<A>) returns (r: Option<A>, calls: seq<BehaviourCall>)
      requires Valid()
      modifies this`seenActors, this`currentAction
      ensures Valid()
      ensures old(seenActors) <= seenActors
      ensures old(currentAction).Some? && !finished ==>
        r.None? && calls == [] && seenActors == old(seenActors) && currentAction == old(currentAction)
      ensures old(currentAction).None? || finished ==>
        var seen := sightArea.collision;
        var isNew := seen != null && seen !in old(seenActors);
        var sight := if isNew then onSight(seen) else None;
        seenActors == SeeStep(old(seenActors), seen) &&
        calls == (if isNew then [OnSight(seen)] else []) + (if sight.None? then [OnIdle] else []) &&
        currentAction == (if sight.Some? then sight else onIdle) &&
        r == currentAction
    {
      if currentAction.Some? && !finished {
        return None, [];
      }
      currentAction := None;
      calls := [];
      var seen := sightArea.collision;
      if seen != null {
        if seen !in seenActors {
          seenActors := seenActors + [seen];
          currentAction := onSight(seen);
          calls := [OnSight(seen)];
        }
      }
      if currentAction.None? {
        currentAction := onIdle;
        calls := calls + [OnIdle];
      }
      r := currentAction;
    }

    /** `destroy`: deregisters the humanoid's sprites, then the sight area;
        the first deregistration that finds its entry missing raises (`ok`
        false) and the later ones do not happen. */
    method Destroy() returns (ok: bool)
      requires Valid() && humanoid.body.registry.Valid() && sightArea.registry.Valid()
      modifies humanoid.body.registry, sightArea.registry
      ensures humanoid.body.registry.Valid() && sightArea.registry.Valid()
      ensures var spritesOk := AllDeregistered(old(humanoid.body.registry.items), humanoid.Sprites());
        humanoid.body.registry.items == Deregistered(old(humanoid.body.registry.items), humanoid.Sprites()) &&
        sightArea.registry.items == (if spritesOk then RemoveFirst(old(sightArea.registry.items), sightArea) else old(sightArea.registry.items)) &&
        (ok <==> spritesOk && sightArea in old(sightArea.registry.items))
    {
      ok := humanoid.Destroy();
      if !ok {
        return;
      }
      ok := sightArea.Destroy();
    }
  }

  /** What one reacting tick does to `seen_actors`: the actor in the sight
      area is appended when there is one and it was not seen before. */
  function SeeStep(seen: seq<Actor>, c: Actor?): (r: seq<Actor>)
    ensures seen <= r && |r| <= |seen| + 1
    ensures |r| == |seen| + 1 <==> c != null && c !in seen
  {
    if c != null && c !in seen then seen + [c] else seen
  }

  /** `seen_actors` after reacting ticks in which the sight area held
      `cs[0]`, `cs[1]`, ... */
  function SeenAfter(seen: seq<Actor>, cs: seq<Actor?>): seq<Actor>
    decreases |cs|
  {
    if cs == [] then seen else SeenAfter(SeeStep(seen, cs[0]), cs[1..])
  }

  /** Over any run of reacting ticks, `seen_actors` only grows, never lists
      an actor twice, and holds exactly the actors seen before or during
      the run: `on_sight` is asked about each actor at most once. */
  lemma {:induction false} SeenAfterSpec(seen: seq<Actor>, cs: seq<Actor?>)
    requires Distinct(seen)
    ensures seen <= SeenAfter(seen, cs)
    ensures Distinct(SeenAfter(seen, cs))
    ensures forall a: Actor :: a in SeenAfter(seen, cs) <==> a in seen || a in cs
    decreases |cs|
  {
    if cs != [] {
      var s1 := SeeStep(seen, cs[0]);
      SeenAfterSpec(s1, cs[1..]);
      assert cs == [cs[0]] + cs[1..];
    }
  }
}
