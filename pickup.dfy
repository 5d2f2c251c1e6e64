/** A pickup lying on the map: an actor with a collider and a sprite showing
    its item, which a player takes by touching it. */
module Pickups {
  import opened Lists
  import opened Foundation
  import opened Registries
  import opened Sprites
  import opened Humanoids
  import opened Collision
  import opened Actions
  import opened Players

  /** The player among `players` whose actor is `a`, if any: the model of
      `isinstance(a, Player)` followed by using `a` as that player. */
  function PlayerOf(players: seq<Player>, a: Actor?): (p: Option<Player>)
    ensures p.Some? ==> p.value in players && p.value.actor == a
    ensures p.None? ==> forall q :: q in players ==> q.actor != a
  {
    if players == [] then None
    else if players[0].actor == a then Some(players[0])
    else PlayerOf(players[1..], a)
  }

  class Pickup {
    /** The pickup as an actor of the scene. */
    const actor: Actor
    const item: Item
    const collider: CollisionComponent
    const sprite: SpriteComponent

    /** A new, ACTIVE pickup at `position`: a collider of size 16 and a
        sprite showing the item's image, both registered. */
    constructor (position: Position, item: Item, colliders: Registry<CollisionComponent>, sprites: Registry<SpriteComponent>)
      requires colliders.Valid() && sprites.Valid()
      modifies colliders, sprites
      ensures colliders.Valid() && sprites.Valid()
      ensures fresh(actor) && actor.Position() == position && actor.state == Active && actor.scene == null
      ensures this.item == item
      ensures fresh(collider) && collider.actor == actor && collider.size == 16 && collider.registry == colliders
      ensures colliders.items == old(colliders.items) + [collider]
      ensures fresh(sprite) && sprite.actor == actor && sprite.registry == sprites
      ensures sprite.frame == Some(item.image) && sprite.offset == (0.0, 0.0)
      ensures sprites.items == old(sprites.items) + [sprite]
    {
      var a := new Actor(position.0, position.1);
      actor := a;
      this.item := item;
      collider := new CollisionComponent(a, 16, colliders);
      sprite := new SpriteComponent(a, Some(item.image), (0.0, 0.0), sprites);
    }

    /** `tick`, as the source writes it: touching a player makes the pickup
        INACTIVE and then builds `WieldItemAction` with two arguments,
        while that action takes three (humanoid, item, name), so the call
        raises (`raises`) and no action is returned.  Touching anything
        else, or nothing, returns `None` and changes nothing. */
    method TickAsWritten(players: seq<Player>) returns (raises: bool, action: Option<WieldItemAction>)
      modifies actor`state
      ensures action.None?
      ensures raises <==> PlayerOf(players, collider.collision).Some?
      ensures raises ==> actor.state == Inactive
      ensures !raises ==> actor.state == old(actor.state)
    {
      var target := PlayerOf(players, collider.collision);
      if collider.collision != null && target.Some? {
        actor.state := Inactive;
        return true, None;
      }
      return false, None;
    }

    /** `tick` with the action built as intended: touching a player makes
        the pickup INACTIVE (so the scene removes it after its pass) and
        returns a fresh action wielding the item in that player's humanoid,
        recorded under `name`.  Touching anything else, or nothing, returns
        `None` and changes nothing. */
    method Tick(players: seq<Player>, name: string) returns (action: Option<WieldItemAction>)
      modifies actor`state
      ensures action.Some? <==> PlayerOf(players, collider.collision).Some?
      ensures action.Some? ==>
        actor.state == Inactive && fresh(action.value) &&
        action.value.humanoid == PlayerOf(players, collider.collision).value.humanoid &&
        action.value.item == item && action.value.name == name
      ensures action.None? ==> actor.state == old(actor.state)
    {
      var target := PlayerOf(players, collider.collision);
      if collider.collision != null && target.Some? {
        actor.state := Inactive;
        var wield := new WieldItemAction(target.value.humanoid, item, name);
        return Some(wield);
      }
      return None;
    }

    /** `destroy`: deregisters the collider, then the sprite; a collider
        that is not registered makes the call raise (`ok` false) before the
        sprite is touched. */
    method Destroy() returns (ok: bool)
      requires collider.registry.Valid() && sprite.registry.Valid()
      modifies collider.registry, sprite.registry
      ensures collider.registry.Valid() && sprite.registry.Valid()
      ensures collider.registry.items == RemoveFirst(old(collider.registry.items), collider)
      ensures sprite.registry.items ==
        if collider in old(collider.registry.items) then RemoveFirst(old(sprite.registry.items), sprite)
        else old(sprite.registry.items)
      ensures ok <==> collider in old(collider.registry.items) && sprite in old(sprite.registry.items)
    {
      ok := collider.Destroy();
      if !ok {
        return;
      }
      ok := sprite.Destroy();
    }
  }
}
