/** `HumanoidComponent`: a body sprite plus two hands that can each wield
    one item, shown by a sprite of its own. */
module Humanoids {
  import opened Lists
  import opened Foundation
  import opened Registries
  import opened Sprites

  /** A game item, as far as wielding it is concerned: the sprite sheet
      region showing it. */
  datatype Item = Item(image: Rect)

  /** A full hand: the sprite showing the item, and the item. */
  datatype Hand = Hand(sprite: SpriteComponent, item: Item)

  /** Offsets of the item sprites in the left and right hand. */
  const LeftHandOffset: Offset := (0.0, 3.0)
  const RightHandOffset: Offset := (10.0, 3.0)

  class HumanoidComponent {
    const actor: Actor
    const body: SpriteComponent
    var leftHand: Option<Hand>
    var rightHand: Option<Hand>

    /** The sprites the humanoid registered, in the order `destroy`
        deregisters them: left hand, right hand, body. */
    function Sprites(): (ss: seq<SpriteComponent>)
      reads this
      ensures body in ss && ss[|ss| - 1] == body
    {
      (if leftHand.Some? then [leftHand.value.sprite] else []) +
      (if rightHand.Some? then [rightHand.value.sprite] else []) +
      [body]
    }

    /** Its sprites are distinct objects, show its actor and share the
        body's registry. */
    ghost predicate Valid()
      reads this
    {
      body.actor == actor &&
      (leftHand.Some? ==> Owns(leftHand.value.sprite)) &&
      (rightHand.Some? ==> Owns(rightHand.value.sprite)) &&
      (leftHand.Some? && rightHand.Some? ==> leftHand.value.sprite != rightHand.value.sprite)
    }

    /** A hand sprite of this humanoid: not the body, same actor and registry. */
    ghost predicate Owns(s: SpriteComponent) {
      s != body && s.actor == actor && s.registry == body.registry
    }

    /** Registers the body sprite, showing `bodyFrame` centred on the actor
        (offset by half the frame's width and height); both hands are empty. */
    constructor (actor: Actor, bodyFrame: Rect, sprites: Registry<SpriteComponent>)
      requires sprites.Valid()
      modifies sprites
      ensures Valid() && sprites.Valid() && fresh(body) && body.registry == sprites
      ensures sprites.items == old(sprites.items) + [body]
      ensures this.actor == actor && body.frame == Some(bodyFrame)
      ensures body.offset == (-(bodyFrame.2 as real) / 2.0, -(bodyFrame.3 as real) / 2.0)
      ensures leftHand.None? && rightHand.None?
    {
      var (_, _, w, h) := bodyFrame;
      this.actor := actor;
      body := new SpriteComponent(actor, Some(bodyFrame), (-(w as real) / 2.0, -(h as real) / 2.0), sprites);
      rightHand, leftHand := None, None;
    }

    /** `wield_item`: the item goes into the left hand if it is free, else
        into the right hand if that is free, with a new sprite showing it;
        with both hands full, nothing changes and the result is false.  A
        full hand is never overwritten. */
    method WieldItem(item: Item) returns (ok: bool)
      requires Valid() && body.registry.Valid()
      modifies this`leftHand, this`rightHand, body.registry
      ensures Valid() && body.registry.Valid()
      ensures ok <==> old(leftHand).None? || old(rightHand).None?
      ensures old(leftHand).None? ==>
        rightHand == old(rightHand) && leftHand.Some? && leftHand.value.item == item &&
        fresh(leftHand.value.sprite) && leftHand.value.sprite.frame == Some(item.image) &&
        leftHand.value.sprite.offset == LeftHandOffset &&
        body.registry.items == old(body.registry.items) + [leftHand.value.sprite]
      ensures old(leftHand).Some? && old(rightHand).None? ==>
        leftHand == old(leftHand) && rightHand.Some? && rightHand.value.item == item &&
        fresh(rightHand.value.sprite) && rightHand.value.sprite.frame == Some(item.image) &&
        rightHand.value.sprite.offset == RightHandOffset &&
        body.registry.items == old(body.registry.items) + [rightHand.value.sprite]
      ensures !ok ==>
        leftHand == old(leftHand) && rightHand == old(rightHand) && body.registry.items == old(body.registry.items)
    {
      if leftHand.None? {
        var sprite := new SpriteComponent(actor, Some(item.image), LeftHandOffset, body.registry);
        assert sprite != body && (rightHand.Some? ==> sprite != rightHand.value.sprite);
        leftHand := Some(Hand(sprite, item));
      } else if rightHand.None? {
        var sprite := new SpriteComponent(actor, Some(item.image), RightHandOffset, body.registry);
        assert sprite != body && sprite != leftHand.value.sprite;
        rightHand := Some(Hand(sprite, item));
      } else {
        return false;
      }
      return true;
    }

    /** `destroy`: deregisters the left-hand sprite, the right-hand sprite
        (each if present) and the body sprite, in that order; a sprite that
        is not registered makes the call raise (`ok` false) and the ones
        after it stay registered. */
    method Destroy() returns (ok: bool)
      requires Valid() && body.registry.Valid()
      modifies body.registry
      ensures body.registry.Valid()
      ensures ok == AllDeregistered(old(body.registry.items), Sprites())
      ensures body.registry.items == Deregistered(old(body.registry.items), Sprites())
    {
      var registry := body.registry;
      ghost var items := registry.items;
      ghost var rest := Sprites();
      if leftHand.Some? {
        assert rest[0] == leftHand.value.sprite;
        ok := leftHand.value.sprite.Destroy();
        if !ok {
          assert Deregistered(items, rest) == items && !AllDeregistered(items, rest);
          assert rest == Sprites() && registry.items == items;
          return;
        }
        rest := rest[1..];
      }
      assert Deregistered(items, Sprites()) == Deregistered(registry.items, rest);
      assert AllDeregistered(items, Sprites()) == AllDeregistered(registry.items, rest);
      ghost var items2 := registry.items;
      if rightHand.Some? {
        assert rest[0] == rightHand.value.sprite;
        ok := rightHand.value.sprite.Destroy();
        if !ok {
          assert Deregistered(items2, rest) == items2 && !AllDeregistered(items2, rest);
          assert registry.items == items2;
          return;
        }
        rest := rest[1..];
      }
      assert rest == [body];
      assert Deregistered(items, Sprites()) == Deregistered(registry.items, rest);
      assert AllDeregistered(items, Sprites()) == AllDeregistered(registry.items, rest);
      ghost var items3 := registry.items;
      assert [body][1..] == [];
      assert Deregistered(items3, [body]) == RemoveFirst(items3, body);
      assert AllDeregistered(items3, [body]) == (body in items3);
      ok := body.Destroy();
    }
  }

  /** A humanoid whose sprites are all registered loses exactly them, and
      the other sprites keep their order. */
  lemma DestroyRemovesOwned(h: HumanoidComponent, items: seq<SpriteComponent>)
    requires h.Valid() && Distinct(items)
    requires forall s :: s in h.Sprites() ==> s in items
    ensures AllDeregistered(items, h.Sprites())
    ensures Deregistered(items, h.Sprites()) == Keep(items, set s | s in h.Sprites())
    ensures forall s :: s in h.Sprites() ==> s !in Deregistered(items, h.Sprites())
  {
    SpritesDistinct(h);
    DeregisteredSpec(items, h.Sprites());
    KeepLeavesDropped(items, set s | s in h.Sprites());
  }

  /** No sprite is listed twice, and all belong to the humanoid's actor and
      the body's registry. */
  lemma SpritesDistinct(h: HumanoidComponent)
    requires h.Valid()
    ensures Distinct(h.Sprites())
    ensures forall s :: s in h.Sprites() ==> s.actor == h.actor && s.registry == h.body.registry
  {
  }
}
