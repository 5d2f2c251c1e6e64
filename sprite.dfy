/** Sprites: `SpriteComponent`, its registry and `sprite_update`, which
    turns every visible sprite into a masked textured draw command. */
module Sprites {
  import opened Lists
  import opened Foundation
  import opened Registries
  import opened Gfx

  /** A sprite's offset from its actor's position.  Offsets may be
      fractional: a humanoid's body is offset by half its size, computed
      with true division. */
  type Offset = (real, real)

  /** The draw order of every sprite command (`1e6`). */
  const SpriteOrder: int := 1000000

  class SpriteComponent {
    const actor: Actor
    const registry: Registry<SpriteComponent>
    /** The region of the sprite sheet shown, if any. */
    var frame: Option<Rect>
    var offset: Offset

    /** Registers a new sprite. */
    constructor (actor: Actor, frame: Option<Rect>, offset: Offset, registry: Registry<SpriteComponent>)
      requires registry.Valid()
      modifies registry
      ensures registry.Valid() && registry.items == old(registry.items) + [this]
      ensures this.actor == actor && this.registry == registry
      ensures this.frame == frame && this.offset == offset
    {
      this.actor, this.registry := actor, registry;
      this.frame, this.offset := frame, offset;
      new;
      registry.Add(this);
    }

    /** `destroy`: `ok` is false when the sprite was not registered (the
        source raises). */
    method Destroy() returns (ok: bool)
      requires registry.Valid()
      modifies registry
      ensures registry.Valid()
      ensures ok <==> this in old(registry.items)
      ensures registry.items == RemoveFirst(old(registry.items), this)
    {
      ok := registry.Remove(this);
    }
  }

  /** The command drawn for one sprite: its frame from the sheet, at its
      actor's position moved by its offset. */
  function CommandFor(s: SpriteComponent, sheet: Texture): (c: DrawCommand)
    reads s, s.actor
    ensures c.MaskedTextureRect? && c.Stage() == Masked && c.order == SpriteOrder
  {
    MaskedTextureRect(SpriteOrder, sheet, s.frame, (s.actor.x as real + s.offset.0, s.actor.y as real + s.offset.1))
  }

  /** The sprites whose actor is INACTIVE. */
  ghost function Hidden(sprites: seq<SpriteComponent>): set<SpriteComponent>
    reads set s | s in sprites :: s.actor
  {
    set s | s in sprites && s.actor.state == Inactive
  }

  /** What the loop of `sprite_update` appends for `sprites`, in order. */
  function SpriteCommands(sprites: seq<SpriteComponent>, sheet: Texture): seq<DrawCommand>
    reads sprites, set s | s in sprites :: s.actor
  {
    if sprites == [] then []
    else
      var p, s := sprites[..|sprites| - 1], sprites[|sprites| - 1];
      SpriteCommands(p, sheet) + (if s.actor.state == Inactive then [] else [CommandFor(s, sheet)])
  }

  /** Exactly one command per sprite whose actor is not INACTIVE, in
      registry order: the commands are those of the sprites that remain
      when the hidden ones are filtered out. */
  lemma {:induction false} SpriteCommandsSpec(sprites: seq<SpriteComponent>, sheet: Texture)
    ensures var v := Keep(sprites, Hidden(sprites));
      |SpriteCommands(sprites, sheet)| == |v| &&
      forall i :: 0 <= i < |v| ==> SpriteCommands(sprites, sheet)[i] == CommandFor(v[i], sheet)
  {
    if sprites != [] {
      var p, s := sprites[..|sprites| - 1], sprites[|sprites| - 1];
      SpriteCommandsSpec(p, sheet);
      assert sprites == p + [s];
      KeepAppend(p, [s], Hidden(sprites));
      KeepSame(p, Hidden(p), Hidden(sprites));
      assert Keep([s], Hidden(sprites)) == if s.actor.state == Inactive then [] else [s] by {
        assert [s][1..] == [];
      }
    }
  }

  /** Every sprite whose actor is not INACTIVE gets a command, and no other. */
  lemma ShownSprites(sprites: seq<SpriteComponent>, s: SpriteComponent)
    ensures s in Keep(sprites, Hidden(sprites)) <==> s in sprites && s.actor.state != Inactive
  {
    KeepMember(sprites, Hidden(sprites), s);
  }

  /** The commands of one more sprite extend those of the prefix before it. */
  lemma SpriteCommandsPrefix(sprites: seq<SpriteComponent>, sheet: Texture, i: nat)
    requires i < |sprites|
    ensures SpriteCommands(sprites[..i + 1], sheet) == SpriteCommands(sprites[..i], sheet) +
      (if sprites[i].actor.state == Inactive then [] else [CommandFor(sprites[i], sheet)])
  {
    assert sprites[..i + 1][..i] == sprites[..i];
  }

  /** `sprite_update(ctx)`: appends to the context, after what it already
      holds, one command per registered sprite whose actor is not
      INACTIVE, in registry order.  `sheet` is the sprite sheet texture. */
  method SpriteUpdate(registry: Registry<SpriteComponent>, ctx: RenderContext, sheet: Texture)
    modifies ctx
    ensures ctx.commands == old(ctx.commands) + SpriteCommands(registry.items, sheet)
  {
    var sprites := registry.items;
    var i := 0;
    while i < |sprites|
      invariant 0 <= i <= |sprites|
      invariant ctx.commands == old(ctx.commands) + SpriteCommands(sprites[..i], sheet)
    {
      var sprite := sprites[i];
      SpriteCommandsPrefix(sprites, sheet, i);
      if sprite.actor.state != Inactive {
        var (offX, offY) := sprite.offset;
        var position := (sprite.actor.x as real + offX, sprite.actor.y as real + offY);
        ctx.Append(MaskedTextureRect(SpriteOrder, sheet, sprite.frame, position));
      }
      i := i + 1;
    }
    assert sprites[..i] == sprites;
  }
}
