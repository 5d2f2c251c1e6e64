/** The game's actions: deferred work that an actor hands to the game, called
    once per tick until it reports finished.  What a call returns is a
    `CallResult`: by the `Action` contract the action is finished when the
    call returns `True`. */
module Actions {
  import opened Lists
  import opened Foundation
  import opened Humanoids

  /** `FuncAction(callable)`: calling it hands back the stored callable
      itself, which is truthy, without calling it. */
  class FuncAction {
    const callable: nat

    constructor (callable: nat)
      ensures this.callable == callable
    {
      this.callable := callable;
    }

    method Call() returns (r: CallResult)
      ensures r == Callable(callable)
      ensures Truthy(r) && !Finished(r)
    {
      r := Callable(callable);
    }
  }

  /** The game state's `pickups` list: the names of the items picked up, in
      order.  Only the appends of this core are modelled. */
  class PickupLog {
    var names: seq<string>

    constructor ()
      ensures names == []
    {
      names := [];
    }
  }

  /** `WieldItemAction(humanoid, item, name)`: puts the item into a free
      hand of the humanoid, records its name among the pickups and
      finishes, whether or not a hand was free. */
  class WieldItemAction {
    const humanoid: HumanoidComponent
    const item: Item
    const name: string

    constructor (humanoid: HumanoidComponent, item: Item, name: string)
      ensures this.humanoid == humanoid && this.item == item && this.name == name
    {
      this.humanoid, this.item, this.name := humanoid, item, name;
    }

    method Call(pickups: PickupLog) returns (r: CallResult)
      requires humanoid.Valid() && humanoid.body.registry.Valid()
      modifies humanoid`leftHand, humanoid`rightHand, humanoid.body.registry, pickups
      ensures Finished(r)
      ensures pickups.names == old(pickups.names) + [name]
      ensures humanoid.Valid() && humanoid.body.registry.Valid()
      ensures old(humanoid.leftHand).None? ==>
        humanoid.leftHand.Some? && humanoid.leftHand.value.item == item && humanoid.rightHand == old(humanoid.rightHand) &&
        fresh(humanoid.leftHand.value.sprite) && humanoid.leftHand.value.sprite.frame == Some(item.image) &&
        humanoid.leftHand.value.sprite.offset == LeftHandOffset &&
        humanoid.body.registry.items == old(humanoid.body.registry.items) + [humanoid.leftHand.value.sprite]
      ensures old(humanoid.leftHand).Some? && old(humanoid.rightHand).None? ==>
        humanoid.rightHand.Some? && humanoid.rightHand.value.item == item && humanoid.leftHand == old(humanoid.leftHand) &&
        fresh(humanoid.rightHand.value.sprite) && humanoid.rightHand.value.sprite.frame == Some(item.image) &&
        humanoid.rightHand.value.sprite.offset == RightHandOffset &&
        humanoid.body.registry.items == old(humanoid.body.registry.items) + [humanoid.rightHand.value.sprite]
      ensures old(humanoid.leftHand).Some? && old(humanoid.rightHand).Some? ==>
        humanoid.leftHand == old(humanoid.leftHand) && humanoid.rightHand == old(humanoid.rightHand) &&
        humanoid.body.registry.items == old(humanoid.body.registry.items)
    {
      var _ := humanoid.WieldItem(item);
      pickups.names := pickups.names + [name];
      r := Bool(true);
    }
  }

  /** How many sub-actions, from the head of the queue, report a truthy
      result when called: `replies[k]` is what the k-th queued sub-action
      returns if it is called. */
  function Done(replies: seq<CallResult>): (n: nat)
    ensures n <= |replies|
    ensures forall k :: 0 <= k < n ==> Truthy(replies[k])
    ensures n < |replies| ==> !Truthy(replies[n])
  {
    if replies == [] || !Truthy(replies[0]) then 0 else 1 + Done(replies[1..])
  }

  /** `SequenceAction(actions)`: a queue of sub-actions run head first. */
  class SequenceAction<A> {
    var actions: seq<A>

    constructor (actions: seq<A>)
      ensures this.actions == actions
    {
      this.actions := actions;
    }

    /** One call: the head is called; while it reports truthy it is popped
        and the new head is called in the same call.  A falsy head stops
        the call with `False` and stays queued.  When the queue is (or
        becomes) empty the call falls off its end and returns `None`, so it
        never returns `True`: by the `Action` contract a sequence is never
        finished, even an empty one.  `invoked` lists the sub-actions
        called, in order. */
    method Call(replies: seq<CallResult>) returns (r: CallResult, invoked: seq<A>)
      requires |replies| == |actions|
      modifies this
      ensures var n := Done(replies);
        actions == old(actions)[n..] &&
        invoked == old(actions)[..if n < |replies| then n + 1 else n] &&
        r == if n < |replies| then Bool(false) else NoneValue
      ensures !Finished(r)
      ensures old(actions) == [] ==> r == NoneValue && invoked == []
      ensures old(actions) != [] && !Truthy(replies[0]) ==>
        r == Bool(false) && actions == old(actions) && invoked == old(actions)[..1]
    {
      var k := 0;
      invoked := [];
      while actions != []
        invariant 0 <= k <= |replies| && k <= Done(replies)
        invariant actions == old(actions)[k..] && invoked == old(actions)[..k]
      {
        invoked := invoked + [actions[0]];
        assert old(actions)[..k + 1] == old(actions)[..k] + [old(actions)[k]];
        if !Truthy(replies[k]) {
          return Bool(false), invoked;
        }
        DoneTruthy(replies, k);
        actions := actions[1..];
        k := k + 1;
      }
      r := NoneValue;
    }
  }

  /** A truthy reply at `k`, with all before it truthy, extends the run. */
  lemma {:induction false} DoneTruthy(replies: seq<CallResult>, k: nat)
    requires k < |replies| && k <= Done(replies) && Truthy(replies[k])
    ensures k < Done(replies)
  {
    if k > 0 {
      DoneTruthy(replies[1..], k - 1);
    }
  }

  /** What a sequence call would return if exhausting the queue reported
      finished, as the `Action` contract and the empty-sequence case call
      for: `True` exactly when every queued sub-action finished. */
  function IntendedSequenceResult(replies: seq<CallResult>): (r: CallResult)
    ensures Finished(r) <==> forall k :: 0 <= k < |replies| ==> Truthy(replies[k])
    ensures replies == [] ==> Finished(r)
  {
    if Done(replies) < |replies| then Bool(false) else Bool(true)
  }

  /** `ShowMessageAction(message)`: the first call shows the message and
      reports unfinished; every later call shows nothing and reports
      finished once the UI no longer waits for the prompt. */
  class ShowMessageAction {
    const message: string
    var shown: bool

    constructor (message: string)
      ensures this.message == message && !shown
    {
      this.message := message;
      shown := false;
    }

    /** `prompt` is the UI's "waiting for a key press" flag at the time of
        the call; `showed` is the message handed to `show_message`, if any. */
    method Call(prompt: bool) returns (r: CallResult, showed: Option<string>)
      modifies this`shown
      ensures shown
      ensures !old(shown) ==> showed == Some(message) && r == Bool(false)
      ensures old(shown) ==> showed == None && r == Bool(!prompt)
      ensures Finished(r) <==> old(shown) && !prompt
    {
      if !shown {
        showed := Some(message);
        shown := true;
        return Bool(false), showed;
      }
      showed := None;
      r := Bool(!prompt);
    }
  }

  /** `SpawnActorsAction(factory, scene)`: one call extends the scene with
      what the factory returns and finishes. */
  class SpawnActorsAction {
    const scene: Scene

    constructor (scene: Scene)
      ensures this.scene == scene
    {
      this.scene := scene;
    }

    /** `spawned` is what the factory returns on this call. */
    method Call(spawned: seq<Actor>) returns (r: CallResult)
      modifies scene, spawned`scene
      ensures Finished(r)
      ensures scene.actors == old(scene.actors) + spawned
      ensures forall a :: a in spawned ==> a.scene == scene
    {
      scene.Extend(spawned);
      r := Bool(true);
    }
  }

  /** `DestroyActorsAction(actors)`: one call sets every listed actor
      INACTIVE (so the scene removes it at the end of its next pass) and
      finishes.  Calling it again changes nothing more. */
  class DestroyActorsAction {
    const actors: seq<Actor>

    constructor (actors: seq<Actor>)
      ensures this.actors == actors
    {
      this.actors := actors;
    }

    method Call() returns (r: CallResult)
      modifies actors`state
      ensures Finished(r)
      ensures forall a :: a in actors ==> a.state == Inactive
    {
      var i := 0;
      while i < |actors|
        invariant 0 <= i <= |actors|
        invariant forall k :: 0 <= k < i ==> actors[k].state == Inactive
      {
        actors[i].state := Inactive;
        i := i + 1;
      }
      r := Bool(true);
    }
  }
}
