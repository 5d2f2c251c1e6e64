/** Actors, the scene that ticks them, the action result convention and the
    subscriber list `Event`. */
module Foundation {
  import opened Lists

  /** `Actor.State`: INACTIVE = 0, ACTIVE = 1. */
  datatype ActorState = Inactive | Active

  type Position = (int, int)
  type Rect = (int, int, int, int)

  /** The value an `Action.__call__` hands back.  The documented contract is
      "finished if this call returns `True`", but the call sites test
      truthiness, and some actions return `None` or a callable object. */
  datatype CallResult = Bool(b: bool) | NoneValue | Callable(handle: nat)

  /** Python truthiness of a call result (a callable object is truthy). */
  predicate Truthy(r: CallResult) {
    match r
    case Bool(b) => b
    case NoneValue => false
    case Callable(_) => true
  }

  /** Finished in the sense of the `Action` docstring: the call returned `True`. */
  predicate Finished(r: CallResult) {
    r == Bool(true)
  }

  class Actor {
    var x: int
    var y: int
    var state: ActorState
    var scene: Scene?

    constructor (x: int, y: int)
      ensures this.x == x && this.y == y && Position() == (x, y)
      ensures state == Active && scene == null
    {
      this.x, this.y := x, y;
      state := Active;
      scene := null;
    }

    function Position(): Position
      reads this
    {
      (x, y)
    }
  }

  /** What one actor's own, abstract `tick()` did when the scene visited it:
      the action it returned (if not `None`) and the lifecycle state it left
      itself in. */
  datatype TickOutcome<A> = TickOutcome(action: Option<A>, state: ActorState)

  /** The non-`None` actions among the outcomes, in order. */
  function Yielded<A>(outcomes: seq<TickOutcome<A>>): seq<A> {
    if outcomes == [] then []
    else
      var last := outcomes[|outcomes| - 1];
      Yielded(outcomes[..|outcomes| - 1]) + (if last.action.Some? then [last.action.value] else [])
  }

  /** Every returned action is collected, and nothing else is. */
  lemma {:induction false} YieldedSpec<A>(outcomes: seq<TickOutcome<A>>)
    ensures |Yielded(outcomes)| <= |outcomes|
    ensures forall i :: 0 <= i < |outcomes| && outcomes[i].action.Some? ==> outcomes[i].action.value in Yielded(outcomes)
    ensures forall a :: a in Yielded(outcomes) ==> exists i :: 0 <= i < |outcomes| && outcomes[i].action == Some(a)
  {
    if outcomes != [] {
      var n := |outcomes| - 1;
      YieldedSpec(outcomes[..n]);
      assert forall i :: 0 <= i < n ==> outcomes[..n][i] == outcomes[i];
    }
  }

  /** The visited actors whose own tick left them INACTIVE, in visiting order. */
  function Deactivated<A>(actors: seq<Actor>, outcomes: seq<TickOutcome<A>>): seq<Actor>
    requires |actors| == |outcomes|
  {
    if actors == [] then []
    else
      var n := |actors| - 1;
      Deactivated(actors[..n], outcomes[..n]) + (if outcomes[n].state == Inactive then [actors[n]] else [])
  }

  /** Every actor left INACTIVE is listed, and only those are. */
  lemma {:induction false} DeactivatedSpec<A>(actors: seq<Actor>, outcomes: seq<TickOutcome<A>>)
    requires |actors| == |outcomes|
    ensures forall i :: 0 <= i < |actors| && outcomes[i].state == Inactive ==> actors[i] in Deactivated(actors, outcomes)
    ensures forall a :: a in Deactivated(actors, outcomes) ==>
      exists i :: 0 <= i < |actors| && a == actors[i] && outcomes[i].state == Inactive
  {
    if actors != [] {
      var n := |actors| - 1;
      DeactivatedSpec(actors[..n], outcomes[..n]);
      assert forall i :: 0 <= i < n ==> actors[..n][i] == actors[i] && outcomes[..n][i] == outcomes[i];
    }
  }

  /** One more visited outcome adds its action, if any. */
  lemma YieldedPrefix<A>(outcomes: seq<TickOutcome<A>>, i: nat)
    requires i < |outcomes|
    ensures Yielded(outcomes[..i + 1]) ==
      Yielded(outcomes[..i]) + if outcomes[i].action.Some? then [outcomes[i].action.value] else []
  {
    assert outcomes[..i + 1][..i] == outcomes[..i];
  }

  /** One more visited actor is added when its tick left it INACTIVE. */
  lemma DeactivatedPrefix<A>(actors: seq<Actor>, outcomes: seq<TickOutcome<A>>, i: nat)
    requires |actors| == |outcomes| && i < |outcomes|
    ensures Deactivated(actors[..i + 1], outcomes[..i + 1]) ==
      Deactivated(actors[..i], outcomes[..i]) + if outcomes[i].state == Inactive then [actors[i]] else []
  {
    assert outcomes[..i + 1][..i] == outcomes[..i];
    assert actors[..i + 1][..i] == actors[..i];
  }

  /** A scene is a list of actors that is the owner of their
      membership; each member's `scene` points back at it. */
  class Scene {
    var actors: seq<Actor>

    /** `Scene(actors)`: copies the given actors and points each one's
        `scene` at the new scene. */
    constructor (init: seq<Actor>)
      modifies init`scene
      ensures actors == init
      ensures forall a :: a in init ==> a.scene == this
    {
      actors := init;
      new;
      var i := 0;
      while i < |init|
        invariant 0 <= i <= |init| && actors == init
        invariant forall k :: 0 <= k < i ==> init[k].scene == this
      {
        init[i].scene := this;
        i := i + 1;
      }
    }

    /** `Scene()` with its default argument `None` raises, because `list(None)`
        fails; with a list it builds the scene. */
    static method Create(init: Option<seq<Actor>>) returns (s: Option<Scene>)
      modifies if init.Some? then init.value else []
      ensures init.None? <==> s.None?
      ensures s.Some? ==> fresh(s.value) && s.value.actors == init.value
      ensures s.Some? ==> forall a :: a in init.value ==> a.scene == s.value
    {
      match init
      case None => s := None;
      case Some(actors) =>
        var scene := new Scene(actors);
        s := Some(scene);
    }

    method Append(actor: Actor)
      modifies this, actor`scene
      ensures actors == old(actors) + [actor]
      ensures actor.scene == this
    {
      actors := actors + [actor];
      actor.scene := this;
    }

    method Extend(more: seq<Actor>)
      modifies this, more`scene
      ensures actors == old(actors) + more
      ensures forall a :: a in more ==> a.scene == this
    {
      actors := actors + more;
      var i := 0;
      while i < |more|
        invariant 0 <= i <= |more| && actors == old(actors) + more
        invariant forall k :: 0 <= k < i ==> more[k].scene == this
      {
        more[i].scene := this;
        i := i + 1;
      }
    }

    /** One full pass of `Scene.tick`, run to completion.  Every member is
        ticked in list order whatever its state (`outcomes[i]` is what the
        i-th member's tick did); the non-`None` actions come back in that
        order; afterwards the members found INACTIVE after their own tick are
        removed, "destroyed" (`destroyed` lists the `destroy()` calls in
        order) and detached. */
    method Tick<A>(outcomes: seq<TickOutcome<A>>) returns (actions: seq<A>, destroyed: seq<Actor>)
      requires |outcomes| == |actors| && Distinct(actors)
      modifies this, actors`state, actors`scene
      ensures actions == Yielded(outcomes)
      ensures destroyed == Deactivated(old(actors), outcomes)
      ensures actors == Keep(old(actors), set a | a in destroyed) && Distinct(actors)
      ensures forall i :: 0 <= i < |old(actors)| ==> old(actors)[i].state == outcomes[i].state
      ensures forall i :: 0 <= i < |old(actors)| ==>
        (old(actors)[i] in actors <==> outcomes[i].state != Inactive)
      ensures forall a :: a in destroyed ==> a.scene == null
      ensures forall a :: a in actors ==> a.scene == old(a.scene)
    {
      actions, destroyed := Visit(outcomes);
      ghost var members := actors;
      RemovedExactlyDeactivated(members, outcomes);
      KeepLeavesDropped(members, set a | a in destroyed);
      assert members == old(actors) && forall i :: 0 <= i < |destroyed| ==> destroyed[i] in members;
      Detach(destroyed);
      assert forall i :: 0 <= i < |members| ==> members[i].state == outcomes[i].state;
    }

    /** The ticking loop of `Scene.tick`: membership does not change. */
    method Visit<A>(outcomes: seq<TickOutcome<A>>) returns (actions: seq<A>, marked: seq<Actor>)
      requires |outcomes| == |actors| && Distinct(actors)
      modifies actors`state
      ensures actions == Yielded(outcomes)
      ensures marked == Deactivated(actors, outcomes)
      ensures forall i :: 0 <= i < |actors| ==> actors[i].state == outcomes[i].state
    {
      actions, marked := [], [];
      var i := 0;
      while i < |actors|
        invariant 0 <= i <= |actors|
        invariant actions == Yielded(outcomes[..i])
        invariant marked == Deactivated(actors[..i], outcomes[..i])
        invariant forall k :: 0 <= k < i ==> actors[k].state == outcomes[k].state
      {
        var actor := actors[i];
        actor.state := outcomes[i].state;
        if outcomes[i].action.Some? {
          actions := actions + [outcomes[i].action.value];
        }
        if actor.state == Inactive {
          marked := marked + [actor];
        }
        YieldedPrefix(outcomes, i);
        DeactivatedPrefix(actors, outcomes, i);
        i := i + 1;
      }
      assert outcomes[..i] == outcomes && actors[..i] == actors;
    }

    /** The removal loop of `Scene.tick`: each marked actor leaves the list
        (on a list without repeats, `remove` of a member always succeeds),
        has `destroy()` called and its `scene` cleared. */
    method Detach(marked: seq<Actor>)
      requires Distinct(actors)
      modifies this, marked`scene
      ensures actors == Keep(old(actors), set a | a in marked)
      ensures forall a :: a in marked ==> a.scene == null
    {
      ghost var members := actors;
      ghost var gone: set<Actor> := {};
      KeepNothing(members);
      var j := 0;
      while j < |marked|
        invariant 0 <= j <= |marked|
        invariant gone == set a | a in marked[..j]
        invariant actors == Keep(members, gone)
        invariant forall a :: a in marked[..j] ==> a.scene == null
      {
        var actor := marked[j];
        RemoveFirstIsKeep(members, gone, actor);
        actors := RemoveFirst(actors, actor);
        actor.scene := null;
        gone := gone + {actor};
        assert marked[..j + 1] == marked[..j] + [actor];
        j := j + 1;
      }
      assert marked[..j] == marked;
    }
  }

  /** On a scene without repeated members, the members that survive the
      removal loop are exactly those whose own tick did not leave them
      INACTIVE, still without repeats. */
  lemma RemovedExactlyDeactivated<A>(actors: seq<Actor>, outcomes: seq<TickOutcome<A>>)
    requires |actors| == |outcomes| && Distinct(actors)
    ensures forall a :: a in Deactivated(actors, outcomes) ==> a in actors
    ensures Distinct(Keep(actors, set a | a in Deactivated(actors, outcomes)))
    ensures forall i :: 0 <= i < |actors| ==>
      (actors[i] in Keep(actors, set a | a in Deactivated(actors, outcomes)) <==> outcomes[i].state != Inactive)
  {
    var gone := set a | a in Deactivated(actors, outcomes);
    DeactivatedSpec(actors, outcomes);
    KeepDistinct(actors, gone);
    forall i | 0 <= i < |actors|
      ensures actors[i] in Keep(actors, gone) <==> outcomes[i].state != Inactive
    {
      KeepMember(actors, gone, actors[i]);
    }
  }

  /** `Event`: an ordered subscriber list.  `L` stands for the listener
      callables, compared by Python equality. */
  class Event<L(==)> {
    var subscribers: seq<L>

    constructor ()
      ensures subscribers == []
    {
      subscribers := [];
    }

    /** `event += listener`: appended at the end, no deduplication. */
    method Subscribe(listener: L)
      modifies this
      ensures subscribers == old(subscribers) + [listener]
      ensures |subscribers| == |old(subscribers)| + 1
    {
      subscribers := subscribers + [listener];
    }

    /** `event -= listener`: drops the first equal subscriber; `ok` is false
        exactly when the listener is absent (the call raises) and then
        nothing changes. */
    method Unsubscribe(listener: L) returns (ok: bool)
      modifies this
      ensures ok <==> listener in old(subscribers)
      ensures subscribers == RemoveFirst(old(subscribers), listener)
    {
      ok := listener in subscribers;
      subscribers := RemoveFirst(subscribers, listener);
    }

    /** `event(*args)`: every subscriber is called once, in list order, with
        the same arguments; `calls` is that sequence of calls. */
    method Invoke<Args>(args: Args) returns (calls: seq<(L, Args)>)
      ensures |calls| == |subscribers|
      ensures forall i :: 0 <= i < |calls| ==> calls[i] == (subscribers[i], args)
    {
      calls := [];
      var i := 0;
      while i < |subscribers|
        invariant 0 <= i <= |subscribers| && |calls| == i
        invariant forall k :: 0 <= k < i ==> calls[k] == (subscribers[k], args)
      {
        calls := calls + [(subscribers[i], args)];
        i := i + 1;
      }
    }
  }
}
