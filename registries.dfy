/** The per-system component lists (`_colliders`, `_walk_components`,
    `_movement_components`, `_sprite_components`).  The source keeps each as a
    module global list; here each is an explicit object.  Components append
    themselves on construction and remove themselves on `destroy`, where an
    absent entry makes Python's `list.remove` raise. */
module Registries {
  import opened Lists

  class Registry<T(==)> {
    var items: seq<T>

    /** Every member joined by its (freshly built) component's constructor,
        so no component is listed twice. */
    ghost predicate Valid()
      reads this
    {
      Distinct(items)
    }

    constructor ()
      ensures Valid() && items == []
    {
      items := [];
    }

    /** `_registry.append(component)`; callers pass a component that was
        just created, hence not yet present. */
    method Add(x: T)
      requires Valid() && x !in items
      modifies this
      ensures Valid() && items == old(items) + [x]
    {
      items := items + [x];
    }

    /** `_registry.remove(component)`: `ok` is false exactly when the call
        raises (the component is not registered), and then nothing changes. */
    method Remove(x: T) returns (ok: bool)
      requires Valid()
      modifies this
      ensures Valid()
      ensures ok <==> x in old(items)
      ensures items == RemoveFirst(old(items), x)
      ensures x !in items
    {
      ok := x in items;
      ghost var kept := Keep(items, {x});
      assert RemoveFirst(items, x) == kept by {
        KeepNothing(items);
        RemoveFirstIsKeep(items, {}, x);
        assert {} + {x} == {x};
      }
      KeepDistinct(items, {x});
      assert x !in kept;
      items := RemoveFirst(items, x);
    }
  }

  /** What successive `destroy()` calls for the components `xs` leave of the
      list `items`: each call removes its entry; the first call that finds
      none raises, so the calls after it never happen. */
  function Deregistered<T(==)>(items: seq<T>, xs: seq<T>): seq<T>
    decreases |xs|
  {
    if xs == [] || xs[0] !in items then items
    else Deregistered(RemoveFirst(items, xs[0]), xs[1..])
  }

  /** None of those calls raised. */
  predicate AllDeregistered<T(==)>(items: seq<T>, xs: seq<T>)
    decreases |xs|
  {
    xs == [] || (xs[0] in items && AllDeregistered(RemoveFirst(items, xs[0]), xs[1..]))
  }

  /** On a registry without repetitions, destroying distinct components
      succeeds exactly when all of them are registered, and then removes
      exactly them, keeping the others in order. */
  lemma DeregisteredSpec<T>(items: seq<T>, xs: seq<T>)
    requires Distinct(items) && Distinct(xs)
    ensures AllDeregistered(items, xs) <==> forall x :: x in xs ==> x in items
    ensures AllDeregistered(items, xs) ==> Deregistered(items, xs) == Keep(items, set x | x in xs)
  {
    KeepNothing(items);
    DeregisteredFrom(items, {}, xs);
    assert (set x | x in xs) == {} + set x | x in xs;
  }

  lemma {:induction false} DeregisteredFrom<T>(items: seq<T>, gone: set<T>, xs: seq<T>)
    requires Distinct(items) && Distinct(xs)
    requires forall x :: x in xs ==> x !in gone
    ensures AllDeregistered(Keep(items, gone), xs) <==> forall x :: x in xs ==> x in items
    ensures AllDeregistered(Keep(items, gone), xs) ==>
      Deregistered(Keep(items, gone), xs) == Keep(items, gone + set x | x in xs)
    decreases |xs|
  {
    if xs == [] {
      assert gone + (set x | x in xs) == gone;
    } else {
      var x := xs[0];
      DistinctTail(xs);
      KeepMember(items, gone, x);
      if x in items {
        RemoveFirstIsKeep(items, gone, x);
        DeregisteredFrom(items, gone + {x}, xs[1..]);
        assert gone + {x} + (set y | y in xs[1..]) == gone + set y | y in xs by {
          assert xs == [x] + xs[1..];
        }
      }
    }
  }
}
