/** Square colliders: `CollisionComponent`, its registry and
    `collider_system_update`, which records for every collider one other
    actor it overlaps. */
module Collision {
  import opened Lists
  import opened Foundation
  import opened Registries

  class CollisionComponent {
    const actor: Actor
    /** Side of the collider's square, whose top-left corner is the actor's position. */
    const size: int
    const registry: Registry<CollisionComponent>
    /** The actor last found overlapping this collider, if any. */
    var collision: Actor?

    /** Registers a new collider, with no collision. */
    constructor (actor: Actor, size: int, registry: Registry<CollisionComponent>)
      requires registry.Valid()
      modifies registry
      ensures registry.Valid() && registry.items == old(registry.items) + [this]
      ensures this.actor == actor && this.size == size && this.registry == registry
      ensures collision == null
    {
      this.actor, this.size, this.registry := actor, size, registry;
      collision := null;
      new;
      registry.Add(this);
    }

    /** `destroy`: `ok` is false when the collider was not registered (the
        source raises). */
    method Destroy() returns (ok: bool)
      requires registry.Valid()
      modifies registry
      ensures registry.Valid()
      ensures ok <==> this in old(registry.items)
      ensures registry.items == RemoveFirst(old(registry.items), this)
    {
      ok := registry.Remove(this);
    }
  }

  /** A collider's square: its actor's position and its size. */
  datatype Box = Box(x: int, y: int, size: int)

  function BoxOf(c: CollisionComponent): Box
    reads c.actor
  {
    Box(c.actor.x, c.actor.y, c.size)
  }

  function BoxesOf(cs: seq<CollisionComponent>): (bs: seq<Box>)
    reads set c | c in cs :: c.actor
    ensures |bs| == |cs| && forall i :: 0 <= i < |cs| ==> bs[i] == BoxOf(cs[i])
  {
    if cs == [] then [] else BoxesOf(cs[..|cs| - 1]) + [BoxOf(cs[|cs| - 1])]
  }

  /** The overlap test of `collider_system_update`: a strict test on both
      axes, so squares that only touch do not overlap. */
  predicate Overlaps(a: Box, b: Box) {
    a.x < b.x + b.size && a.x + a.size > b.x && a.y < b.y + b.size && a.y + a.size > b.y
  }

  lemma OverlapsSymmetric(a: Box, b: Box)
    ensures Overlaps(a, b) <==> Overlaps(b, a)
  {
  }

  /** The highest index below `n`, other than `k`, whose square overlaps
      square `k`. */
  function LastPartner(bs: seq<Box>, k: nat, n: nat): Option<nat>
    requires k < |bs| && n <= |bs|
  {
    if n == 0 then None
    else if n - 1 != k && Overlaps(bs[k], bs[n - 1]) then Some(n - 1)
    else LastPartner(bs, k, n - 1)
  }

  /** `LastPartner` finds an overlapping index, with none higher, and finds
      none exactly when no index overlaps. */
  lemma {:induction false} LastPartnerSpec(bs: seq<Box>, k: nat, n: nat)
    requires k < |bs| && n <= |bs|
    ensures var r := LastPartner(bs, k, n);
      (r.Some? ==> r.value < n && r.value != k && Overlaps(bs[k], bs[r.value])) &&
      (r.Some? ==> forall p :: r.value < p < n && p != k ==> !Overlaps(bs[k], bs[p])) &&
      (r.None? <==> forall p :: 0 <= p < n && p != k ==> !Overlaps(bs[k], bs[p]))
  {
    if n > 0 {
      LastPartnerSpec(bs, k, n - 1);
    }
  }

  /** The actor of the collider at index `r`, or `null` for none. */
  function ActorAt(cs: seq<CollisionComponent>, r: Option<nat>): Actor? {
    if r.Some? && r.value < |cs| then cs[r.value].actor else null
  }

  /** What collider `k` holds, as an index into the colliders, after the
      first `i` rounds of the outer loop, replaying the assignments in
      order (`None` for the reset value). */
  function HeldAfter(bs: seq<Box>, k: nat, i: nat): Option<nat>
    requires k < |bs| && i <= |bs|
    decreases i, 0
  {
    if i == 0 then None else HeldDuring(bs, k, i - 1, |bs|)
  }

  /** What collider `k` holds during round `i`, once collider `i` has been
      tested against the colliders before `j`: a distinct overlapping pair
      `(i, j)` stores each one's index into the other. */
  function HeldDuring(bs: seq<Box>, k: nat, i: nat, j: nat): Option<nat>
    requires k < |bs| && i < |bs| && j <= |bs|
    decreases i, j + 1
  {
    if j == 0 then HeldAfter(bs, k, i)
    else
      var hit := i != j - 1 && Overlaps(bs[i], bs[j - 1]);
      if hit && k == i then Some(j - 1)
      else if hit && k == j - 1 then Some(i)
      else HeldDuring(bs, k, i, j - 1)
  }

  /** The same, in closed form after `i` rounds: before its own round, `k`
      holds its last overlapping partner among those rounds; after it, a
      later overlapping round, or else the last partner found in its own
      round. */
  function AfterRounds(bs: seq<Box>, k: nat, i: nat): Option<nat>
    requires k < |bs| && i <= |bs|
  {
    if i <= k then LastPartner(bs, k, i)
    else
      var q := LastPartner(bs, k, i);
      if q.Some? && q.value > k then q else LastPartner(bs, k, |bs|)
  }

  /** The same, in closed form during round `i`: collider `i` itself holds
      its last partner so far, any other collider the round's own index if
      they overlap and it has been reached. */
  function InRound(bs: seq<Box>, k: nat, i: nat, j: nat): Option<nat>
    requires k < |bs| && i < |bs| && j <= |bs|
  {
    if k == i then
      var q := LastPartner(bs, i, j);
      if q.Some? then q else AfterRounds(bs, k, i)
    else if k < j && Overlaps(bs[i], bs[k]) then Some(i)
    else AfterRounds(bs, k, i)
  }

  /** Replaying the rounds agrees with the closed form. */
  lemma {:induction false} HeldAfterClosed(bs: seq<Box>, k: nat, i: nat)
    requires k < |bs| && i <= |bs|
    ensures HeldAfter(bs, k, i) == AfterRounds(bs, k, i)
    decreases i, 0
  {
    if i > 0 {
      HeldDuringClosed(bs, k, i - 1, |bs|);
      RoundEnd(bs, k, i - 1);
    }
  }

  lemma {:induction false} HeldDuringClosed(bs: seq<Box>, k: nat, i: nat, j: nat)
    requires k < |bs| && i < |bs| && j <= |bs|
    ensures HeldDuring(bs, k, i, j) == InRound(bs, k, i, j)
    decreases i, j + 1
  {
    if j == 0 {
      HeldAfterClosed(bs, k, i);
    } else {
      HeldDuringClosed(bs, k, i, j - 1);
      RoundStep(bs, k, i, j - 1);
    }
  }

  /** Testing collider `i` against collider `j` changes what `k` holds only
      when the two are distinct and overlap and `k` is one of them; then
      each receives the other's index. */
  lemma RoundStep(bs: seq<Box>, k: nat, i: nat, j: nat)
    requires k < |bs| && i < |bs| && j < |bs|
    ensures InRound(bs, k, i, j + 1) ==
      if i != j && Overlaps(bs[i], bs[j]) && k == i then Some(j)
      else if i != j && Overlaps(bs[i], bs[j]) && k == j then Some(i)
      else InRound(bs, k, i, j)
  {
    OverlapsSymmetric(bs[i], bs[j]);
  }

  /** A round, once complete, is one more of the rounds done. */
  lemma RoundEnd(bs: seq<Box>, k: nat, i: nat)
    requires k < |bs| && i < |bs|
    ensures InRound(bs, k, i, |bs|) == AfterRounds(bs, k, i + 1)
  {
    if k == i {
      LastPartnerSpec(bs, k, |bs|);
      LastPartnerSpec(bs, k, k);
    } else {
      OverlapsSymmetric(bs[i], bs[k]);
      LastPartnerAt(bs, k, i);
    }
  }

  /** Bringing in index `i` as a candidate partner of `k`. */
  lemma LastPartnerAt(bs: seq<Box>, k: nat, i: nat)
    requires k < |bs| && i < |bs| && i != k
    ensures LastPartner(bs, k, i + 1) == if Overlaps(bs[k], bs[i]) then Some(i) else LastPartner(bs, k, i)
  {
  }

  /** After every round, collider `k` holds the highest-index other collider
      overlapping it: later overlapping pairs overwrite earlier ones. */
  lemma AllRounds(bs: seq<Box>, k: nat)
    requires k < |bs|
    ensures HeldAfter(bs, k, |bs|) == LastPartner(bs, k, |bs|)
  {
    HeldAfterClosed(bs, k, |bs|);
  }

  /** No actor is recorded exactly when there is no partner. */
  lemma NoPartnerNoActor(cs: seq<CollisionComponent>, bs: seq<Box>, k: nat)
    requires |bs| == |cs| && k < |cs|
    ensures ActorAt(cs, LastPartner(bs, k, |cs|)) == null <==>
      forall p :: 0 <= p < |bs| && p != k ==> !Overlaps(bs[k], bs[p])
  {
    LastPartnerSpec(bs, k, |bs|);
  }

  /** `collider_system_update`: every collision is reset, then each ordered
      pair of distinct overlapping colliders writes each one's actor into
      the other.  Finally a collider holds the actor of the last other
      collider in registry order that overlaps it, and `null` exactly when
      none does. */
  method ColliderSystemUpdate(registry: Registry<CollisionComponent>)
    requires registry.Valid()
    modifies registry.items`collision
    ensures forall k :: 0 <= k < |registry.items| ==>
      registry.items[k].collision == ActorAt(registry.items, LastPartner(BoxesOf(registry.items), k, |registry.items|))
    ensures var bs := BoxesOf(registry.items);
      forall k :: 0 <= k < |registry.items| ==>
        (registry.items[k].collision == null <==> forall p :: 0 <= p < |bs| && p != k ==> !Overlaps(bs[k], bs[p]))
  {
    var cs := registry.items;
    ghost var bs := BoxesOf(cs);
    ghost var ix := (c: CollisionComponent) => if c in cs then IndexOf(cs, c) else 0;
    forall k | 0 <= k < |cs| ensures ix(cs[k]) == k {
      DistinctIndexOf(cs, k);
    }
    ResetCollisions(cs);
    SweepAll(cs, bs, ix);
    PlacedBoxes(cs, bs);
    SweepCloses(cs, bs);
    assert registry.items == cs;
  }

  /** After the last round every collider holds its last partner's actor. */
  lemma SweepCloses(cs: seq<CollisionComponent>, bs: seq<Box>)
    requires bs == BoxesOf(cs) && HoldsAfter(cs, bs, |cs|)
    ensures forall k :: 0 <= k < |cs| ==> cs[k].collision == ActorAt(cs, LastPartner(BoxesOf(cs), k, |cs|))
    ensures var bs := BoxesOf(cs);
      forall k :: 0 <= k < |cs| ==>
        (cs[k].collision == null <==> forall p :: 0 <= p < |bs| && p != k ==> !Overlaps(bs[k], bs[p]))
  {
    forall k | 0 <= k < |cs|
      ensures cs[k].collision == ActorAt(cs, LastPartner(bs, k, |cs|))
      ensures cs[k].collision == null <==> forall p :: 0 <= p < |bs| && p != k ==> !Overlaps(bs[k], bs[p])
    {
      AllRounds(bs, k);
      NoPartnerNoActor(cs, bs, k);
    }
  }

  /** The first loop of `collider_system_update`. */
  method ResetCollisions(cs: seq<CollisionComponent>)
    modifies cs`collision
    ensures forall k :: 0 <= k < |cs| ==> cs[k].collision == null
  {
    var i := 0;
    while i < |cs|
      invariant 0 <= i <= |cs|
      invariant forall k :: 0 <= k < i ==> cs[k].collision == null
    {
      cs[i].collision := null;
      i := i + 1;
    }
  }

  /** `ix` tells the colliders apart by their position: none is listed twice. */
  ghost predicate Indexed(cs: seq<CollisionComponent>, ix: CollisionComponent -> nat) {
    forall k :: 0 <= k < |cs| ==> ix(cs[k]) == k
  }

  /** `bs` are the colliders' current squares. */
  ghost predicate Placed(cs: seq<CollisionComponent>, bs: seq<Box>)
    reads set c | c in cs :: c.actor
  {
    |bs| == |cs| && forall k :: 0 <= k < |cs| ==> bs[k] == BoxOf(cs[k])
  }

  lemma PlacedBoxes(cs: seq<CollisionComponent>, bs: seq<Box>)
    requires Placed(cs, bs)
    ensures BoxesOf(cs) == bs
  {
  }

  /** Every collider holds what the first `i` rounds leave in it. */
  ghost predicate HoldsAfter(cs: seq<CollisionComponent>, bs: seq<Box>, i: nat)
    reads cs
    requires |bs| == |cs| && i <= |cs|
  {
    forall k :: 0 <= k < |cs| ==> cs[k].collision == ActorAt(cs, HeldAfter(bs, k, i))
  }

  /** Every collider holds what round `i` leaves in it up to collider `j`. */
  ghost predicate HoldsDuring(cs: seq<CollisionComponent>, bs: seq<Box>, i: nat, j: nat)
    reads cs
    requires |bs| == |cs| && i < |cs| && j <= |cs|
  {
    forall k :: 0 <= k < |cs| ==> cs[k].collision == ActorAt(cs, HeldDuring(bs, k, i, j))
  }

  /** The nested loops of `collider_system_update`, after the reset (`bs`
      are the colliders' squares, which the update does not move). */
  method SweepAll(cs: seq<CollisionComponent>, ghost bs: seq<Box>, ghost ix: CollisionComponent -> nat)
    requires Indexed(cs, ix) && Placed(cs, bs)
    requires forall k :: 0 <= k < |cs| ==> cs[k].collision == null
    modifies cs`collision
    ensures Placed(cs, bs) && HoldsAfter(cs, bs, |cs|)
  {
    SweepOpens(cs, bs);
    var i := 0;
    while i < |cs|
      invariant 0 <= i <= |cs| && Placed(cs, bs)
      invariant HoldsAfter(cs, bs, i)
    {
      TestAgainstAll(cs, bs, ix, i);
      i := i + 1;
    }
    assert i == |cs|;
  }

  /** After the reset, no round has been done. */
  lemma SweepOpens(cs: seq<CollisionComponent>, bs: seq<Box>)
    requires |bs| == |cs| && forall k :: 0 <= k < |cs| ==> cs[k].collision == null
    ensures HoldsAfter(cs, bs, 0)
  {
  }

  /** One round of the outer loop: collider `i` is tested against every
      collider, itself skipped, and each overlap is written both ways. */
  method TestAgainstAll(cs: seq<CollisionComponent>, ghost bs: seq<Box>, ghost ix: CollisionComponent -> nat, i: nat)
    requires Indexed(cs, ix) && Placed(cs, bs) && i < |cs|
    requires HoldsAfter(cs, bs, i)
    modifies cs`collision
    ensures Placed(cs, bs) && HoldsAfter(cs, bs, i + 1)
  {
    RoundOpens(cs, bs, i);
    var j := 0;
    while j < |cs|
      invariant 0 <= j <= |cs| && Placed(cs, bs)
      invariant HoldsDuring(cs, bs, i, j)
    {
      TestPair(cs, bs, ix, i, j);
      j := j + 1;
    }
    RoundCloses(cs, bs, i, j);
  }

  lemma RoundOpens(cs: seq<CollisionComponent>, bs: seq<Box>, i: nat)
    requires |bs| == |cs| && i < |cs| && HoldsAfter(cs, bs, i)
    ensures HoldsDuring(cs, bs, i, 0)
  {
  }

  lemma RoundCloses(cs: seq<CollisionComponent>, bs: seq<Box>, i: nat, j: nat)
    requires |bs| == |cs| && i < |cs| && j == |cs| && HoldsDuring(cs, bs, i, j)
    ensures HoldsAfter(cs, bs, i + 1)
  {
  }

  /** The body of the inner loop: collider `i` against collider `j`. */
  method TestPair(cs: seq<CollisionComponent>, ghost bs: seq<Box>, ghost ix: CollisionComponent -> nat, i: nat, j: nat)
    requires Indexed(cs, ix) && Placed(cs, bs) && i < |cs| && j < |cs|
    requires HoldsDuring(cs, bs, i, j)
    modifies cs`collision
    ensures Placed(cs, bs) && HoldsDuring(cs, bs, i, j + 1)
  {
    var col, other := cs[i], cs[j];
    if col != other {
      var x0, y0, s0 := col.actor.x, col.actor.y, col.size;
      var x1, y1, s1 := other.actor.x, other.actor.y, other.size;
      if x0 < x1 + s1 && x0 + s0 > x1 && y0 < y1 + s1 && y0 + s0 > y1 {
        col.collision := other.actor;
        other.collision := col.actor;
      }
    }
  }
}
