/** The frame dispatch of `gfx_frame`: the commands collected in a render
    context are sorted by (stage, order) with a stable sort and drawn, each
    run of one stage bracketed by that stage's `enter` and `exit`.  The
    render stages' own effects are not modelled; the frame is observed as a
    trace of enter, draw and exit events. */
module Gfx {
  import opened Lists
  import opened Foundation

  /** `StageID`: DEFAULT = 0, MASKED = 1, UI = 2. */
  datatype StageId = Default | Masked | UI

  function Rank(s: StageId): nat {
    match s
    case Default => 0
    case Masked => 1
    case UI => 2
  }

  /** A texture handle (the sprite sheet, a map texture). */
  type Texture = nat
  /** A color value. */
  type Color = nat

  /** The three draw command classes.  The textured ones carry the frame
      (`None` for a sprite without one) and a position that may be
      fractional; the outline one draws a rectangle in a color. */
  datatype DrawCommand =
    | RectOutline(order: int, rect: Rect, color: Color)
    | TextureRect(order: int, texture: Texture, frame: Option<Rect>, position: (real, real))
    | MaskedTextureRect(order: int, texture: Texture, frame: Option<Rect>, position: (real, real))
  {
    /** The stage each command class sets in its constructor. */
    function Stage(): (s: StageId)
      ensures (s == Masked) <==> this.MaskedTextureRect?
      ensures s != UI
    {
      match this
      case RectOutline(_, _, _) => Default
      case TextureRect(_, _, _, _) => Default
      case MaskedTextureRect(_, _, _, _) => Masked
    }
  }

  /** `RenderContext`: the list draw commands are appended to during a frame. */
  class RenderContext {
    var commands: seq<DrawCommand>

    constructor ()
      ensures commands == []
    {
      commands := [];
    }

    method Append(c: DrawCommand)
      modifies this
      ensures commands == old(commands) + [c]
    {
      commands := commands + [c];
    }
  }

  /** The sort key `(c.stage, c.order)` compared lexicographically. */
  predicate KeyLe(a: DrawCommand, b: DrawCommand) {
    Rank(a.Stage()) < Rank(b.Stage()) || (a.Stage() == b.Stage() && a.order <= b.order)
  }

  predicate SameKey(a: DrawCommand, b: DrawCommand) {
    a.Stage() == b.Stage() && a.order == b.order
  }

  ghost predicate Sorted(s: seq<DrawCommand>) {
    forall i, j :: 0 <= i < j < |s| ==> KeyLe(s[i], s[j])
  }

  /** Places `c` after every element of the sorted `s` whose key is not
      greater than its own. */
  function Insert(s: seq<DrawCommand>, c: DrawCommand): (r: seq<DrawCommand>)
    ensures |r| == |s| + 1
  {
    if s == [] || KeyLe(s[|s| - 1], c) then s + [c]
    else Insert(s[..|s| - 1], c) + [s[|s| - 1]]
  }

  /** `sorted(ctx, key=lambda c: (c.stage, c.order))`. */
  function SortCommands(s: seq<DrawCommand>): (r: seq<DrawCommand>)
    ensures |r| == |s|
  {
    if s == [] then [] else Insert(SortCommands(s[..|s| - 1]), s[|s| - 1])
  }

  /** The commands of `s` with the same key as `c`, in order. */
  function WithKeyOf(s: seq<DrawCommand>, c: DrawCommand): (r: seq<DrawCommand>)
    ensures |r| <= |s|
  {
    if s == [] then []
    else WithKeyOf(s[..|s| - 1], c) + (if SameKey(s[|s| - 1], c) then [s[|s| - 1]] else [])
  }

  lemma {:induction false} WithKeyOfAppend(s: seq<DrawCommand>, t: seq<DrawCommand>, c: DrawCommand)
    ensures WithKeyOf(s + t, c) == WithKeyOf(s, c) + WithKeyOf(t, c)
    decreases |t|
  {
    if t == [] {
      assert s + t == s;
    } else {
      var u := t[..|t| - 1];
      assert (s + t)[..|s + t| - 1] == s + u;
      WithKeyOfAppend(s, u, c);
    }
  }

  /** Inserting into a sorted sequence keeps it sorted. */
  lemma {:induction false} InsertSorted(s: seq<DrawCommand>, c: DrawCommand)
    requires Sorted(s)
    ensures Sorted(Insert(s, c))
  {
    if s == [] {
      assert Insert(s, c) == [c];
    } else {
      var p, l := s[..|s| - 1], s[|s| - 1];
      assert s == p + [l];
      SortedLast(s, p, l);
      if KeyLe(l, c) {
        SortedSnoc(s, c);
      } else {
        InsertSorted(p, c);
        InsertBounded(p, c, l);
        SortedSnoc(Insert(p, c), l);
      }
    }
  }

  /** The front of a sorted sequence is sorted and bounded by its last element. */
  lemma SortedLast(s: seq<DrawCommand>, p: seq<DrawCommand>, l: DrawCommand)
    requires Sorted(s) && s == p + [l]
    ensures Sorted(p)
    ensures forall i :: 0 <= i < |p| ==> KeyLe(p[i], l)
  {
    assert forall i :: 0 <= i < |p| ==> p[i] == s[i];
    assert s[|p|] == l;
  }

  lemma SortedSnoc(q: seq<DrawCommand>, l: DrawCommand)
    requires Sorted(q)
    requires forall i :: 0 <= i < |q| ==> KeyLe(q[i], l)
    ensures Sorted(q + [l])
  {
  }

  /** A bound on every element and on the inserted one bounds the result. */
  lemma {:induction false} InsertBounded(p: seq<DrawCommand>, c: DrawCommand, l: DrawCommand)
    requires forall i :: 0 <= i < |p| ==> KeyLe(p[i], l)
    requires KeyLe(c, l) || !KeyLe(l, c)
    ensures forall i :: 0 <= i < |Insert(p, c)| ==> KeyLe(Insert(p, c)[i], l)
  {
    if p == [] || KeyLe(p[|p| - 1], c) {
      assert Insert(p, c) == p + [c];
    } else {
      var p', m := p[..|p| - 1], p[|p| - 1];
      assert forall i :: 0 <= i < |p'| ==> p'[i] == p[i];
      InsertBounded(p', c, l);
      assert Insert(p, c) == Insert(p', c) + [m];
    }
  }

  /** Inserting adds exactly the one element. */
  lemma {:induction false} InsertPerm(s: seq<DrawCommand>, c: DrawCommand)
    ensures multiset(Insert(s, c)) == multiset(s) + multiset{c}
  {
    if s != [] && !KeyLe(s[|s| - 1], c) {
      var p, l := s[..|s| - 1], s[|s| - 1];
      assert s == p + [l];
      InsertPerm(p, c);
    }
  }

  lemma WithKeyOfOne(c: DrawCommand, k: DrawCommand)
    ensures WithKeyOf([c], k) == if SameKey(c, k) then [c] else []
  {
    assert [c][..0] == [];
  }

  lemma {:induction false} InsertStable(s: seq<DrawCommand>, c: DrawCommand, k: DrawCommand)
    ensures WithKeyOf(Insert(s, c), k) == WithKeyOf(s, k) + (if SameKey(c, k) then [c] else [])
  {
    if s == [] || KeyLe(s[|s| - 1], c) {
      assert Insert(s, c) == s + [c];
      WithKeyOfAppend(s, [c], k);
      WithKeyOfOne(c, k);
    } else {
      var p, l := s[..|s| - 1], s[|s| - 1];
      assert Insert(s, c) == Insert(p, c) + [l];
      InsertStable(p, c, k);
      WithKeyOfAppend(Insert(p, c), [l], k);
      WithKeyOfOne(l, k);
      var x, y := if SameKey(c, k) then [c] else [], if SameKey(l, k) then [l] else [];
      assert !(SameKey(c, k) && SameKey(l, k));
      assert WithKeyOf(s, k) == WithKeyOf(p, k) + y;
      SwapLast(WithKeyOf(p, k), x, y);
    }
  }

  /** Appending two sequences, one of them empty, in either order. */
  lemma SwapLast<T>(a: seq<T>, x: seq<T>, y: seq<T>)
    requires x == [] || y == []
    ensures (a + x) + y == (a + y) + x
  {
    if x == [] {
      assert a + x == a;
    } else {
      assert a + y == a;
    }
  }

  /** The sort orders by key and only rearranges. */
  lemma {:induction false} SortSorted(s: seq<DrawCommand>)
    ensures Sorted(SortCommands(s))
    ensures multiset(SortCommands(s)) == multiset(s)
  {
    if s != [] {
      var p := s[..|s| - 1];
      SortSorted(p);
      InsertSorted(SortCommands(p), s[|s| - 1]);
      InsertPerm(SortCommands(p), s[|s| - 1]);
      assert s == p + [s[|s| - 1]];
    }
  }

  /** The sort is stable: commands with equal keys keep their insertion
      order. */
  lemma {:induction false} SortStable(s: seq<DrawCommand>, k: DrawCommand)
    ensures WithKeyOf(SortCommands(s), k) == WithKeyOf(s, k)
  {
    if s != [] {
      var p := s[..|s| - 1];
      SortStable(p, k);
      InsertStable(SortCommands(p), s[|s| - 1], k);
    }
  }

  /** What the frame loop observes: a stage's `enter`, a command's `draw`,
      a stage's `exit`. */
  datatype FrameEvent = Enter(stage: StageId) | Draw(command: DrawCommand) | Exit(stage: StageId)

  /** The events issued while walking `cmds`, before the closing exit: a
      command of a new stage first exits the current one (if any) and
      enters its own. */
  function Walked(cmds: seq<DrawCommand>): seq<FrameEvent> {
    if cmds == [] then []
    else
      var p, c := cmds[..|cmds| - 1], cmds[|cmds| - 1];
      Walked(p) + Switch(p, c) + [Draw(c)]
  }

  /** The stage change before drawing `c` after the commands `p`. */
  function Switch(p: seq<DrawCommand>, c: DrawCommand): seq<FrameEvent> {
    if p == [] then [Enter(c.Stage())]
    else if p[|p| - 1].Stage() != c.Stage() then [Exit(p[|p| - 1].Stage()), Enter(c.Stage())]
    else []
  }

  /** The whole frame over already sorted commands: the walk, then the exit
      of the last stage entered. */
  function FrameTrace(cmds: seq<DrawCommand>): seq<FrameEvent> {
    Walked(cmds) + (if cmds == [] then [] else [Exit(cmds[|cmds| - 1].Stage())])
  }

  /** The reference layout of a frame: for each stage in increasing order,
      if it has commands, its enter, its commands' draws and its exit. */
  function OfStage(cmds: seq<DrawCommand>, s: StageId): (r: seq<DrawCommand>)
    ensures forall i :: 0 <= i < |r| ==> r[i].Stage() == s
  {
    if cmds == [] then []
    else OfStage(cmds[..|cmds| - 1], s) + (if cmds[|cmds| - 1].Stage() == s then [cmds[|cmds| - 1]] else [])
  }

  function Draws(cmds: seq<DrawCommand>): (r: seq<FrameEvent>)
    ensures |r| == |cmds| && forall i :: 0 <= i < |cmds| ==> r[i] == Draw(cmds[i])
  {
    if cmds == [] then [] else Draws(cmds[..|cmds| - 1]) + [Draw(cmds[|cmds| - 1])]
  }

  function Group(cmds: seq<DrawCommand>, s: StageId): seq<FrameEvent> {
    var g := OfStage(cmds, s);
    if g == [] then [] else [Enter(s)] + Draws(g) + [Exit(s)]
  }

  function Grouped(cmds: seq<DrawCommand>): seq<FrameEvent> {
    Group(cmds, Default) + Group(cmds, Masked) + Group(cmds, UI)
  }

  /** Sorted by stage, the primary part of the key. */
  ghost predicate StageSorted(s: seq<DrawCommand>) {
    forall i, j :: 0 <= i < j < |s| ==> Rank(s[i].Stage()) <= Rank(s[j].Stage())
  }

  lemma DrawsAppend(s: seq<DrawCommand>, c: DrawCommand)
    ensures Draws(s + [c]) == Draws(s) + [Draw(c)]
  {
    assert (s + [c])[..|s|] == s;
  }

  /** When all commands are of stages ranked at most `r`, the groups of the
      stages above `r` are empty. */
  lemma {:induction false} OfStageAbove(cmds: seq<DrawCommand>, r: nat, s: StageId)
    requires forall i :: 0 <= i < |cmds| ==> Rank(cmds[i].Stage()) <= r
    requires Rank(s) > r
    ensures OfStage(cmds, s) == []
  {
    if cmds != [] {
      OfStageAbove(cmds[..|cmds| - 1], r, s);
    }
  }

  /** The command of the last stage is in that stage's group. */
  lemma OfStageLast(cmds: seq<DrawCommand>)
    requires cmds != []
    ensures OfStage(cmds, cmds[|cmds| - 1].Stage()) != []
  {
  }

  /** The groups of the stages ranked below `s`. */
  function Below(cmds: seq<DrawCommand>, s: StageId): seq<FrameEvent> {
    match s
    case Default => []
    case Masked => Group(cmds, Default)
    case UI => Group(cmds, Default) + Group(cmds, Masked)
  }

  /** The groups of the stages ranked above `s`. */
  function Above(cmds: seq<DrawCommand>, s: StageId): seq<FrameEvent> {
    match s
    case Default => Group(cmds, Masked) + Group(cmds, UI)
    case Masked => Group(cmds, UI)
    case UI => []
  }

  lemma GroupedSplit(cmds: seq<DrawCommand>, s: StageId)
    ensures Grouped(cmds) == Below(cmds, s) + Group(cmds, s) + Above(cmds, s)
  {
    var d, m, u := Group(cmds, Default), Group(cmds, Masked), Group(cmds, UI);
    assert Grouped(cmds) == d + m + u;
    Split3(d, m, u);
    match s
    case Default => assert Below(cmds, s) == [] && Above(cmds, s) == m + u;
    case Masked => assert Below(cmds, s) == d && Above(cmds, s) == u;
    case UI => assert Below(cmds, s) == d + m && Above(cmds, s) == [];
  }

  /** Regrouping a three-part concatenation; kept apart so the callers' contexts stay small. */
  lemma Split3<T>(d: seq<T>, m: seq<T>, u: seq<T>)
    ensures d + m + u == [] + d + (m + u)
    ensures d + m + u == d + m + u + []
  {
    assert [] + d == d;
  }

  lemma AboveEmpty(cmds: seq<DrawCommand>, s: StageId)
    requires forall i :: 0 <= i < |cmds| ==> Rank(cmds[i].Stage()) <= Rank(s)
    ensures Above(cmds, s) == []
  {
    forall t | Rank(t) > Rank(s) ensures Group(cmds, t) == [] {
      OfStageAbove(cmds, Rank(s), t);
    }
  }

  lemma OfStageSnoc(p: seq<DrawCommand>, c: DrawCommand, t: StageId)
    ensures OfStage(p + [c], t) == OfStage(p, t) + (if c.Stage() == t then [c] else [])
  {
    assert (p + [c])[..|p|] == p;
  }

  lemma BelowSnoc(p: seq<DrawCommand>, c: DrawCommand)
    ensures Below(p + [c], c.Stage()) == Below(p, c.Stage())
  {
    OfStageSnoc(p, c, Default);
    OfStageSnoc(p, c, Masked);
  }

  lemma WalkedSnoc(p: seq<DrawCommand>, c: DrawCommand)
    ensures Walked(p + [c]) == Walked(p) + Switch(p, c) + [Draw(c)]
  {
    assert (p + [c])[..|p|] == p;
  }

  lemma GroupedSingle(c: DrawCommand)
    ensures FrameTrace([c]) == Grouped([c])
  {
    var s := c.Stage();
    WalkedSnoc([], c);
    assert [] + [c] == [c];
    OfStageSnoc([], c, s);
    assert Group([c], s) == [Enter(s), Draw(c), Exit(s)];
    GroupedSplit([c], s);
    BelowSnoc([], c);
    assert Below([], s) == [] by {
      match s
      case Default =>
      case Masked =>
      case UI =>
    }
    AboveEmpty([c], s);
  }

  /** The layout of commands whose last stage `s` is their highest. */
  lemma GroupedTop(q: seq<DrawCommand>, s: StageId)
    requires forall i :: 0 <= i < |q| ==> Rank(q[i].Stage()) <= Rank(s)
    requires OfStage(q, s) != []
    ensures Grouped(q) == Below(q, s) + [Enter(s)] + Draws(OfStage(q, s)) + [Exit(s)]
  {
    GroupedSplit(q, s);
    AboveEmpty(q, s);
    TopLast(Grouped(q), Below(q, s), Group(q, s), Above(q, s), Enter(s), Draws(OfStage(q, s)), Exit(s));
  }

  /** A layout whose last part is empty ends with its top group. */
  lemma TopLast<T>(l: seq<T>, b: seq<T>, top: seq<T>, a: seq<T>, e: T, g: seq<T>, x: T)
    requires l == b + top + a && a == [] && top == [e] + g + [x]
    ensures l == b + [e] + g + [x]
  {
    assert b + top + a == b + top;
  }

  lemma GroupedSnocSame(p: seq<DrawCommand>, c: DrawCommand)
    requires forall i :: 0 <= i < |p| ==> Rank(p[i].Stage()) <= Rank(c.Stage())
    ensures Grouped(p + [c]) == Below(p, c.Stage()) + [Enter(c.Stage())] + Draws(OfStage(p, c.Stage())) + [Draw(c), Exit(c.Stage())]
  {
    var s := c.Stage();
    DrawsSnoc(p, c);
    BelowSnoc(p, c);
    GroupedTopSnoc(p, c);
    Regroup(Grouped(p + [c]), Below(p + [c], s), Below(p, s), Enter(s),
      Draws(OfStage(p + [c], s)), Draws(OfStage(p, s)), Draw(c), Exit(s));
  }

  lemma DrawsSnoc(p: seq<DrawCommand>, c: DrawCommand)
    ensures Draws(OfStage(p + [c], c.Stage())) == Draws(OfStage(p, c.Stage())) + [Draw(c)]
  {
    OfStageSnoc(p, c, c.Stage());
    DrawsAppend(OfStage(p, c.Stage()), c);
  }

  lemma GroupedTopSnoc(p: seq<DrawCommand>, c: DrawCommand)
    requires forall i :: 0 <= i < |p| ==> Rank(p[i].Stage()) <= Rank(c.Stage())
    ensures var s, q := c.Stage(), p + [c];
      Grouped(q) == Below(q, s) + [Enter(s)] + Draws(OfStage(q, s)) + [Exit(s)]
  {
    RanksSnoc(p, c);
    OfStageSnoc(p, c, c.Stage());
    GroupedTop(p + [c], c.Stage());
  }

  lemma RanksSnoc(p: seq<DrawCommand>, c: DrawCommand)
    requires forall i :: 0 <= i < |p| ==> Rank(p[i].Stage()) <= Rank(c.Stage())
    ensures forall i :: 0 <= i < |p + [c]| ==> Rank((p + [c])[i].Stage()) <= Rank(c.Stage())
  {
  }

  /** Rewrites a layout whose parts were each extended by one command. */
  lemma Regroup<T>(g: seq<T>, b': seq<T>, b: seq<T>, e: T, d': seq<T>, d: seq<T>, c: T, x: T)
    requires g == b' + [e] + d' + [x] && b' == b && d' == d + [c]
    ensures g == b + [e] + d + [c, x]
  {
  }

  lemma GroupedSameStage(p: seq<DrawCommand>, c: DrawCommand)
    requires p != [] && p[|p| - 1].Stage() == c.Stage()
    requires forall i :: 0 <= i < |p| ==> Rank(p[i].Stage()) <= Rank(c.Stage())
    requires FrameTrace(p) == Grouped(p)
    ensures FrameTrace(p + [c]) == Grouped(p + [c])
  {
    var s := c.Stage();
    var front := Below(p, s) + [Enter(s)] + Draws(OfStage(p, s));
    FrameSnocSame(p, c);
    OfStageLast(p);
    GroupedTop(p, s);
    GroupedSnocSame(p, c);
    SameTail(FrameTrace(p + [c]), FrameTrace(p), Grouped(p + [c]), Grouped(p), Walked(p), front, [Draw(c), Exit(s)], Exit(s));
  }

  /** Drawing one more command of the current stage moves the closing exit. */
  lemma FrameSnocSame(p: seq<DrawCommand>, c: DrawCommand)
    requires p != [] && p[|p| - 1].Stage() == c.Stage()
    ensures FrameTrace(p + [c]) == Walked(p) + [Draw(c), Exit(c.Stage())]
    ensures FrameTrace(p) == Walked(p) + [Exit(c.Stage())]
  {
    var s, q := c.Stage(), p + [c];
    WalkedSnoc(p, c);
    assert q[|q| - 1] == c;
    NoSwitch(Walked(q), Walked(p), Switch(p, c), Draw(c), Exit(s));
  }

  /** Without a stage change, the walk grows by the draw alone. */
  lemma NoSwitch<T>(w': seq<T>, w: seq<T>, sw: seq<T>, d: T, x: T)
    requires w' == w + sw + [d] && sw == []
    ensures w' + [x] == w + [d, x]
  {
  }

  /** Two traces with the same front that both end in the same way are equal. */
  lemma SameTail<T>(ft': seq<T>, ft: seq<T>, g': seq<T>, g: seq<T>, w: seq<T>, front: seq<T>, tail: seq<T>, x: T)
    requires ft' == w + tail && ft == w + [x] && ft == g && g == front + [x] && g' == front + tail
    ensures ft' == g'
  {
    SnocCancel(w, front, x);
  }

  /** Appending the same element to two sequences keeps them apart or equal. */
  lemma SnocCancel<T>(a: seq<T>, b: seq<T>, e: T)
    requires a + [e] == b + [e]
    ensures a == b
  {
    assert a == (a + [e])[..|a|];
    assert b == (b + [e])[..|b|];
  }

  lemma FrameSnocNew(p: seq<DrawCommand>, c: DrawCommand)
    requires p != [] && p[|p| - 1].Stage() != c.Stage()
    ensures FrameTrace(p + [c]) == FrameTrace(p) + [Enter(c.Stage()), Draw(c), Exit(c.Stage())]
  {
    WalkedSnoc(p, c);
    assert Switch(p, c) == [Exit(p[|p| - 1].Stage()), Enter(c.Stage())];
  }

  lemma GroupedSnocNew(p: seq<DrawCommand>, c: DrawCommand)
    requires forall i :: 0 <= i < |p| ==> Rank(p[i].Stage()) < Rank(c.Stage())
    ensures Grouped(p + [c]) == Grouped(p) + [Enter(c.Stage()), Draw(c), Exit(c.Stage())]
  {
    var s := c.Stage();
    GroupedBelowNew(p, s);
    GroupedTopNew(p, c);
    Regroup2(Grouped(p + [c]), Below(p + [c], s), Below(p, s), Grouped(p), [Enter(s), Draw(c), Exit(s)]);
  }

  /** A layout that grew by a tail, with its front unchanged. */
  lemma Regroup2<T>(g': seq<T>, b': seq<T>, b: seq<T>, g: seq<T>, t: seq<T>)
    requires g' == b' + t && b' == b && g == b
    ensures g' == g + t
  {
  }

  /** Before a command of a new, higher stage, the layout is all below it. */
  lemma GroupedBelowNew(p: seq<DrawCommand>, s: StageId)
    requires forall i :: 0 <= i < |p| ==> Rank(p[i].Stage()) < Rank(s)
    ensures Grouped(p) == Below(p, s)
  {
    assert forall i :: 0 <= i < |p| ==> Rank(p[i].Stage()) <= Rank(s);
    GroupedSplit(p, s);
    AboveEmpty(p, s);
    if p != [] {
      assert Rank(p[0].Stage()) < Rank(s);
      OfStageAbove(p, Rank(s) - 1, s);
    }
    assert Group(p, s) == [];
    EmptyTail(Below(p, s), Group(p, s), Above(p, s));
  }

  /** Empty groups above a layout add nothing to it. */
  lemma EmptyTail<T>(b: seq<T>, g: seq<T>, a: seq<T>)
    requires g == [] && a == []
    ensures b + g + a == b
  {
  }

  /** With a command of a new, higher stage appended, the layout is the
      layout below it and that command's own group. */
  lemma GroupedTopNew(p: seq<DrawCommand>, c: DrawCommand)
    requires forall i :: 0 <= i < |p| ==> Rank(p[i].Stage()) < Rank(c.Stage())
    ensures Grouped(p + [c]) == Below(p + [c], c.Stage()) + [Enter(c.Stage()), Draw(c), Exit(c.Stage())]
    ensures Below(p + [c], c.Stage()) == Below(p, c.Stage())
  {
    var s, q := c.Stage(), p + [c];
    assert forall i :: 0 <= i < |q| ==> Rank(q[i].Stage()) <= Rank(s);
    if p != [] {
      assert Rank(p[0].Stage()) < Rank(s);
      OfStageAbove(p, Rank(s) - 1, s);
    }
    OfStageSnoc(p, c, s);
    assert OfStage(q, s) == [c];
    GroupOne(q, s, c);
    GroupedSplit(q, s);
    AboveEmpty(q, s);
    BelowSnoc(p, c);
  }

  /** The group of a stage with one command. */
  lemma GroupOne(q: seq<DrawCommand>, s: StageId, c: DrawCommand)
    requires OfStage(q, s) == [c]
    ensures Group(q, s) == [Enter(s), Draw(c), Exit(s)]
  {
    DrawsOne(c);
    Three(Enter(s), Draw(c), Exit(s));
  }

  lemma DrawsOne(c: DrawCommand)
    ensures Draws([c]) == [Draw(c)]
  {
    assert [c][..0] == [];
  }

  /** Three one-element sequences concatenate to a three-element one. */
  lemma Three<T>(a: T, b: T, c: T)
    ensures [a] + [b] + [c] == [a, b, c]
  {
  }

  /** Every member of a stage's group comes from the commands. */
  lemma {:induction false} OfStageMember(cmds: seq<DrawCommand>, s: StageId, i: nat)
    requires i < |OfStage(cmds, s)|
    ensures exists j :: 0 <= j < |cmds| && cmds[j].Stage() == s
  {
    var p := cmds[..|cmds| - 1];
    if cmds[|cmds| - 1].Stage() != s {
      OfStageMember(p, s, i);
      var j :| 0 <= j < |p| && p[j].Stage() == s;
      assert cmds[j] == p[j];
    }
  }

  lemma GroupedNewStage(p: seq<DrawCommand>, c: DrawCommand)
    requires p != [] && p[|p| - 1].Stage() != c.Stage()
    requires forall i :: 0 <= i < |p| ==> Rank(p[i].Stage()) <= Rank(p[|p| - 1].Stage())
    requires Rank(p[|p| - 1].Stage()) <= Rank(c.Stage())
    requires FrameTrace(p) == Grouped(p)
    ensures FrameTrace(p + [c]) == Grouped(p + [c])
  {
    var l := p[|p| - 1].Stage();
    assert Rank(l) < Rank(c.Stage()) by {
      match l
      case Default =>
      case Masked =>
      case UI =>
    }
    FrameSnocNew(p, c);
    GroupedSnocNew(p, c);
  }

  /** On commands sorted by stage, the frame loop's trace is the reference
      layout: every stage with commands is entered exactly once, in stage
      order, its commands are drawn in their order, and it is exited. */
  lemma {:induction false} FrameIsGrouped(cmds: seq<DrawCommand>)
    requires StageSorted(cmds)
    ensures FrameTrace(cmds) == Grouped(cmds)
  {
    if cmds != [] {
      var p, c := cmds[..|cmds| - 1], cmds[|cmds| - 1];
      assert cmds == p + [c];
      StageSortedLast(cmds, p, c);
      FrameIsGrouped(p);
      FrameStep(p, c);
    }
  }

  /** The front of a stage-sorted sequence is stage-sorted and its stages
      are ranked no higher than the last command's or its own last one's. */
  lemma StageSortedLast(cmds: seq<DrawCommand>, p: seq<DrawCommand>, c: DrawCommand)
    requires StageSorted(cmds) && cmds == p + [c]
    ensures StageSorted(p)
    ensures forall i :: 0 <= i < |p| ==> Rank(p[i].Stage()) <= Rank(c.Stage())
    ensures p != [] ==> forall i :: 0 <= i < |p| ==> Rank(p[i].Stage()) <= Rank(p[|p| - 1].Stage())
  {
    assert forall i :: 0 <= i < |p| ==> p[i] == cmds[i];
    assert cmds[|p|] == c;
  }

  /** The walk and the layout grow alike by one more command. */
  lemma FrameStep(p: seq<DrawCommand>, c: DrawCommand)
    requires forall i :: 0 <= i < |p| ==> Rank(p[i].Stage()) <= Rank(c.Stage())
    requires p != [] ==> forall i :: 0 <= i < |p| ==> Rank(p[i].Stage()) <= Rank(p[|p| - 1].Stage())
    requires FrameTrace(p) == Grouped(p)
    ensures FrameTrace(p + [c]) == Grouped(p + [c])
  {
    if p == [] {
      assert p + [c] == [c];
      GroupedSingle(c);
    } else if p[|p| - 1].Stage() == c.Stage() {
      GroupedSameStage(p, c);
    } else {
      GroupedNewStage(p, c);
    }
  }

  /** The commands drawn by a trace, in order. */
  function Drawn(trace: seq<FrameEvent>): seq<DrawCommand> {
    if trace == [] then []
    else Drawn(trace[..|trace| - 1]) + (if trace[|trace| - 1].Draw? then [trace[|trace| - 1].command] else [])
  }

  lemma {:induction false} DrawnAppend(a: seq<FrameEvent>, b: seq<FrameEvent>)
    ensures Drawn(a + b) == Drawn(a) + Drawn(b)
    decreases |b|
  {
    if b == [] {
      assert a + b == a;
    } else {
      var u := b[..|b| - 1];
      assert (a + b)[..|a + b| - 1] == a + u;
      DrawnAppend(a, u);
    }
  }

  lemma DrawnOne(e: FrameEvent)
    ensures Drawn([e]) == if e.Draw? then [e.command] else []
  {
    assert [e][..0] == [];
  }

  lemma SwitchNoDraw(p: seq<DrawCommand>, c: DrawCommand)
    ensures Drawn(Switch(p, c)) == []
  {
    var mid := Switch(p, c);
    if |mid| == 2 {
      assert mid == [mid[0]] + [mid[1]];
      DrawnAppend([mid[0]], [mid[1]]);
      DrawnOne(mid[0]);
      DrawnOne(mid[1]);
    } else if |mid| == 1 {
      DrawnOne(mid[0]);
    }
  }

  lemma {:induction false} WalkedDrawn(cmds: seq<DrawCommand>)
    ensures Drawn(Walked(cmds)) == cmds
  {
    if cmds != [] {
      var p, c := cmds[..|cmds| - 1], cmds[|cmds| - 1];
      WalkedDrawn(p);
      assert cmds == p + [c];
      WalkedSnoc(p, c);
      SwitchNoDraw(p, c);
      DrawnAppend(Walked(p), Switch(p, c));
      DrawnAppend(Walked(p) + Switch(p, c), [Draw(c)]);
      DrawnOne(Draw(c));
    }
  }

  /** Every command is drawn exactly once, in the order given. */
  lemma FrameDrawsAll(cmds: seq<DrawCommand>)
    ensures Drawn(FrameTrace(cmds)) == cmds
  {
    WalkedDrawn(cmds);
    if cmds != [] {
      DrawnAppend(Walked(cmds), [Exit(cmds[|cmds| - 1].Stage())]);
      DrawnOne(Exit(cmds[|cmds| - 1].Stage()));
    } else {
      assert FrameTrace(cmds) == [];
    }
  }

  /** An empty frame enters and exits nothing. */
  lemma EmptyFrame()
    ensures FrameTrace(SortCommands([])) == []
  {
  }

  /** Enter and exit events alternate, starting with an enter, and each
      exit closes the stage just entered. */
  ghost predicate Paired(b: seq<FrameEvent>)
    decreases |b|
  {
    b == [] || (|b| >= 2 && b[0].Enter? && b[1] == Exit(b[0].stage) && Paired(b[2..]))
  }

  ghost predicate Balanced(trace: seq<FrameEvent>) {
    Paired(Brackets(trace))
  }

  lemma {:induction false} PairedAppend(a: seq<FrameEvent>, b: seq<FrameEvent>)
    requires Paired(a) && Paired(b)
    ensures Paired(a + b)
    decreases |a|
  {
    if a == [] {
      assert a + b == b;
    } else {
      PairedAppend(a[2..], b);
      assert (a + b)[2..] == a[2..] + b;
    }
  }

  /** The enter and exit events of a trace, in order. */
  function Brackets(trace: seq<FrameEvent>): seq<FrameEvent> {
    if trace == [] then []
    else Brackets(trace[..|trace| - 1]) + (if trace[|trace| - 1].Draw? then [] else [trace[|trace| - 1]])
  }

  lemma {:induction false} BracketsAppend(a: seq<FrameEvent>, b: seq<FrameEvent>)
    ensures Brackets(a + b) == Brackets(a) + Brackets(b)
    decreases |b|
  {
    if b == [] {
      assert a + b == a;
    } else {
      var u := b[..|b| - 1];
      assert (a + b)[..|a + b| - 1] == a + u;
      BracketsAppend(a, u);
    }
  }

  /** The reference layout is balanced, so the sorted frame is: enters and
      exits alternate and balance, and the last stage entered is exited. */
  lemma FrameBalanced(cmds: seq<DrawCommand>)
    requires StageSorted(cmds)
    ensures Balanced(FrameTrace(cmds))
  {
    FrameIsGrouped(cmds);
    var gd, gm, gu := Group(cmds, Default), Group(cmds, Masked), Group(cmds, UI);
    BracketsAppend(gd + gm, gu);
    BracketsAppend(gd, gm);
    GroupPaired(cmds, Default);
    GroupPaired(cmds, Masked);
    GroupPaired(cmds, UI);
    PairedAppend(Brackets(gd), Brackets(gm));
    PairedAppend(Brackets(gd) + Brackets(gm), Brackets(gu));
  }

  lemma GroupPaired(cmds: seq<DrawCommand>, s: StageId)
    ensures Paired(Brackets(Group(cmds, s)))
  {
    GroupBrackets(cmds, s);
    var b := Brackets(Group(cmds, s));
    if b != [] {
      assert b[2..] == [];
    }
  }

  lemma BracketsOne(e: FrameEvent)
    ensures Brackets([e]) == if e.Draw? then [] else [e]
  {
    assert [e][..0] == [];
  }

  lemma GroupBrackets(cmds: seq<DrawCommand>, s: StageId)
    ensures Brackets(Group(cmds, s)) == if OfStage(cmds, s) == [] then [] else [Enter(s), Exit(s)]
  {
    var g := OfStage(cmds, s);
    if g != [] {
      var open, draws, close := [Enter(s)], Draws(g), [Exit(s)];
      assert Group(cmds, s) == (open + draws) + close;
      BracketsAppend(open + draws, close);
      BracketsAppend(open, draws);
      DrawsNoBrackets(g);
      BracketsOne(Enter(s));
      BracketsOne(Exit(s));
      Bracket(Brackets(Group(cmds, s)), Brackets(open + draws), Brackets(open), Brackets(draws), Brackets(close), Enter(s), Exit(s));
    } else {
      assert Group(cmds, s) == [];
    }
  }

  /** The bracket events of a group: its enter and its exit. */
  lemma Bracket<T>(b: seq<T>, bd: seq<T>, bo: seq<T>, bs: seq<T>, bc: seq<T>, e: T, x: T)
    requires bd == bo + bs && b == bd + bc && bo == [e] && bs == [] && bc == [x]
    ensures b == [e, x]
  {
  }

  lemma {:induction false} DrawsNoBrackets(g: seq<DrawCommand>)
    ensures Brackets(Draws(g)) == []
  {
    if g != [] {
      DrawsNoBrackets(g[..|g| - 1]);
      assert Draws(g)[..|g| - 1] == Draws(g[..|g| - 1]);
    }
  }

  /** `gfx_frame` after the context has been filled: sorts the commands
      and walks them, switching stages where the stage changes, then exits
      the last stage.  `trace` is what the stages and commands observe. */
  method Frame(ctx: RenderContext) returns (trace: seq<FrameEvent>)
    ensures trace == FrameTrace(SortCommands(ctx.commands))
    ensures ctx.commands == [] ==> trace == []
  {
    trace := Dispatch(SortCommands(ctx.commands));
  }

  /** The dispatch loop of `gfx_frame` over the sorted commands. */
  method Dispatch(cmds: seq<DrawCommand>) returns (trace: seq<FrameEvent>)
    ensures trace == FrameTrace(cmds)
  {
    var current: Option<StageId> := None;
    trace := [];
    var i := 0;
    while i < |cmds|
      invariant 0 <= i <= |cmds|
      invariant trace == Walked(cmds[..i])
      invariant current == if i == 0 then None else Some(cmds[i - 1].Stage())
    {
      var cmd := cmds[i];
      ghost var before, sw := trace, [];
      if current != Some(cmd.Stage()) {
        if current.Some? {
          trace := trace + [Exit(current.value)];
          sw := [Exit(current.value)];
        }
        current := Some(cmd.Stage());
        Snoc(before, sw, Enter(current.value));
        trace := trace + [Enter(current.value)];
        sw := sw + [Enter(current.value)];
      }
      Snoc(before, sw, Draw(cmd));
      trace := trace + [Draw(cmd)];
      SwitchAt(cmds, i);
      WalkedStep(cmds, i, before, sw, trace);
      i := i + 1;
    }
    ghost var walked := trace;
    if current.Some? {
      trace := trace + [Exit(current.value)];
    }
    assert cmds[..i] == cmds;
    FrameClose(cmds, walked, current, trace);
  }

  /** One iteration of the frame loop extends the walk by one command. */
  lemma WalkedStep(cmds: seq<DrawCommand>, i: nat, before: seq<FrameEvent>, sw: seq<FrameEvent>, after: seq<FrameEvent>)
    requires i < |cmds| && before == Walked(cmds[..i]) && sw == Switch(cmds[..i], cmds[i])
    requires after == before + (sw + [Draw(cmds[i])])
    ensures after == Walked(cmds[..i + 1])
  {
    WalkedAt(cmds, i);
  }

  /** The exit after the loop completes the frame. */
  lemma FrameClose(cmds: seq<DrawCommand>, walked: seq<FrameEvent>, current: Option<StageId>, trace: seq<FrameEvent>)
    requires walked == Walked(cmds)
    requires current == if cmds == [] then None else Some(cmds[|cmds| - 1].Stage())
    requires trace == if current.Some? then walked + [Exit(current.value)] else walked
    ensures trace == FrameTrace(cmds)
  {
    if cmds == [] {
      assert walked == [];
    }
  }

  /** Associativity of appending a switch and then one event. */
  lemma Snoc<T>(b: seq<T>, sw: seq<T>, e: T)
    ensures (b + sw) + [e] == b + (sw + [e])
  {
  }

  /** The stage change the loop makes before drawing command `i`. */
  lemma SwitchAt(cmds: seq<DrawCommand>, i: nat)
    requires i < |cmds|
    ensures Switch(cmds[..i], cmds[i]) ==
      if i == 0 then [Enter(cmds[i].Stage())]
      else if cmds[i - 1].Stage() != cmds[i].Stage() then [Exit(cmds[i - 1].Stage()), Enter(cmds[i].Stage())]
      else []
  {
    if i > 0 {
      assert cmds[..i][i - 1] == cmds[i - 1];
    }
  }

  lemma WalkedAt(cmds: seq<DrawCommand>, i: nat)
    requires i < |cmds|
    ensures Walked(cmds[..i + 1]) == Walked(cmds[..i]) + Switch(cmds[..i], cmds[i]) + [Draw(cmds[i])]
  {
    assert cmds[..i + 1][..i] == cmds[..i];
  }

  /** The frame over the sorted commands draws them all, in order, and
      is balanced. */
  lemma SortedFrame(commands: seq<DrawCommand>)
    ensures Drawn(FrameTrace(SortCommands(commands))) == SortCommands(commands)
    ensures Balanced(FrameTrace(SortCommands(commands)))
  {
    var cmds := SortCommands(commands);
    SortSorted(commands);
    FrameDrawsAll(cmds);
    assert StageSorted(cmds);
    FrameBalanced(cmds);
  }
}
