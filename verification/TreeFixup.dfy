// Why the two rebalancing loops of src/yc-rbtree-macros.h are right: facts
// about ghost trees only.
module TreeFixup {
  import opened TreeTheory
  import opened TreeLinks

  // ---- after an insertion ----

  // The loop's invariant: the only rule that may be broken is that the red
  // root of `t` may have a red parent (or be the root of the whole tree).
  ghost predicate InsertInvariant(c: Ctx, t: Tree, h: nat) {
    IsRed(t) && RedBlack(t, h) && CtxRedBlack(c, h)
  }

  // A red parent is never the root, so there is a grandparent.
  lemma Grandparent(c: Ctx, t: Tree, h: nat)
    requires InsertInvariant(c, t, h) && CtxIsRed(c)
    ensures c.Step? && c.up.Step? && !c.up.red && !IsRed(c.other)
    ensures RedBlack(c.other, h) && RedBlack(c.up.other, h) && CtxRedBlack(c.up.up, h + 1)
  {
    assert CtxRedBlack(c.up, h);
  }

  ghost function RecolouredGrandparent(c: Ctx, t: Tree): Tree
    requires c.Step? && c.up.Step? && c.up.other.Bin?
  {
    Make(c.up.side, Make(c.side, t, c.node, false, c.other), c.up.node, true, c.up.other.(red := false))
  }

  lemma RedUncle(c: Ctx, t: Tree, h: nat)
    requires InsertInvariant(c, t, h) && CtxIsRed(c) && c.Step? && c.up.Step? && IsRed(c.up.other)
    ensures InsertInvariant(c.up.up, RecolouredGrandparent(c, t), h + 1)
    ensures InOrder(RecolouredGrandparent(c, t)) == InOrder(Make(c.up.side, Make(c.side, t, c.node, true, c.other), c.up.node, false, c.up.other))
  {
    Grandparent(c, t, h);
    var p := Make(c.side, t, c.node, false, c.other);
    assert RedBlack(p, h + 1);
    assert RedBlack(c.up.other.(red := false), h + 1);
  }

  // With a black uncle, and the red node on the outside, one rotation of the
  // repainted grandparent ends the loop.
  lemma BlackUncle(c: Ctx, t: Tree, h: nat)
    requires InsertInvariant(c, t, h) && CtxIsRed(c) && c.Step? && c.up.Step? && !IsRed(c.up.other)
    requires c.side == c.up.side
    ensures var g := Make(c.up.side, Make(c.side, t, c.node, false, c.other), c.up.node, true, c.up.other);
      && g.Bin? && Far(c.up.side.Other(), g).Bin?
      && var r := Rotated(c.up.side.Other(), g);
      && r == Make(c.side, t, c.node, false, Make(c.side, c.other, c.up.node, true, c.up.other))
      && RedBlack(r, h + 1) && !IsRed(r) && CtxRedBlack(c.up.up, h + 1)
      && InsertInvariant(Step(c.side, c.up.up, c.node, false, Make(c.side, c.other, c.up.node, true, c.up.other)), t, h)
  {
    Grandparent(c, t, h);
    var low := Make(c.side, c.other, c.up.node, true, c.up.other);
    assert RedBlack(low, h);
  }

  // With the red node on the inside, rotating its parent brings it outside.
  lemma InsideToOutside(c: Ctx, t: Tree, h: nat)
    requires InsertInvariant(c, t, h) && CtxIsRed(c) && c.Step? && c.up.Step?
    requires c.side != c.up.side
    ensures var p := Make(c.side, t, c.node, true, c.other);
      && t.Bin? && p.Bin? && Far(c.up.side, p) == t
      && var q := Make(c.up.side, c.other, c.node, true, Near(c.up.side, t));
      && Rotated(c.up.side, p) == Make(c.up.side, q, t.node, true, Far(c.up.side, t))
      && InsertInvariant(Step(c.up.side, c.up, t.node, true, Far(c.up.side, t)), q, h)
  {
    Grandparent(c, t, h);
  }

  // When the loop ends, painting the root black repairs the last rule.
  lemma InsertFinish(c: Ctx, t: Tree, h: nat)
    requires InsertInvariant(c, t, h) && !CtxIsRed(c)
    ensures var w := Plug(c, t); w.Bin? && ValidColours(w.(red := false))
  {
    if c.Top? {
      assert RedBlack(t.(red := false), h + 1);
    } else {
      ColoursOfPlug(c, t, h);
      PlugIsBin(c, t);
    }
  }

  lemma {:induction false} PlugIsBin(c: Ctx, t: Tree)
    requires t.Bin? || c.Step?
    ensures Plug(c, t).Bin?
    decreases c
  {
    if c.Step? { PlugIsBin(c.up, Make(c.side, t, c.node, c.red, c.other)); }
  }

  // What the loop reads.
  lemma InsertSite(m: Mem, root: Node?, c: Ctx, t: Tree)
    requires Placed(m, root, Top, Plug(c, t))
    ensures t.Bin? ==>
      && t.node in m && m[t.node].parent == Above(c, null) && m[t.node].red == t.red
      && m[t.node].left == Root(t.left) && m[t.node].right == Root(t.right)
    ensures c.Step? ==>
      && c.node in m && m[c.node].red == c.red && m[c.node].parent == Above(c.up, null)
      && m[c.node].Kid(c.side) == Root(t) && m[c.node].Kid(c.side.Other()) == Root(c.other)
      && (t.Bin? ==> t.node != Root(c.other))
    ensures c.Step? && c.up.Step? ==>
      && c.up.node in m && m[c.up.node].Kid(c.up.side) == c.node && m[c.up.node].Kid(c.up.side.Other()) != c.node
      && m[c.up.node].Kid(c.up.side.Other()) == Root(c.up.other)
      && (c.up.other.Bin? ==> c.up.other.node in m && m[c.up.other.node].red == c.up.other.red)
  {
    Look(m, root, c, t);
    if c.Step? {
      Look(m, root, c.up, Make(c.side, t, c.node, c.red, c.other));
      if c.up.Step? {
        var p := Make(c.side, t, c.node, c.red, c.other);
        Look(m, root, Step(c.up.side.Other(), c.up.up, c.up.node, c.up.red, p), c.up.other);
      }
    }
  }
}

module TreeRemoval {
  import opened TreeTheory
  import opened TreeLinks

  // ---- the rebalancing loop of REMOVE ----

  // The subtree in the hole is one black node short; a red root may be
  // painted black to make up for it.
  ghost predicate RemoveInvariant(c: Ctx, t: Tree, h: nat) {
    && CtxRedBlack(c, h + 1)
    && if IsRed(t) then RedBlack(t.(red := false), h + 1) else RedBlack(t, h)
  }

  // The number of rounds still to come is bounded by this.
  ghost function Pending(c: Ctx, t: Tree): nat {
    if IsRed(t) then 0 else Depth(c)
  }

  lemma RemoveFinish(c: Ctx, t: Tree, h: nat)
    requires RemoveInvariant(c, t, h) && (c.Top? || IsRed(t))
    ensures t.Bin? ==> ValidColours(Plug(c, t.(red := false)))
    ensures t.Leaf? ==> ValidColours(Plug(c, t))
  {
    if IsRed(t) {
      ColoursOfPlug(c, t.(red := false), h + 1);
    } else {
      ColoursOfPlug(c, t, h);
    }
  }

  // A black subtree that is short has a sibling that is not empty.
  lemma Sibling(c: Ctx, t: Tree, h: nat)
    requires RemoveInvariant(c, t, h) && c.Step? && !IsRed(t)
    ensures c.other.Bin? && RedBlack(c.other, h + 1) && RedBlack(t, h)
    ensures CtxRedBlack(c.up, if c.red then h + 1 else h + 2)
    ensures IsRed(c.other) ==> !c.red
    ensures c.red ==> c.up.Step? && !c.up.red
  {
  }

  // Case 1, a red sibling: the context after the repainting and the rotation.
  ghost function BelowSibling(c: Ctx): Ctx
    requires c.Step? && c.other.Bin?
  {
    var w := c.other;
    Step(c.side, Step(c.side, c.up, w.node, false, Far(c.side, w)), c.node, true, Near(c.side, w))
  }

  lemma RedSibling(c: Ctx, t: Tree, h: nat)
    requires RemoveInvariant(c, t, h) && c.Step? && !IsRed(t) && IsRed(c.other)
    ensures RemoveInvariant(BelowSibling(c), t, h) && !IsRed(BelowSibling(c).other)
    ensures Plug(BelowSibling(c), t) ==
            Plug(c.up, Rotated(c.side, Make(c.side, t, c.node, true, c.other.(red := false))))
  {
    Sibling(c, t, h);
    var w := c.other;
    assert RedBlack(Near(c.side, w), h + 1) && RedBlack(Far(c.side, w), h + 1);
    assert CtxRedBlack(Step(c.side, c.up, w.node, false, Far(c.side, w)), h + 1);
  }

  // Case 2, a black sibling with no red child: the shortage moves up.
  lemma BlackNephews(c: Ctx, t: Tree, h: nat)
    requires RemoveInvariant(c, t, h) && c.Step? && !IsRed(t) && c.other.Bin? && !IsRed(c.other)
    requires !IsRed(Near(c.side, c.other)) && !IsRed(Far(c.side, c.other))
    ensures var up := Make(c.side, t, c.node, c.red, c.other.(red := true));
            RemoveInvariant(c.up, up, if c.red then h else h + 1)
  {
    Sibling(c, t, h);
    assert RedBlack(c.other.(red := true), h);
    assert RedBlack(Make(c.side, t, c.node, false, c.other.(red := true)), h + 1);
  }

  // Case 3: a rotation of the sibling brings the red nephew to the far side.
  ghost function TurnedSibling(side: Side, w: Tree): Tree
    requires w.Bin? && Near(side, w).Bin?
  {
    var n := Near(side, w);
    Make(side, Near(side, n), n.node, false, Make(side, Far(side, n), w.node, true, Far(side, w)))
  }

  lemma NearNephew(c: Ctx, t: Tree, h: nat)
    requires RemoveInvariant(c, t, h) && c.Step? && !IsRed(t) && c.other.Bin? && !IsRed(c.other)
    requires IsRed(Near(c.side, c.other)) && !IsRed(Far(c.side, c.other))
    ensures var w := TurnedSibling(c.side, c.other);
            && w.Bin? && !IsRed(w) && IsRed(Far(c.side, w))
            && RemoveInvariant(c.(other := w), t, h)
    ensures var n := Near(c.side, c.other).(red := false);
            var painted := Make(c.side, n, c.other.node, true, Far(c.side, c.other));
            TurnedSibling(c.side, c.other) == Rotated(c.side.Other(), painted)
  {
    Sibling(c, t, h);
    var w := c.other;
    var n := Near(c.side, w);
    assert RedBlack(n, h) && RedBlack(Far(c.side, w), h);
    assert RedBlack(Make(c.side, Far(c.side, n), w.node, true, Far(c.side, w)), h);
    assert RedBlack(TurnedSibling(c.side, w), h + 1);
  }

  // Case 4, a red nephew on the far side: one rotation pays the shortage.
  lemma FarNephew(c: Ctx, t: Tree, h: nat)
    requires RemoveInvariant(c, t, h) && c.Step? && !IsRed(t) && c.other.Bin? && !IsRed(c.other)
    requires IsRed(Far(c.side, c.other))
    ensures var w := c.other;
            var p := Make(c.side, t, c.node, false, Make(c.side, Near(c.side, w), w.node, c.red, Far(c.side, w).(red := false)));
            ValidColours(Plug(c.up, Rotated(c.side, p)))
  {
    Sibling(c, t, h);
    var w := c.other;
    var far := Far(c.side, w).(red := false);
    assert RedBlack(far, h + 1);
    var low := Make(c.side, t, c.node, false, Near(c.side, w));
    assert RedBlack(low, h + 1);
    var top := Make(c.side, low, w.node, c.red, far);
    ColoursOfPlug(c.up, top, if c.red then h + 1 else h + 2);
  }

  lemma ValidIsFinal(t: Tree)
    requires ValidColours(t)
    ensures exists h: nat :: RemoveInvariant(Top, t, h)
  {
    var h: nat :| RedBlack(t, h);
    assert RemoveInvariant(Top, t, h);
  }
}
