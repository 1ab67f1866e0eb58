// Taking a node out of a ghost tree, or putting another in its place.
module TreeSurgery {
  import opened TreeTheory
  import opened TreeLinks

  // ---- splicing out a node with at most one child ----

  // y has been unlinked and x, its only child if it has one, linked in its place.
  ghost predicate SplicedFields(m: Mem, m': Mem, root: Node?, root': Node?, y: Node, x: Node?) {
    && y in m && m'.Keys == m.Keys - {y} && x != y
    && var p := m[y].parent;
    && (x != null ==> x in m && m'[x] == m[x].(parent := p))
    && (if p == null then root' == x else
          && p in m && p != x && p != y && root' == root
          && m'[p] == if m[p].left == y then m[p].(left := x) else m[p].(right := x))
    && forall n | n in m && n != x && n != y && n != p :: m'[n] == m[n]
  }

  // The subtree left when the root of `t` is spliced out.
  ghost function Spliced(t: Tree): Tree
    requires t.Bin?
  {
    if t.left.Bin? then t.left else t.right
  }

  lemma SplicedInPlace(m: Mem, m': Mem, root: Node?, root': Node?, c: Ctx, t: Tree)
    requires t.Bin? && (t.left.Leaf? || t.right.Leaf?) && Placed(m, root, c, t)
    requires SplicedFields(m, m', root, root', t.node, Root(Spliced(t)))
    ensures Placed(m', root', c, Spliced(t))
  {
    var l, r := LinkedPieces(m, L, t, Above(c, null));
    var x := Spliced(t);
    if c.Step? {
      assert m[c.node].Kid(c.side) == t.node;
      assert Linked(m, c.other, Root(c.other), c.node);
      assert Root(c.other) != null ==> Root(c.other) in Nodes(c.other);
    }
    assert Root(x) != null ==> Root(x) in Nodes(x);
    Reparented(m, m', x, t.node, Above(c, null));
    Redirected(m, m', c, root, root', t.node, Root(x));
  }

  lemma SplicedCounts(m: Mem, m': Mem, root: Node?, root': Node?, c: Ctx, t: Tree)
    requires t.Bin? && (t.left.Leaf? || t.right.Leaf?) && Apart(c, t) && CountedAt(m, c, t)
    requires SplicedFields(m, m', root, root', t.node, Root(Spliced(t)))
    ensures Counted(m', Spliced(t)) && OthersCounted(m', c)
  {
    var l, r := CountedPieces(m, L, t);
    KeepCounted(m, m', Spliced(t));
    CountedOthers(m, c, Size(t));
    KeepOthers(m, m', c);
  }

  lemma SplicedWhole(m: Mem, m': Mem, root: Node?, root': Node?, c: Ctx, t: Tree)
    requires t.Bin? && (t.left.Leaf? || t.right.Leaf?)
    requires Placed(m, root, Top, Plug(c, t)) && Counted(m, Plug(c, t))
    requires SplicedFields(m, m', root, root', t.node, Root(Spliced(t)))
    ensures Placed(m', root', Top, Plug(c, Spliced(t)))
    ensures Counted(m', Spliced(t)) && OthersCounted(m', c)
  {
    hide SplicedFields, Placed, Plug;
    PlacedPlug(m, root, c, t);
    assert Apart(c, t) by { PlacedParts(m, root, c, t); }
    SplicedInPlace(m, m', root, root', c, t);
    SplicedCounts(m, m', root, root', c, t);
    PlacedPlug(m', root', c, Spliced(t));
  }

  lemma PlacedParts(m: Mem, root: Node?, c: Ctx, t: Tree)
    requires Placed(m, root, c, t)
    ensures Apart(c, t) && CtxNodes(c) + Nodes(t) == m.Keys
  {
  }

  // ---- one node taking the place of another ----

  // y has been given z's links and colour, and z's neighbours point to y.
  ghost predicate ReplacedFields(m: Mem, m': Mem, root: Node?, root': Node?, z: Node, y: Node) {
    && z in m && y !in m && m'.Keys == m.Keys - {z} + {y}
    && var p, l, r := m[z].parent, m[z].left, m[z].right;
    && m'[y].left == l && m'[y].right == r && m'[y].parent == p && m'[y].red == m[z].red
    && p != z && l != z && r != z
    && (l != null ==> l in m && l != p && l != r && m'[l] == m[l].(parent := y))
    && (r != null ==> r in m && r != p && m'[r] == m[r].(parent := y))
    && (if p == null then root' == y else
          && p in m && root' == root
          && m'[p] == if m[p].left == z then m[p].(left := y) else m[p].(right := y))
    && forall n | n in m && n != z && n != p && n != l && n != r :: m'[n] == m[n]
  }

  lemma RootInside(t: Tree)
    ensures Root(t) != null ==> Root(t) in Nodes(t)
  {
  }

  lemma ReplacedApart(c: Ctx, t: Tree, y: Node)
    requires t.Bin? && Apart(c, t) && y !in CtxNodes(c) + Nodes(t)
    ensures Apart(c, t.(node := y))
    ensures CtxNodes(c) + Nodes(t.(node := y)) == CtxNodes(c) + Nodes(t) - {t.node} + {y}
  {
  }

  lemma ReplacedInPlace(m: Mem, m': Mem, root: Node?, root': Node?, c: Ctx, t: Tree, y: Node)
    requires t.Bin? && Placed(m, root, c, t) && ReplacedFields(m, m', root, root', t.node, y)
    ensures Placed(m', root', c, t.(node := y))
  {
    var z := t.node;
    var l, r := LinkedPieces(m, L, t, Above(c, null));
    if c.Step? {
      assert m[c.node].Kid(c.side) == z;
      assert Linked(m, c.other, Root(c.other), c.node);
      RootInside(c.other);
    }
    RootInside(l);
    RootInside(r);
    ReplacedApart(c, t, y);
    Reparented(m, m', l, z, y);
    Reparented(m, m', r, z, y);
    Redirected(m, m', c, root, root', z, y);
  }

  lemma ReplacedCounts(m: Mem, m': Mem, root: Node?, root': Node?, c: Ctx, t: Tree, y: Node)
    requires t.Bin? && Apart(c, t) && CountedAt(m, c, t)
    requires ReplacedFields(m, m', root, root', t.node, y)
    ensures Counted(m', t.left) && OthersCounted(m', Step(L, c, y, t.red, t.right))
  {
    var l, r := CountedPieces(m, L, t);
    KeepCounted(m, m', l);
    KeepCounted(m, m', r);
    CountedOthers(m, c, Size(t));
    KeepOthers(m, m', c);
  }

  lemma ReplacedWhole(m: Mem, m': Mem, root: Node?, root': Node?, c: Ctx, t: Tree, y: Node)
    requires t.Bin? && Placed(m, root, Top, Plug(c, t)) && Counted(m, Plug(c, t))
    requires ReplacedFields(m, m', root, root', t.node, y)
    ensures Placed(m', root', Top, Plug(c, t.(node := y)))
    ensures Counted(m', t.left) && OthersCounted(m', Step(L, c, y, t.red, t.right))
  {
    hide ReplacedFields, Placed, Plug;
    PlacedPlug(m, root, c, t);
    assert Apart(c, t) by { PlacedParts(m, root, c, t); }
    ReplacedInPlace(m, m', root, root', c, t, y);
    ReplacedCounts(m, m', root, root', c, t, y);
    PlacedPlug(m', root', c, t.(node := y));
  }

  // What the two operations need of the fields they read.
  lemma SurgerySite(m: Mem, root: Node?, c: Ctx, t: Tree)
    requires t.Bin? && Placed(m, root, Top, Plug(c, t))
    ensures var n := t.node;
      && n in m
      && var p, l, r := m[n].parent, m[n].left, m[n].right;
      && p == Above(c, null) && l == Root(t.left) && r == Root(t.right) && m[n].red == t.red
      && p != n && l != n && r != n && (p == null ==> root == n)
      && (p != null ==> p in m && p != l && p != r)
      && (l != null ==> l in m && l != r) && (r != null ==> r in m)
  {
    PlacedPlug(m, root, c, t);
    var l, r := LinkedPieces(m, L, t, Above(c, null));
    assert Root(l) != null ==> Root(l) in Nodes(l);
    assert Root(r) != null ==> Root(r) in Nodes(r);
    assert c.Step? ==> c.node in CtxNodes(c);
  }

  // ---- a context inside a context ----

  // `inner` placed in the hole of `outer`.
  ghost function Compose(outer: Ctx, inner: Ctx): Ctx {
    match inner
    case Top => outer
    case Step(side, up, n, red, o) => Step(side, Compose(outer, up), n, red, o)
  }

  lemma {:induction false} PlugCompose(outer: Ctx, inner: Ctx, t: Tree)
    ensures Plug(Compose(outer, inner), t) == Plug(outer, Plug(inner, t))
    decreases inner
  {
    if inner.Step? {
      PlugCompose(outer, inner.up, Make(inner.side, t, inner.node, inner.red, inner.other));
    }
  }

  lemma {:induction false} AboveCompose(outer: Ctx, inner: Ctx)
    ensures Above(Compose(outer, inner), null) == Above(inner, Above(outer, null))
  {
  }

  // The colour rules for a context do not depend on which nodes are on it.
  lemma {:induction false} ColoursOfCompose(outer: Ctx, node: Node, inner: Ctx, h: nat)
    requires outer.Step? && CtxRedBlack(Compose(outer, inner), h)
    ensures CtxRedBlack(Compose(outer.(node := node), inner), h)
    decreases inner
  {
    if inner.Step? {
      ColoursOfCompose(outer, node, inner.up, if inner.red then h else h + 1);
    }
  }
}
