// The count-keeping red-black tree of src/yc-rbtree-macros.h.
module RedBlackTree {
  import opened TreeTheory
  import opened TreeLinks
  import opened TreeRotation
  import opened TreeFixup
  import opened TreeRemoval
  import opened TreeSurgery

  class RbTree {
    var top: Node?
    ghost var tree: Tree
    ghost var nodes: set<Node>

    ghost function Mem(): (m: Mem)
      reads this`nodes, nodes
      ensures m.Keys == nodes
    {
      Snap(nodes)
    }

    // What hangs from `top` is `tree`.
    ghost predicate Shaped()
      reads this, nodes
    {
      Placed(Mem(), top, Top, tree)
    }

    ghost predicate Sized()
      reads this, nodes
    {
      Counted(Mem(), tree)
    }

    ghost function Contents(): seq<Node>
      reads this
    {
      InOrder(tree)
    }

    ghost predicate Valid()
      reads this, nodes
    {
      Shaped() && Sized() && ValidColours(tree) && Sorted(Contents())
    }

    constructor ()
      ensures Valid() && Contents() == [] && nodes == {}
    {
      top := null;
      tree, nodes := Leaf, {};
      new;
      assert RedBlack(tree, 0);
    }

    // The fields in and around the root of `t`.
    lemma Around(c: Ctx, t: Tree)
      requires Shaped() && tree == Plug(c, t)
      ensures t.Bin? ==>
        && t.node in nodes && t.node.parent == Above(c, null) && t.node.isRed == t.red
        && t.node.left == Root(t.left) && t.node.right == Root(t.right)
      ensures c.Step? ==>
        && c.node in nodes && c.node.isRed == c.red && c.node.parent == Above(c.up, null)
        && c.node.Child(c.side) == Root(t) && c.node.Child(c.side.Other()) == Root(c.other)
        && (t.Bin? ==> t.node != Root(c.other))
      ensures c.Step? && c.up.Step? ==>
        && c.up.node in nodes && c.up.node.Child(c.up.side) == c.node
        && c.up.node.Child(c.up.side.Other()) == Root(c.up.other) != c.node
        && (c.up.other.Bin? ==> c.up.other.node.isRed == c.up.other.red)
    {
      hide Placed, Plug;
      InsertSite(Mem(), top, c, t);
    }

    // ---- rotation ----

    // ROTATE_LEFT for side L and ROTATE_RIGHT for side R: x's child y on the
    // far side takes x's place, and x becomes y's child on the near side.
    // RotateFields is the macro's body; its contract lists the fields.
    method RotateFields(side: Side, x: Node, y: Node)
      requires RotationSite(Mem(), top, side, x, y)
      modifies this`top, nodes`left, nodes`right, nodes`parent
      ensures y.Child(side) == x && x.parent == y && y.parent == old(x.parent)
      ensures x.Child(side.Other()) == old(y.Child(side)) && x.Child(side) == old(x.Child(side))
      ensures y.Child(side.Other()) == old(y.Child(side.Other()))
      ensures var b := old(y.Child(side));
        b != null ==> b.parent == x && b.left == old(b.left) && b.right == old(b.right)
      ensures var p := old(x.parent);
        if p == null then top == y else
          && top == old(top) && p.parent == old(p.parent)
          && p.left == (if old(p.left) == x then y else old(p.left))
          && p.right == (if old(p.left) == x then old(p.right) else y)
      ensures forall n | n in nodes && n != x && n != y && n != old(y.Child(side)) && n != old(x.parent) ::
             n.left == old(n.left) && n.right == old(n.right) && n.parent == old(n.parent)
    {
      var b := y.Child(side);
      if side.L? { x.right := b; } else { x.left := b; }
      if b != null { b.parent := x; }
      y.parent := x.parent;
      if x.parent == null {
        top := y;
      } else if x == x.parent.left {
        x.parent.left := y;
      } else {
        x.parent.right := y;
      }
      if side.L? { y.left := x; } else { y.right := x; }
      x.parent := y;
    }

    method RotateCounts(side: Side, x: Node, y: Node)
      requires var e := y.Child(side.Other()); x != y && e != x && e != y && x.count > if e == null then 0 else e.count
      modifies {x, y}`count
      ensures y.count == old(x.count)
      ensures var e := y.Child(side.Other());
        x.count == old(x.count) - (if e == null then 0 else e.count) - 1
    {
      var e := y.Child(side.Other());
      var n0 := x.count;
      var n1 := if e != null then e.count else 0;
      x.count := n0 - n1 - 1;
      y.count := n0;
    }

    method RotateAll(side: Side, x: Node, y: Node)
      requires RotationSite(Mem(), top, side, x, y)
      modifies this`top, nodes`left, nodes`right, nodes`parent, nodes`count
      ensures RotatedFields(old(Mem()), Mem(), old(top), top, side, x, y)
      ensures RotatedCounts(old(Mem()), Mem(), side, x, y)
    {
      RotateFields(side, x, y);
      RotateCounts(side, x, y);
    }

    method Rotate(side: Side, x: Node, ghost c: Ctx, ghost t: Tree)
      requires Shaped() && Sized() && tree == Plug(c, t)
      requires t.Bin? && t.node == x && Far(side, t).Bin?
      modifies this`top, this`tree, nodes`left, nodes`right, nodes`parent, nodes`count
      ensures Shaped() && Sized() && tree == Plug(c, Rotated(side, t))
      ensures InOrder(tree) == old(InOrder(tree))
    {
      hide Snap, Placed, Counted, Plug, InOrder, RotatedFields, RotatedCounts, RotationSite, Rotated, Make;
      ghost var m, root := Mem(), top;
      SiteOfWhole(m, root, side, c, t);
      Around(c, t);
      var y := x.Child(side.Other());
      RotateAll(side, x, y);
      RotatedWhole(m, Mem(), root, top, side, c, t);
      RotatedInOrder(side, t);
      SameContents(c, t, Rotated(side, t));
      tree := Plug(c, Rotated(side, t));
    }

    method Paint(n: Node, red: bool, ghost c: Ctx, ghost t: Tree)
      requires Shaped() && Sized() && tree == Plug(c, t)
      requires t.Bin? && t.node == n
      modifies this`tree, nodes`isRed
      ensures Shaped() && Sized() && tree == Plug(c, t.(red := red))
      ensures InOrder(tree) == old(InOrder(tree))
    {
      hide Placed, Counted, Plug;
      ghost var m := Mem();
      InMem(m, top, c, t);
      n.isRed := red;
      Painted(m, Mem(), top, c, t, red);
      SameContents(c, t, t.(red := red));
      tree := Plug(c, t.(red := red));
    }

    // ---- the rebalancing loop of INSERT ----

    // A red uncle: blackness moves down from the grandparent.
    method PassRednessUp(side: Side, p: Node, y: Node, g: Node, ghost c: Ctx, ghost t: Tree)
      requires Shaped() && Sized() && tree == Plug(c, t)
      requires c.Step? && c.up.Step? && c.up.other.Bin? && c.up.side == side
      requires p == c.node && g == c.up.node && y == c.up.other.node
      modifies this`tree, nodes`isRed
      ensures Shaped() && Sized() && tree == Plug(c.up.up, RecolouredGrandparent(c, t))
      ensures InOrder(tree) == old(InOrder(tree))
    {
      ghost var gg, u := c.up.up, c.up.other;
      ghost var p0 := Make(c.side, t, p, c.red, c.other);
      ghost var p1 := Make(c.side, t, p, false, c.other);
      ghost var u1 := u.(red := false);
      Paint(p, false, c.up, p0);
      Paint(y, false, Step(side.Other(), gg, g, c.up.red, p1), u);
      Paint(g, true, gg, Make(side, p1, g, c.up.red, u1));
    }

    // A black uncle, and the red pair in line: one rotation is enough.
    method RotateGrandparent(side: Side, p: Node, g: Node, ghost c: Ctx, ghost t: Tree)
      requires Shaped() && Sized() && tree == Plug(c, t)
      requires c.Step? && c.up.Step? && c.up.side == side && c.side == side
      requires p == c.node && g == c.up.node
      modifies this`top, this`tree, nodes`isRed, nodes`left, nodes`right, nodes`parent, nodes`count
      ensures Shaped() && Sized()
      ensures tree == Plug(c.up.up, Make(side, t, p, false, Make(side, c.other, g, true, c.up.other)))
      ensures InOrder(tree) == old(InOrder(tree))
    {
      ghost var gg := c.up.up;
      ghost var p1 := Make(side, t, p, false, c.other);
      ghost var g1 := Make(side, p1, g, true, c.up.other);
      Paint(p, false, c.up, Make(side, t, p, c.red, c.other));
      Paint(g, true, gg, Make(side, p1, g, c.up.red, c.up.other));
      Rotate(side.Other(), g, gg, g1);
    }

    // A red pair that is not in line is brought in line by rotating the parent.
    method BringInLine(side: Side, p: Node, ghost c: Ctx, ghost t: Tree, ghost h: nat)
        returns (ghost c': Ctx, ghost t': Tree)
      requires Shaped() && Sized() && tree == Plug(c, t)
      requires InsertInvariant(c, t, h) && CtxIsRed(c)
      requires c.up.Step? && c.up.side == side && c.side == side.Other() && p == c.node
      modifies this`top, this`tree, nodes`left, nodes`right, nodes`parent, nodes`count
      ensures Shaped() && Sized() && tree == Plug(c', t') && InOrder(tree) == old(InOrder(tree))
      ensures InsertInvariant(c', t', h) && CtxIsRed(c') && t'.Bin? && t'.node == p && c'.side == side && c'.up == c.up
    {
      InsideToOutside(c, t, h);
      Rotate(side, p, c.up, Make(c.side, t, p, true, c.other));
      t' := Make(side, c.other, p, true, Near(side, t));
      c' := Step(side, c.up, t.node, true, Far(side, t));
    }

    // One round of the loop.  The source writes the body out twice, with left
    // and right exchanged; `side` says which copy this is.
    method InsertFixupStep(at: Node, ghost c: Ctx, ghost t: Tree, ghost h: nat)
        returns (next: Node, ghost c': Ctx, ghost t': Tree, ghost h': nat)
      requires Shaped() && Sized() && tree == Plug(c, t) && IsRed(t) && t.node == at
      requires InsertInvariant(c, t, h) && CtxIsRed(c)
      modifies this`top, this`tree, nodes`isRed, nodes`left, nodes`right, nodes`parent, nodes`count
      ensures Shaped() && Sized() && tree == Plug(c', t') && IsRed(t') && t'.node == next
      ensures InsertInvariant(c', t', h') && Depth(c') < Depth(c)
      ensures InOrder(tree) == old(InOrder(tree))
    {
      hide Mem, Snap, Shaped, Sized, RedBlack, CtxRedBlack, InsertInvariant, InOrder;
      Around(c, t);
      Grandparent(c, t, h);
      next, c', t', h' := at, c, t, h;
      var side := if next.parent == next.parent.parent.left then L else R;
      var y := next.parent.parent.Child(side.Other());
      if y != null && y.isRed {
        RedUncle(c, t, h);
        PassRednessUp(side, next.parent, y, next.parent.parent, c, t);
        next := next.parent.parent;
        c', t', h' := c.up.up, RecolouredGrandparent(c, t), h + 1;
      } else {
        if next == next.parent.Child(side.Other()) {
          next := next.parent;
          c', t' := BringInLine(side, next, c, t, h);
        }
        Around(c', t');
        BlackUncle(c', t', h);
        ghost var p, g := c'.node, c'.up.node;
        RotateGrandparent(side, next.parent, next.parent.parent, c', t');
        c' := Step(side, c'.up.up, p, false, Make(side, c'.other, g, true, c'.up.other));
      }
    }

    method InsertFixup(node: Node, ghost c0: Ctx, ghost t0: Tree)
      requires Shaped() && Sized() && tree == Plug(c0, t0) && IsRed(t0) && t0.node == node
      requires exists h: nat :: InsertInvariant(c0, t0, h)
      modifies this`top, this`tree, nodes`isRed, nodes`left, nodes`right, nodes`parent, nodes`count
      ensures Shaped() && Sized() && ValidColours(tree) && InOrder(tree) == old(InOrder(tree))
    {
      hide Mem, Snap, Shaped, Sized, RedBlack, CtxRedBlack, InOrder;
      var at := node;
      ghost var c, t := c0, t0;
      ghost var h: nat :| InsertInvariant(c, t, h);
      Around(c, t);
      while at.parent != null && at.parent.isRed
        invariant Shaped() && Sized() && tree == Plug(c, t) && IsRed(t) && t.node == at
        invariant at.parent == Above(c, null) && (c.Step? ==> c.node.isRed == c.red)
        invariant InsertInvariant(c, t, h) && InOrder(tree) == old(InOrder(tree))
        decreases Depth(c)
      {
        at, c, t, h := InsertFixupStep(at, c, t, h);
        Around(c, t);
      }
      InsertFinish(c, t, h);
      RootIsTop();
      Paint(top, false, Top, tree);
    }

    lemma RootIsTop()
      requires Shaped()
      ensures top == Root(tree)
    {
    }

    // ---- INSERT ----

    // Every node before the hole is smaller than `key`, every node after it larger.
    ghost predicate Brackets(c: Ctx, key: int) {
      && (forall n | n in Before(c) :: n.key < key)
      && (forall n | n in After(c) :: n.key > key)
    }

    // The search for the place of a key: the node that compares equal, or the
    // node below which it belongs.
    method Descend(node: Node) returns (at: Node?, last: Node?, lastWasLeft: bool, ghost c: Ctx, ghost t: Tree)
      requires Shaped() && Sorted(Contents())
      ensures tree == Plug(c, t) && at == Root(t) && Brackets(c, node.key)
      ensures at == null ==> last == Above(c, null)
      ensures at != null ==> at in nodes && at.key == node.key
      ensures c.Step? ==> lastWasLeft == c.side.L?
    {
      hide Mem, Snap, Shaped, Before, After, InOrder;
      at, last, lastWasLeft := top, null, false;
      c, t := Top, tree;
      RootIsTop();
      EmptyContext();
      while at != null
        invariant tree == Plug(c, t) && at == Root(t) && last == Above(c, null) && Brackets(c, node.key)
        invariant c.Step? ==> lastWasLeft == c.side.L? && last in nodes
        decreases t
      {
        last := at;
        Around(c, t);
        var compare := at.key - node.key;
        if compare > 0 {
          StillBrackets(L, c, t, node.key);
          lastWasLeft := true;
          at := at.left;
          c, t := Step(L, c, t.node, t.red, t.right), t.left;
        } else if compare < 0 {
          StillBrackets(R, c, t, node.key);
          lastWasLeft := false;
          at := at.right;
          c, t := Step(R, c, t.node, t.red, t.left), t.right;
        } else {
          return;
        }
      }
    }

    lemma EmptyContext()
      ensures Before(Top) == [] && After(Top) == []
    {
    }

    lemma StillBrackets(side: Side, c: Ctx, t: Tree, key: int)
      requires t.Bin? && Brackets(c, key) && Sorted(InOrder(Plug(c, t)))
      requires if side.L? then t.node.key > key else t.node.key < key
      ensures Brackets(Step(side, c, t.node, t.red, Far(side, t)), key)
    {
      ContentsOfPlug(c, t);
      FarOrdered(side, c, t);
      hide InOrder, Plug, Sorted;
    }

    lemma FarOrdered(side: Side, c: Ctx, t: Tree)
      requires t.Bin? && Sorted(TreeTheory.Contents(c, t))
      ensures forall n | n in InOrder(Far(side, t)) :: if side.L? then n.key > t.node.key else n.key < t.node.key
    {
      hide InOrder, TreeTheory.Contents;
      forall n | n in InOrder(Far(side, t))
        ensures if side.L? then n.key > t.node.key else n.key < t.node.key
      {
        var far := InOrder(Far(side, t));
        var k :| 0 <= k < |far| && far[k] == n;
        FarIn(side, c, t, k);
      }
    }

    // Where the far part of a tree is in the whole.
    lemma FarIn(side: Side, c: Ctx, t: Tree, k: nat)
      requires t.Bin? && k < |InOrder(Far(side, t))|
      ensures var s, b, l := TreeTheory.Contents(c, t), |Before(c)|, |InOrder(t.left)|;
        var at := if side.L? then b + l + 1 + k else b + k;
        b + l < |s| && at < |s| && s[b + l] == t.node && s[at] == InOrder(Far(side, t))[k]
    {
    }

    method Attach(node: Node, last: Node, lastWasLeft: bool, ghost c: Ctx)
      requires Shaped() && Sized() && tree == Plug(c, Leaf) && node !in nodes
      requires c.Step? && last == c.node && lastWasLeft == c.side.L?
      modifies this`tree, this`nodes, node, last`left, last`right
      ensures nodes == old(nodes) + {node} && node.count == 1
      ensures Shaped() && tree == Plug(c, Bin(Leaf, node, node.isRed, Leaf)) && CtxCounted(Mem(), c, 0)
    {
      hide Placed, Plug, Linked, CtxLinked, CtxCounted, Counted, Nodes, CtxNodes;
      ghost var m := Mem();
      Around(c, Leaf);
      ZoomCounts(m, c, Leaf);
      node.parent := last;
      node.left := null;
      node.right := null;
      if lastWasLeft {
        last.left := node;
      } else {
        last.right := node;
      }
      node.count := 1;
      nodes := nodes + {node};
      tree := Plug(c, Bin(Leaf, node, node.isRed, Leaf));
      Attached(m, Mem(), top, c, node, node.isRed);
      KeepCtxCounted(m, Mem(), c, 0);
    }

    // The loop that adds one to the count of every ancestor.
    method BumpCounts(last: Node?, ghost c0: Ctx, ghost t0: Tree)
      requires Shaped() && tree == Plug(c0, t0) && last == Above(c0, null)
      requires Size(t0) == 1 && Counted(Mem(), t0) && CtxCounted(Mem(), c0, 0)
      modifies nodes`count
      ensures Shaped() && Sized()
    {
      hide Placed, Linked, CtxLinked, CtxCounted, Counted, Nodes, CtxNodes, Snap;
      var at := last;
      ghost var c, t := c0, t0;
      while at != null
        invariant Shaped() && tree == Plug(c, t) && at == Above(c, null)
        invariant Size(t) > 0 && Counted(Mem(), t) && CtxCounted(Mem(), c, Size(t) - 1)
        decreases c
      {
        Around(c, t);
        c, t := BumpCount(at, c, t);
        at := at.parent;
      }
    }

    method BumpCount(at: Node, ghost c: Ctx, ghost t: Tree) returns (ghost c': Ctx, ghost t': Tree)
      requires Shaped() && tree == Plug(c, t) && c.Step? && at == c.node && at in nodes
      requires Size(t) > 0 && Counted(Mem(), t) && CtxCounted(Mem(), c, Size(t) - 1)
      modifies at`count
      ensures c' == c.up && t' == Make(c.side, t, c.node, c.red, c.other)
      ensures Shaped() && tree == Plug(c', t')
      ensures Size(t') > 0 && Counted(Mem(), t') && CtxCounted(Mem(), c', Size(t') - 1)
    {
      hide Placed, Linked, CtxLinked, CtxCounted, Counted, Nodes, CtxNodes;
      ghost var m := Mem();
      ApartInTree(c, t);
      at.count := at.count + 1;
      c', t' := c.up, Make(c.side, t, c.node, c.red, c.other);
      BumpOneCount(m, Mem(), c, t);
      CountChangeKeepsShape(m, Mem(), top, tree, at, at.count);
    }

    lemma ApartInTree(c: Ctx, t: Tree)
      requires Shaped() && tree == Plug(c, t)
      ensures Apart(c, t) && CtxNodes(c) + Nodes(t) == nodes
    {
      PlacedPlug(Mem(), top, c, t);
    }

    // INSERT: either the equal node already in the tree, and nothing has
    // changed, or null, and `node` is in its place in the order.
    method Insert(node: Node) returns (collision: Node?)
      requires Valid() && node !in nodes
      modifies this, node, nodes`left, nodes`right, nodes`parent, nodes`isRed, nodes`count
      ensures Valid()
      ensures collision == null <==> forall n | n in old(Contents()) :: n.key != node.key
      ensures collision != null ==>
        && collision in old(Contents()) && collision.key == node.key
        && unchanged(this) && unchanged(node) && unchanged(nodes)
      ensures collision == null ==> nodes == old(nodes) + {node}
      ensures collision == null ==> exists i | 0 <= i <= |old(Contents())| ::
        Contents() == old(Contents())[..i] + [node] + old(Contents())[i..]
    {
      hide Mem, Snap, Shaped, Sized, Brackets, InOrder, RedBlack, ValidColours, Sorted;
      var at, last, lastWasLeft;
      ghost var c, t;
      at, last, lastWasLeft, c, t := Descend(node);
      collision := null;
      if at != null {
        collision := at;
        PluggedContents(c, t);
      } else {
        Placement(c, node);
        if last == null {
          InsertFirst(node);
          assert Contents() == Before(c) + [node] + After(c);
        } else {
          InsertBelow(node, last, lastWasLeft, c);
        }
      }
    }

    // Linking in, counting and rebalancing.
    method InsertBelow(node: Node, last: Node, lastWasLeft: bool, ghost c: Ctx)
      requires Shaped() && Sized() && ValidColours(tree) && tree == Plug(c, Leaf) && node !in nodes
      requires c.Step? && last == c.node && lastWasLeft == c.side.L?
      modifies this, node, nodes`left, nodes`right, nodes`parent, nodes`isRed, nodes`count
      ensures Shaped() && Sized() && ValidColours(tree) && nodes == old(nodes) + {node}
      ensures InOrder(tree) == Before(c) + [node] + After(c)
    {
      hide Mem, Snap, Shaped, Sized, InOrder, Before, After, RedBlack, CtxRedBlack, InsertInvariant, ValidColours;
      Around(c, Leaf);
      NewLeaf(c, node);
      Attach(node, last, lastWasLeft, c);
      ghost var leaf := Bin(Leaf, node, node.isRed, Leaf);
      LeafIsCounted(node);
      BumpCounts(last, c, leaf);
      Paint(node, true, c, leaf);
      InsertFixup(node, c, Bin(Leaf, node, true, Leaf));
      ContentsOfPlug(c, leaf);
      LeafInOrder(node, leaf.red);
    }

    lemma LeafInOrder(node: Node, red: bool)
      ensures InOrder(Bin(Leaf, node, red, Leaf)) == [node]
    {
    }

    method InsertFirst(node: Node)
      requires Shaped() && tree == Leaf
      modifies this, node
      ensures Shaped() && Sized() && ValidColours(tree) && nodes == {node} == old(nodes) + {node}
      ensures InOrder(tree) == [node]
    {
      top := node;
      node.isRed := false;
      node.left, node.right, node.parent := null, null, null;
      node.count := 1;
      nodes, tree := {node}, Bin(Leaf, node, false, Leaf);
      assert Mem()[node] == Cell(null, null, null, false, 1);
      assert Linked(Mem(), tree, node, null);
      assert Size(tree) == 1;
      assert RedBlack(tree, 1);
    }

    lemma LeafIsCounted(node: Node)
      requires node in nodes && node.count == 1
      ensures Counted(Mem(), Bin(Leaf, node, node.isRed, Leaf)) && Size(Bin(Leaf, node, node.isRed, Leaf)) == 1
    {
    }

    lemma NewLeaf(c: Ctx, node: Node)
      requires ValidColours(Plug(c, Leaf))
      ensures exists h: nat :: InsertInvariant(c, Bin(Leaf, node, true, Leaf), h)
    {
      var h := ColoursOfUnplug(c, Leaf);
      assert InsertInvariant(c, Bin(Leaf, node, true, Leaf), h);
    }

    lemma PluggedContents(c: Ctx, t: Tree)
      requires t.Bin?
      ensures t.node in InOrder(Plug(c, t))
    {
      ContentsOfPlug(c, t);
    }

    lemma Placement(c: Ctx, node: Node)
      requires Sorted(InOrder(Plug(c, Leaf))) && Brackets(c, node.key)
      ensures forall n | n in InOrder(Plug(c, Leaf)) :: n.key != node.key
      ensures var s := InOrder(Plug(c, Leaf));
        var s' := Before(c) + [node] + After(c);
        Sorted(s') && exists i | 0 <= i <= |s| :: s' == s[..i] + [node] + s[i..]
    {
      ContentsOfPlug(c, Leaf);
      var b, a := Before(c), After(c);
      var s := b + a;
      assert InOrder(Plug(c, Leaf)) == s;
      var s' := b + [node] + a;
      assert s[..|b|] == b && s[|b|..] == a;
      hide InOrder, Plug, Before, After;
      forall i, j | 0 <= i < j < |s'|
        ensures s'[i].key < s'[j].key
      {
        InMiddle(b, a, node, i);
        InMiddle(b, a, node, j);
      }
    }

    // An element of a sequence with a node put into it.
    lemma InMiddle(b: seq<Node>, a: seq<Node>, node: Node, i: nat)
      requires i <= |b| + |a|
      ensures var s, s' := b + a, b + [node] + a;
        if i < |b| then s'[i] == s[i] == b[i] && b[i] in b
        else if i == |b| then s'[i] == node
        else s'[i] == s[i - 1] == a[i - 1 - |b|] && a[i - 1 - |b|] in a
    {
    }

    // ---- the rebalancing loop of REMOVE ----

    // Case 1: the sibling w is red.
    method RemoveRedSibling(side: Side, w: Node, p: Node, ghost c: Ctx, ghost t: Tree)
      requires Shaped() && Sized() && tree == Plug(c, t)
      requires c.Step? && c.side == side && p == c.node && c.other.Bin? && w == c.other.node
      modifies this`top, this`tree, nodes`isRed, nodes`left, nodes`right, nodes`parent, nodes`count
      ensures Shaped() && Sized() && InOrder(tree) == old(InOrder(tree))
      ensures tree == Plug(c.up, Rotated(side, Make(side, t, p, true, c.other.(red := false))))
    {
      hide Shaped, Sized, InOrder;
      ghost var w1 := c.other.(red := false);
      Paint(w, false, Step(side.Other(), c.up, p, c.red, t), c.other);
      Paint(p, true, c.up, Make(side, t, p, c.red, w1));
      Rotate(side, p, c.up, Make(side, t, p, true, w1));
    }

    // Case 2: both children of w are black.
    method RemoveBlackNephews(side: Side, w: Node, ghost c: Ctx, ghost t: Tree)
      requires Shaped() && Sized() && tree == Plug(c, t)
      requires c.Step? && c.side == side && c.other.Bin? && w == c.other.node
      modifies this`tree, nodes`isRed
      ensures Shaped() && Sized() && InOrder(tree) == old(InOrder(tree))
      ensures tree == Plug(c.up, Make(side, t, c.node, c.red, c.other.(red := true)))
    {
      hide Shaped, Sized, InOrder;
      Paint(w, true, Step(side.Other(), c.up, c.node, c.red, t), c.other);
    }

    // Case 3: only the near child of w is red.
    method RemoveNearNephew(side: Side, w: Node, near: Node, ghost c: Ctx, ghost t: Tree)
      requires Shaped() && Sized() && tree == Plug(c, t)
      requires c.Step? && c.side == side && c.other.Bin? && w == c.other.node
      requires Near(side, c.other).Bin? && near == Near(side, c.other).node
      modifies this`top, this`tree, nodes`isRed, nodes`left, nodes`right, nodes`parent, nodes`count
      ensures Shaped() && Sized() && InOrder(tree) == old(InOrder(tree))
      ensures tree == Plug(c.(other := TurnedSibling(side, c.other)), t)
    {
      hide Shaped, Sized, InOrder;
      ghost var n, f := Near(side, c.other), Far(side, c.other);
      ghost var n1 := n.(red := false);
      ghost var cw := Step(side.Other(), c.up, c.node, c.red, t);
      Paint(near, false, Step(side, cw, w, c.other.red, f), n);
      Paint(w, true, cw, Make(side, n1, w, c.other.red, f));
      Rotate(side.Other(), w, cw, Make(side, n1, w, true, f));
    }

    // Case 4: the far child of w is red.
    method RemoveFarNephew(side: Side, w: Node, p: Node, far: Node, ghost c: Ctx, ghost t: Tree)
      requires Shaped() && Sized() && tree == Plug(c, t)
      requires c.Step? && c.side == side && p == c.node && p.isRed == c.red && c.other.Bin? && w == c.other.node
      requires Far(side, c.other).Bin? && far == Far(side, c.other).node
      modifies this`top, this`tree, nodes`isRed, nodes`left, nodes`right, nodes`parent, nodes`count
      ensures Shaped() && Sized() && InOrder(tree) == old(InOrder(tree))
      ensures var f := Far(side, c.other).(red := false);
        tree == Plug(c.up, Rotated(side, Make(side, t, p, false, Make(side, Near(side, c.other), w, c.red, f))))
    {
      hide Shaped, Sized, InOrder;
      ghost var n, f := Near(side, c.other), Far(side, c.other);
      ghost var f1 := f.(red := false);
      ghost var w1 := Make(side, n, w, c.red, f);
      ghost var w2 := Make(side, n, w, c.red, f1);
      Paint(w, p.isRed, Step(side.Other(), c.up, p, c.red, t), c.other);
      Paint(p, false, c.up, Make(side, t, p, c.red, w1));
      Paint(far, false, Step(side.Other(), Step(side.Other(), c.up, p, false, t), w, c.red, n), f);
      Rotate(side, p, c.up, Make(side, t, p, false, w2));
    }

    // The fields in and around the sibling of the hole.
    lemma AroundSibling(c: Ctx, t: Tree)
      requires Shaped() && tree == Plug(c, t) && c.Step? && c.other.Bin?
      ensures var w := c.other;
        && c.node in nodes && c.node.isRed == c.red
        && c.node.Child(c.side) == Root(t) && c.node.Child(c.side.Other()) == w.node
        && w.node in nodes && w.node.isRed == w.red
        && w.node.left == Root(w.left) && w.node.right == Root(w.right)
        && (w.left.Bin? ==> w.left.node in nodes && w.left.node.isRed == w.left.red)
        && (w.right.Bin? ==> w.right.node in nodes && w.right.node.isRed == w.right.red)
    {
      hide Shaped, Nodes, CtxNodes;
      var w := c.other;
      var cw := Step(c.side.Other(), c.up, c.node, c.red, t);
      Around(c, t);
      Around(cw, w);
      Around(Step(L, cw, w.node, w.red, w.right), w.left);
      Around(Step(R, cw, w.node, w.red, w.left), w.right);
    }

    // Cases 2 to 4, for a black sibling w.
    method RemoveBlackSibling(side: Side, w: Node, p: Node, ghost c: Ctx, ghost t: Tree, ghost h: nat)
        returns (x: Node, ghost c': Ctx, ghost t': Tree, ghost h': nat)
      requires Shaped() && Sized() && tree == Plug(c, t) && !IsRed(t)
      requires RemoveInvariant(c, t, h) && c.Step? && !IsRed(c.other)
      requires c.side == side && p == c.node && c.other.Bin? && w == c.other.node
      modifies this`top, this`tree, nodes`isRed, nodes`left, nodes`right, nodes`parent, nodes`count
      ensures Shaped() && Sized() && tree == Plug(c', t') && InOrder(tree) == old(InOrder(tree))
      ensures RemoveInvariant(c', t', h') && x == Root(t')
      ensures c'.Top? || (c' == c.up && IsRed(t') == c.red)
    {
      hide Shaped, Sized, InOrder, RedBlack, CtxRedBlack, RemoveInvariant, ValidColours;
      AroundSibling(c, t);
      var near, far := w.Child(side), w.Child(side.Other());
      if !(near != null && near.isRed) && !(far != null && far.isRed) {
        BlackNephews(c, t, h);
        RemoveBlackNephews(side, w, c, t);
        x := p;
        c', t', h' := c.up, Make(side, t, c.node, c.red, c.other.(red := true)), if c.red then h else h + 1;
      } else {
        var v := w;
        ghost var d := c;
        if !(far != null && far.isRed) {
          NearNephew(c, t, h);
          RemoveNearNephew(side, w, near, c, t);
          d := c.(other := TurnedSibling(side, c.other));
          AroundSibling(d, t);
          v := p.Child(side.Other());
        }
        x, c', t', h' := RemoveByFarNephew(side, v, p, d, t, h);
      }
    }

    // Case 4, which ends the loop.
    method RemoveByFarNephew(side: Side, w: Node, p: Node, ghost c: Ctx, ghost t: Tree, ghost h: nat)
        returns (x: Node, ghost c': Ctx, ghost t': Tree, ghost h': nat)
      requires Shaped() && Sized() && tree == Plug(c, t) && !IsRed(t)
      requires RemoveInvariant(c, t, h) && c.Step? && !IsRed(c.other) && c.other.Bin? && IsRed(Far(side, c.other))
      requires c.side == side && p == c.node && w == c.other.node
      modifies this`top, this`tree, nodes`isRed, nodes`left, nodes`right, nodes`parent, nodes`count
      ensures Shaped() && Sized() && tree == Plug(c', t') && InOrder(tree) == old(InOrder(tree))
      ensures RemoveInvariant(c', t', h') && x == Root(t') && c'.Top?
    {
      hide Shaped, Sized, InOrder, RedBlack, CtxRedBlack, RemoveInvariant, ValidColours;
      AroundSibling(c, t);
      FarNephew(c, t, h);
      RemoveFarNephew(side, w, p, w.Child(side.Other()), c, t);
      PlugIsBin(c.up, Rotated(side, Make(side, t, p, false,
        Make(side, Near(side, c.other), w, c.red, Far(side, c.other).(red := false)))));
      x, c', t', h' := Restored();
    }

    // With valid colours the loop is at its end.
    method Restored() returns (x: Node, ghost c: Ctx, ghost t: Tree, ghost h: nat)
      requires Shaped() && tree.Bin? && ValidColours(tree)
      ensures c.Top? && t == tree == Plug(c, t) && RemoveInvariant(c, t, h) && x == Root(t)
    {
      hide ValidColours, RemoveInvariant, Shaped;
      ValidIsFinal(tree);
      c, t := Top, tree;
      h :| RemoveInvariant(Top, tree, h);
      RootIsTop();
      x := top;
    }

    // One round of the loop.  The source writes the body out twice, with left
    // and right exchanged; `side` says which copy this is.
    method RemoveFixupStep(x: Node?, p: Node, ghost c: Ctx, ghost t: Tree, ghost h: nat)
        returns (x': Node, ghost c': Ctx, ghost t': Tree, ghost h': nat)
      requires Shaped() && Sized() && tree == Plug(c, t) && x == Root(t) && !IsRed(t)
      requires RemoveInvariant(c, t, h) && c.Step? && p == c.node
      modifies this`top, this`tree, nodes`isRed, nodes`left, nodes`right, nodes`parent, nodes`count
      ensures Shaped() && Sized() && tree == Plug(c', t') && InOrder(tree) == old(InOrder(tree))
      ensures RemoveInvariant(c', t', h') && x' == Root(t')
      ensures c'.Top? || IsRed(t') || Depth(c') < Depth(c)
    {
      hide Shaped, Sized, InOrder, RedBlack, CtxRedBlack, RemoveInvariant, ValidColours;
      Sibling(c, t, h);
      AroundSibling(c, t);
      Around(c, t);
      var side := if x == p.left then L else R;
      var w := p.Child(side.Other());
      ghost var d := c;
      if w != null && w.isRed {
        RedSibling(c, t, h);
        RemoveRedSibling(side, w, p, c, t);
        d := BelowSibling(c);
        Sibling(d, t, h);
        AroundSibling(d, t);
        w := p.Child(side.Other());
      }
      x', c', t', h' := RemoveBlackSibling(side, w, p, d, t, h);
    }

    // `nullpar` stands in for the parent link of a missing x.
    method RemoveFixup(x0: Node?, nullpar: Node?, ghost c0: Ctx, ghost t0: Tree)
      requires Shaped() && Sized() && tree == Plug(c0, t0) && x0 == Root(t0)
      requires exists h: nat :: RemoveInvariant(c0, t0, h)
      requires x0 == null ==> nullpar == Above(c0, null)
      modifies this`top, this`tree, nodes`isRed, nodes`left, nodes`right, nodes`parent, nodes`count
      ensures Shaped() && Sized() && ValidColours(tree) && InOrder(tree) == old(InOrder(tree))
    {
      hide Mem, Snap, Shaped, Sized, RedBlack, CtxRedBlack, RemoveInvariant, InOrder, ValidColours;
      var x := x0;
      ghost var c, t := c0, t0;
      ghost var h: nat :| RemoveInvariant(c, t, h);
      AroundTop(c, t);
      while x != top && !(x != null && x.isRed)
        invariant Shaped() && Sized() && tree == Plug(c, t) && x == Root(t)
        invariant (x == top <==> c.Top?) && (x != null ==> x.isRed == t.red && x.parent == Above(c, null))
        invariant x == null ==> nullpar == Above(c, null)
        invariant RemoveInvariant(c, t, h) && InOrder(tree) == old(InOrder(tree))
        decreases Pending(c, t)
      {
        var p := if x != null then x.parent else nullpar;
        x, c, t, h := RemoveFixupStep(x, p, c, t, h);
        AroundTop(c, t);
      }
      RemoveFinish(c, t, h);
      if x != null {
        Paint(x, false, c, t);
      }
    }

    lemma AroundTop(c: Ctx, t: Tree)
      requires Shaped() && tree == Plug(c, t)
      ensures Root(t) == top <==> c.Top?
      ensures t.Bin? ==> t.node.isRed == t.red && t.node.parent == Above(c, null)
    {
      hide Shaped;
      Around(c, t);
      RootIsTop();
      ApartInTree(c, t);
      if c.Step? {
        RootIsAbove(c, t);
      }
    }

    lemma {:induction false} RootIsAbove(c: Ctx, t: Tree)
      requires c.Step?
      ensures Plug(c, t).Bin? && Plug(c, t).node in CtxNodes(c)
      decreases c
    {
      if c.up.Step? { RootIsAbove(c.up, Make(c.side, t, c.node, c.red, c.other)); }
    }

    // ---- REMOVE ----

    // Unlinks y, which has at most one child x, and links x in its place.
    // Without an x, nullpar records what x's parent would be.
    method SpliceFields(y: Node) returns (x: Node?, nullpar: Node?)
      requires y in nodes && (y.left == null || y.right == null)
      requires var p, x := y.parent, if y.left != null then y.left else y.right;
        && x != y && p != y && (x != null ==> x in nodes && x != p) && (p != null ==> p in nodes)
      modifies this`top, this`nodes, nodes`left, nodes`right, nodes`parent
      ensures x == old(if y.left != null then y.left else y.right)
      ensures x == null ==> nullpar == old(y.parent)
      ensures y.parent == old(y.parent)
      ensures nodes == old(nodes) - {y}
      ensures SplicedFields(old(Mem()), Mem(), old(top), top, y, x)
    {
      nullpar := null;
      x := if y.left != null then y.left else y.right;
      if x != null {
        x.parent := y.parent;
      } else {
        nullpar := y.parent;
      }
      if y.parent == null {
        top := x;
      } else if y == y.parent.left {
        y.parent.left := x;
      } else {
        y.parent.right := x;
      }
      nodes := nodes - {y};
    }

    method Splice(y: Node, ghost c: Ctx, ghost t: Tree) returns (x: Node?, nullpar: Node?)
      requires Shaped() && Sized() && tree == Plug(c, t) && t.Bin? && t.node == y
      requires t.left.Leaf? || t.right.Leaf?
      modifies this`top, this`tree, this`nodes, nodes`left, nodes`right, nodes`parent
      ensures nodes == old(nodes) - {y} && Shaped() && tree == Plug(c, Spliced(t))
      ensures Counted(Mem(), Spliced(t)) && OthersCounted(Mem(), c)
      ensures x == Root(Spliced(t)) && (x == null ==> nullpar == Above(c, null))
      ensures y.parent == old(y.parent)
    {
      hide Placed, Plug, Counted, OthersCounted, SplicedFields, Snap;
      ghost var m, root := Mem(), top;
      SurgerySiteHere(c, t);
      x, nullpar := SpliceFields(y);
      tree := Plug(c, Spliced(t));
      SplicedWhole(m, Mem(), root, top, c, t);
    }

    lemma SurgerySiteHere(c: Ctx, t: Tree)
      requires Shaped() && tree == Plug(c, t) && t.Bin?
      ensures var n := t.node;
        && n in nodes
        && var p, l, r := n.parent, n.left, n.right;
        && p == Above(c, null) && l == Root(t.left) && r == Root(t.right) && n.isRed == t.red
        && p != n && l != n && r != n && (p == null ==> top == n)
        && (p != null ==> p in nodes && p != l && p != r)
        && (l != null ==> l in nodes && l != r) && (r != null ==> r in nodes)
    {
      hide Placed, Plug;
      SurgerySite(Mem(), top, c, t);
    }

    // FIX_COUNT_AND_UP: recomputes the count of every node from `from` to the top.
    method FixCountsUp(from: Node?, ghost c0: Ctx, ghost t0: Tree)
      requires Shaped() && tree == Plug(c0, t0) && from == Above(c0, null)
      requires Counted(Mem(), t0) && OthersCounted(Mem(), c0)
      modifies nodes`count
      ensures Shaped() && Sized()
    {
      hide Placed, Linked, CtxLinked, OthersCounted, Counted, Nodes, CtxNodes, Snap;
      var at := from;
      ghost var c, t := c0, t0;
      while at != null
        invariant Shaped() && tree == Plug(c, t) && at == Above(c, null)
        invariant Counted(Mem(), t) && OthersCounted(Mem(), c)
        decreases c
      {
        Around(c, t);
        c, t := FixCount(at, c, t);
        at := at.parent;
      }
    }

    method FixCount(at: Node, ghost c: Ctx, ghost t: Tree) returns (ghost c': Ctx, ghost t': Tree)
      requires Shaped() && tree == Plug(c, t) && c.Step? && at == c.node && at in nodes
      requires Counted(Mem(), t) && OthersCounted(Mem(), c)
      modifies at`count
      ensures c' == c.up && t' == Make(c.side, t, c.node, c.red, c.other)
      ensures Shaped() && tree == Plug(c', t') && Counted(Mem(), t') && OthersCounted(Mem(), c')
    {
      hide Placed, Linked, CtxLinked, Counted, Nodes, CtxNodes;
      ghost var m := Mem();
      ApartInTree(c, t);
      Around(c, t);
      CountOfRoot(m, t);
      CountOfRoot(m, c.other);
      var count := 1;
      if at.left != null { count := count + at.left.count; }
      if at.right != null { count := count + at.right.count; }
      at.count := count;
      c', t' := c.up, Make(c.side, t, c.node, c.red, c.other);
      FixOneCount(m, Mem(), c, t);
      CountChangeKeepsShape(m, Mem(), top, tree, at, at.count);
    }

    // y takes z's colour, links and place.  (The source updates the counts
    // before the children's parent links; the counting does not read those.)
    method ReplaceLinks(z: Node, y: Node)
      requires z in nodes && y !in nodes
      requires var p, l, r := z.parent, z.left, z.right;
        && p != z && l != z && r != z && (p != null ==> p in nodes && p != l && p != r)
        && (l != null ==> l in nodes && l != r) && (r != null ==> r in nodes)
      modifies this`top, y`isRed, y`left, y`right, y`parent, nodes`left, nodes`right, nodes`parent
      ensures y.left == old(z.left) && y.right == old(z.right) && y.parent == old(z.parent) && y.isRed == old(z.isRed)
      ensures var l := old(z.left); l != null ==> l.parent == y && l.left == old(l.left) && l.right == old(l.right)
      ensures var r := old(z.right); r != null ==> r.parent == y && r.left == old(r.left) && r.right == old(r.right)
      ensures var p := old(z.parent);
        if p == null then top == y else
          && top == old(top) && p.parent == old(p.parent)
          && p.left == (if old(p.left) == z then y else old(p.left))
          && p.right == (if old(p.left) == z then old(p.right) else y)
      ensures forall n | n in nodes && n != z && n != old(z.left) && n != old(z.right) && n != old(z.parent) ::
        n.left == old(n.left) && n.right == old(n.right) && n.parent == old(n.parent)
    {
      y.isRed := z.isRed;
      y.left := z.left;
      y.right := z.right;
      y.parent := z.parent;
      if y.parent != null {
        if y.parent.left == z {
          y.parent.left := y;
        } else {
          y.parent.right := y;
        }
      } else {
        top := y;
      }
      if y.left != null { y.left.parent := y; }
      if y.right != null { y.right.parent := y; }
    }

    method ReplaceFields(z: Node, y: Node)
      requires z in nodes && y !in nodes
      requires var p, l, r := z.parent, z.left, z.right;
        && p != z && l != z && r != z && (p != null ==> p in nodes && p != l && p != r)
        && (l != null ==> l in nodes && l != r) && (r != null ==> r in nodes)
      modifies this`top, this`nodes, y, nodes`left, nodes`right, nodes`parent
      ensures nodes == old(nodes) - {z} + {y}
      ensures ReplacedFields(old(Mem()), Mem(), old(top), top, z, y)
    {
      ReplaceLinks(z, y);
      nodes := nodes - {z} + {y};
    }

    method Replace(z: Node, y: Node, ghost c: Ctx, ghost t: Tree)
      requires Shaped() && Sized() && tree == Plug(c, t) && t.Bin? && t.node == z && y !in nodes
      modifies this`top, this`tree, this`nodes, y, nodes`left, nodes`right, nodes`parent, nodes`count
      ensures nodes == old(nodes) - {z} + {y}
      ensures Shaped() && Sized() && tree == Plug(c, t.(node := y))
    {
      hide Placed, Plug, Counted, OthersCounted, ReplacedFields, Snap;
      ghost var m, root := Mem(), top;
      SurgerySiteHere(c, t);
      ReplaceFields(z, y);
      tree := Plug(c, t.(node := y));
      ReplacedWhole(m, Mem(), root, top, c, t, y);
      ReplacedStep(c, t, y);
      FixCountsUp(y, Step(L, c, y, t.red, t.right), t.left);
    }

    lemma ReplacedStep(c: Ctx, t: Tree, y: Node)
      requires t.Bin?
      ensures Plug(Step(L, c, y, t.red, t.right), t.left) == Plug(c, t.(node := y))
    {
    }

    // Where a node of the tree is.
    lemma Locate(z: Node) returns (c: Ctx, t: Tree)
      requires Shaped() && z in nodes
      ensures tree == Plug(c, t) && t.Bin? && t.node == z
    {
      c, t := LocateIn(z, Top, tree);
    }

    lemma {:induction false} LocateIn(z: Node, c0: Ctx, t0: Tree) returns (c: Ctx, t: Tree)
      requires z in Nodes(t0)
      ensures Plug(c0, t0) == Plug(c, t) && t.Bin? && t.node == z
      decreases t0
    {
      if z == t0.node {
        c, t := c0, t0;
      } else if z in Nodes(t0.left) {
        c, t := LocateIn(z, Step(L, c0, t0.node, t0.red, t0.right), t0.left);
      } else {
        c, t := LocateIn(z, Step(R, c0, t0.node, t0.red, t0.left), t0.right);
      }
    }

    // Walks to the end of a subtree on the given side.
    method Extreme(side: Side, from: Node, ghost outer: Ctx, ghost t0: Tree)
        returns (at: Node, ghost inner: Ctx, ghost t: Tree)
      requires Shaped() && tree == Plug(outer, t0) && t0.Bin? && t0.node == from
      ensures t.Bin? && t.node == at && t0 == Plug(inner, t) && at.Child(side) == null && Near(side, t) == Leaf
      ensures if side.L? then Before(inner) == [] else After(inner) == []
    {
      hide Shaped, Before, After;
      at, inner, t := from, Top, t0;
      EmptyContext();
      Around(outer, t0);
      while at.Child(side) != null
        invariant t.Bin? && t.node == at && t0 == Plug(inner, t)
        invariant tree == Plug(Compose(outer, inner), t)
        invariant at.left == Root(t.left) && at.right == Root(t.right)
        invariant if side.L? then Before(inner) == [] else After(inner) == []
        decreases t
      {
        ghost var next := Step(side, inner, t.node, t.red, Far(side, t));
        SameSide(side, inner, t);
        PlugCompose(outer, next, Near(side, t));
        at := at.Child(side);
        inner, t := next, Near(side, t);
        Around(Compose(outer, inner), t);
      }
    }

    lemma SameSide(side: Side, c: Ctx, t: Tree)
      requires t.Bin?
      ensures var d := Step(side, c, t.node, t.red, Far(side, t));
        if side.L? then Before(d) == Before(c) else After(d) == After(c)
    {
    }

    // What removing z does to the colours and the contents, when z itself is spliced out ...
    lemma SplicedColours(c: Ctx, t: Tree)
      requires ValidColours(Plug(c, t)) && t.Bin? && (t.left.Leaf? || t.right.Leaf?)
      ensures t.red ==> ValidColours(Plug(c, Spliced(t)))
      ensures !t.red ==> exists h: nat :: RemoveInvariant(c, Spliced(t), h)
    {
      var h := ColoursOfUnplug(c, t);
      var x := Spliced(t);
      if t.red {
        ColoursOfPlug(c, x, h);
      } else {
        assert RedBlack(x, h - 1) && (IsRed(x) ==> RedBlack(x.(red := false), h));
        assert RemoveInvariant(c, x, h - 1);
      }
    }

    // ... and when its successor, at `inner` in the right subtree of z, is.
    lemma ReplacedColours(c: Ctx, z: Tree, inner: Ctx, t: Tree)
      requires z.Bin? && z.right == Plug(inner, t) && ValidColours(Plug(c, z))
      requires t.Bin? && (t.left.Leaf? || t.right.Leaf?)
      ensures var outer := Step(R, c, t.node, z.red, z.left);
        && (t.red ==> ValidColours(Plug(Compose(outer, inner), Spliced(t))))
        && (!t.red ==> exists h: nat :: RemoveInvariant(Compose(outer, inner), Spliced(t), h))
    {
      var was := Step(R, c, z.node, z.red, z.left);
      var outer := was.(node := t.node);
      PlugCompose(was, inner, t);
      var h := ColoursOfUnplug(Compose(was, inner), t);
      ColoursOfCompose(was, t.node, inner, h);
      var x := Spliced(t);
      if t.red {
        ColoursOfPlug(Compose(outer, inner), x, h);
      } else {
        assert RedBlack(x, h - 1) && (IsRed(x) ==> RedBlack(x.(red := false), h));
        assert RemoveInvariant(Compose(outer, inner), x, h - 1);
      }
    }

    ghost predicate Without(s: seq<Node>, z: Node, s': seq<Node>) {
      exists i | 0 <= i < |s| :: s[i] == z && s' == s[..i] + s[i + 1..]
    }

    lemma WithoutMiddle(before: seq<Node>, a: seq<Node>, z: Node, b: seq<Node>, after: seq<Node>)
      ensures Without(before + (a + [z] + b) + after, z, before + (a + b) + after)
    {
      var s := before + (a + [z] + b) + after;
      var i := |before| + |a|;
      assert s[i] == z;
      assert s[..i] == before + a;
      assert s[i + 1..] == b + after;
      assert before + (a + b) + after == before + a + (b + after);
    }

    lemma SplicedContents(c: Ctx, t: Tree)
      requires t.Bin? && (t.left.Leaf? || t.right.Leaf?)
      ensures Without(InOrder(Plug(c, t)), t.node, InOrder(Plug(c, Spliced(t))))
    {
      hide Without, Plug, Before, After;
      ContentsOfPlug(c, t);
      ContentsOfPlug(c, Spliced(t));
      WithoutMiddle(Before(c), InOrder(t.left), t.node, InOrder(t.right), After(c));
      assert InOrder(t.left) + InOrder(t.right) == InOrder(Spliced(t));
    }

    lemma ReplacedContents(c: Ctx, z: Tree, inner: Ctx, t: Tree)
      requires z.Bin? && z.right == Plug(inner, t) && t.Bin? && t.left.Leaf? && Before(inner) == []
      ensures Without(InOrder(Plug(c, z)), z.node,
        InOrder(Plug(c, z.(node := t.node, right := Plug(inner, Spliced(t))))))
    {
      hide Without, Plug, Before, After;
      var z' := z.(node := t.node, right := Plug(inner, Spliced(t)));
      ContentsOfPlug(c, z);
      ContentsOfPlug(c, z');
      SuccessorContents(inner, t);
      var a, r := InOrder(z.left), InOrder(z'.right);
      WithoutMiddle(Before(c), a, z.node, [t.node] + r, After(c));
      assert a + ([t.node] + r) == InOrder(z');
    }

    lemma SuccessorContents(inner: Ctx, t: Tree)
      requires t.Bin? && t.left.Leaf? && Before(inner) == []
      ensures InOrder(Plug(inner, t)) == [t.node] + InOrder(Plug(inner, Spliced(t)))
    {
      ContentsOfPlug(inner, t);
      ContentsOfPlug(inner, Spliced(t));
      assert InOrder(t) == [t.node] + InOrder(Spliced(t));
    }

    lemma WithoutSorted(s: seq<Node>, z: Node, s': seq<Node>)
      requires Sorted(s) && Without(s, z, s')
      ensures Sorted(s')
    {
      var i :| 0 <= i < |s| && s[i] == z && s' == s[..i] + s[i + 1..];
      forall j, k | 0 <= j < k < |s'|
        ensures s'[j].key < s'[k].key
      {
        WithoutAt(s, i, j);
        WithoutAt(s, i, k);
      }
    }

    lemma WithoutAt(s: seq<Node>, i: nat, j: nat)
      requires i < |s| && j < |s| - 1
      ensures (s[..i] + s[i + 1..])[j] == s[if j < i then j else j + 1]
    {
    }

    // REMOVE when z has at most one child: z itself is spliced out.
    method RemoveHere(z: Node, ghost c: Ctx, ghost t: Tree)
      requires Shaped() && Sized() && ValidColours(tree) && tree == Plug(c, t) && t.Bin? && t.node == z
      requires z in nodes && z.isRed == t.red && z.parent == Above(c, null) && (t.left.Leaf? || t.right.Leaf?)
      modifies this, nodes
      ensures Shaped() && Sized() && ValidColours(tree) && nodes == old(nodes) - {z}
      ensures Without(old(InOrder(tree)), z, InOrder(tree))
    {
      hide Mem, Snap, Shaped, Sized, Without, InOrder, ValidColours, RemoveInvariant;
      SplicedColours(c, t);
      SplicedContents(c, t);
      var y := z;
      var x, nullpar := Splice(y, c, t);
      FixCountsUp(y.parent, c, Spliced(t));
      if !y.isRed {
        RemoveFixup(x, nullpar, c, Spliced(t));
      }
    }

    // REMOVE when z has two children: its successor y is spliced out and then
    // takes z's place.
    method RemoveSuccessor(z: Node, ghost c: Ctx, ghost t: Tree)
      requires Shaped() && Sized() && ValidColours(tree) && tree == Plug(c, t) && t.Bin? && t.node == z
      requires z in nodes && t.right.Bin? && z.right == t.right.node
      modifies this, nodes
      ensures Shaped() && Sized() && ValidColours(tree) && nodes == old(nodes) - {z}
      ensures Without(old(InOrder(tree)), z, InOrder(tree))
    {
      hide Mem, Snap, Shaped, Sized, Without, InOrder, ValidColours, RemoveInvariant;
      ghost var outer := Step(R, c, z, t.red, t.left);
      var y;
      ghost var inner, ty;
      y, inner, ty := Extreme(L, z.right, outer, t.right);
      PlugCompose(outer, inner, ty);
      ReplacedColours(c, t, inner, ty);
      ReplacedContents(c, t, inner, ty);
      ghost var x', t' := Spliced(ty), t.(right := Plug(inner, Spliced(ty)));
      Around(Compose(outer, inner), ty);
      Apartness(c, t, inner, ty);
      var x, nullpar := Splice(y, Compose(outer, inner), ty);
      PlugCompose(outer, inner, x');
      FixCountsUp(y.parent, Compose(outer, inner), x');
      var fixup := !y.isRed;
      Replace(z, y, c, t');
      if nullpar == z {
        nullpar := y;
      }
      ghost var outer' := outer.(node := y);
      PlugCompose(outer', inner, x');
      AboveCompose(outer, inner);
      AboveCompose(outer', inner);
      if fixup {
        RemoveFixup(x, nullpar, Compose(outer', inner), x');
      }
    }

    lemma Apartness(c: Ctx, z: Tree, inner: Ctx, t: Tree)
      requires Shaped() && tree == Plug(c, z) && z.Bin? && z.right == Plug(inner, t) && t.Bin?
      ensures t.node != z.node && (inner.Step? ==> inner.node != z.node)
    {
      hide Shaped;
      ApartInTree(c, z);
      ApartOfPlug(inner, t);
    }

    // REMOVE: z leaves, everything else stays, in order; z's links are cleared.
    method Remove(z: Node)
      requires Valid() && z in nodes
      modifies this, nodes
      ensures Valid() && nodes == old(nodes) - {z}
      ensures exists i | 0 <= i < |old(Contents())| ::
        && old(Contents())[i] == z
        && Contents() == old(Contents())[..i] + old(Contents())[i + 1..]
      ensures z.left == null && z.right == null && z.parent == null
    {
      hide Mem, Snap, Shaped, Sized, Sorted, InOrder, ValidColours;
      ghost var before, all := Contents(), nodes;
      ghost var c, t := Locate(z);
      SurgerySiteHere(c, t);
      if z.left == null || z.right == null {
        RemoveHere(z, c, t);
      } else {
        RemoveSuccessor(z, c, t);
      }
      WithoutSorted(before, z, Contents());
      z.left := null;
      z.right := null;
      z.parent := null;
    }

    // ---- queries ----

    lemma OnePlace()
      requires Valid()
      ensures forall i, j :: 0 <= i < |Contents()| && 0 <= j < |Contents()| && Contents()[i] == Contents()[j] ==> i == j
      ensures forall n :: n in nodes <==> n in Contents()
    {
      NodesAreContents(tree);
      ApartInTree(Top, tree);
    }

    lemma PlaceOf(c: Ctx, t: Tree)
      requires tree == Plug(c, t)
      ensures |Contents()| == |Before(c)| + |InOrder(t)| + |After(c)|
      ensures forall i | 0 <= i < |Before(c)| :: Contents()[i] == Before(c)[i]
      ensures forall i | 0 <= i < |InOrder(t)| :: Contents()[|Before(c)| + i] == InOrder(t)[i]
      ensures forall i | 0 <= i < |After(c)| :: Contents()[|Before(c)| + |InOrder(t)| + i] == After(c)[i]
    {
      ContentsOfPlug(c, t);
      hide InOrder, Plug, Before, After;
      ThreeParts(Before(c), InOrder(t), After(c));
    }

    lemma ThreeParts(a: seq<Node>, b: seq<Node>, c: seq<Node>)
      ensures var s := a + b + c;
        && |s| == |a| + |b| + |c|
        && (forall i | 0 <= i < |a| :: s[i] == a[i])
        && (forall i | 0 <= i < |b| :: s[|a| + i] == b[i])
        && (forall i | 0 <= i < |c| :: s[|a| + |b| + i] == c[i])
    {
    }

    lemma EndOfSubtree(side: Side, inner: Ctx, u: Tree)
      requires u.Bin? && Near(side, u) == Leaf
      requires if side.L? then Before(inner) == [] else After(inner) == []
      ensures var s := InOrder(Plug(inner, u)); s != [] && s[if side.L? then 0 else |s| - 1] == u.node
    {
      ContentsOfPlug(inner, u);
      var s := TreeTheory.Contents(inner, u);
      if side.L? {
        assert InOrder(u)[0] == u.node;
        assert s[0] == InOrder(u)[0];
      } else {
        assert InOrder(u)[|InOrder(u)| - 1] == u.node;
        assert s[|s| - 1] == InOrder(u)[|InOrder(u)| - 1];
      }
    }

    // FIRST for side L, LAST for side R.
    method End(side: Side) returns (out: Node?)
      requires Valid()
      ensures Contents() == [] ==> out == null
      ensures Contents() != [] ==> out == Contents()[if side.L? then 0 else |Contents()| - 1]
    {
      hide Shaped, Sized, InOrder, Sorted, ValidColours, Before, After;
      RootIsTop();
      out := top;
      if out != null {
        ghost var inner, t;
        out, inner, t := Extreme(side, out, Top, tree);
        EndOfSubtree(side, inner, t);
      } else {
        EmptyTree();
      }
    }

    lemma EmptyTree()
      ensures InOrder(Leaf) == []
    {
    }

    // The neighbour on `side` of s[i].
    ghost function Beside(s: seq<Node>, side: Side, i: nat): Node?
      requires i < |s|
    {
      if side.R? then (if i + 1 < |s| then s[i + 1] else null) else (if i > 0 then s[i - 1] else null)
    }

    lemma BesideMiddle(before: seq<Node>, l: seq<Node>, n: Node, r: seq<Node>, after: seq<Node>)
      ensures var s, i := before + (l + [n] + r) + after, |before| + |l|;
        && s[i] == n
        && (r != [] ==> Beside(s, R, i) == r[0]) && (l != [] ==> Beside(s, L, i) == l[|l| - 1])
    {
      var m := l + [n] + r;
      var s := before + m + after;
      assert forall k | 0 <= k < |m| :: s[|before| + k] == m[k];
      assert m[|l|] == n && (r != [] ==> m[|l| + 1] == r[0]) && (l != [] ==> m[|l| - 1] == l[|l| - 1]);
    }

    lemma BesideBelow(side: Side, c: Ctx, t: Tree)
      requires t.Bin? && InOrder(Near(side, t)) != []
      ensures var s, i, r := InOrder(Plug(c, t)), |Before(c)| + |InOrder(t.left)|, InOrder(Near(side, t));
        i < |s| && Beside(s, side, i) == r[if side.L? then |r| - 1 else 0]
    {
      hide Beside, Before, After, Plug;
      ContentsOfPlug(c, t);
      BesideMiddle(Before(c), InOrder(t.left), t.node, InOrder(t.right), After(c));
      assert InOrder(t) == InOrder(t.left) + [t.node] + InOrder(t.right);
      assert |InOrder(Plug(c, t))| > |Before(c)| + |InOrder(t.left)|;
    }

    lemma BesideAbove(side: Side, c: Ctx, t: Tree)
      requires t.Bin? && (c.Step? ==> c.side != side)
      ensures var s, i := InOrder(Plug(c, t)), if side.R? then |Before(c)| + |InOrder(t)| - 1 else |Before(c)|;
        i < |s| && Beside(s, side, i) == Above(c, null)
    {
      ContentsOfPlug(c, t);
      var s := TreeTheory.Contents(c, t);
      if c.Step? {
        if side.R? {
          assert s[|Before(c)| + |InOrder(t)|] == c.node;
        } else {
          assert s[|Before(c)| - 1] == c.node;
        }
      }
    }

    lemma PlaceOfRoot(c: Ctx, t: Tree)
      requires t.Bin?
      ensures var i := |Before(c)| + |InOrder(t.left)|;
        i < |InOrder(Plug(c, t))| && InOrder(Plug(c, t))[i] == t.node
    {
      ContentsOfPlug(c, t);
      var s, i := TreeTheory.Contents(c, t), |Before(c)| + |InOrder(t.left)|;
      assert s[i] == InOrder(t)[|InOrder(t.left)|];
    }

    // NEXT for side R, PREV for side L.
    method Neighbour(side: Side, node: Node) returns (out: Node?)
      requires Valid() && node in nodes
      ensures forall i | 0 <= i < |Contents()| && Contents()[i] == node :: out == Beside(Contents(), side, i)
    {
      hide Shaped, Sized, Mem, InOrder, Sorted, ValidColours, Before, After, Beside;
      OnePlace();
      ghost var c, t := Locate(node);
      Around(c, t);
      PlaceOfRoot(c, t);
      if node.Child(side) != null {
        var child := node.Child(side);
        ghost var outer, inner, u := Step(side, c, node, t.red, Far(side, t)), Top, t;
        out, inner, u := Extreme(side.Other(), child, outer, Near(side, t));
        EndOfSubtree(side.Other(), inner, u);
        BesideBelow(side, c, t);
      } else {
        out := Climb(side, node, c, t);
      }
    }

    method Climb(side: Side, node: Node, ghost c0: Ctx, ghost t0: Tree) returns (out: Node?)
      requires Shaped() && tree == Plug(c0, t0) && t0.Bin? && t0.node == node && Near(side, t0) == Leaf
      ensures var i := |Before(c0)| + |InOrder(t0.left)|;
        i < |Contents()| && out == Beside(Contents(), side, i)
    {
      hide Shaped, Mem, Beside;
      Around(c0, t0);
      var at, parent := node, node.parent;
      ghost var c, t := c0, t0;
      while parent != null && at == parent.Child(side)
        invariant t.Bin? && tree == Plug(c, t) && at == t.node && parent == Above(c, null)
        invariant c.Step? ==> parent.Child(c.side) == at && parent.Child(c.side.Other()) != at
        invariant |Before(c0)| + |InOrder(t0.left)| == if side.R? then |Before(c)| + |InOrder(t)| - 1 else |Before(c)|
        decreases c
      {
        c, t := c.up, Make(c.side, t, c.node, c.red, c.other);
        Around(c, t);
        at := parent;
        parent := parent.parent;
      }
      out := parent;
      BesideAbove(side, c, t);
    }

    // LOOKUP_COMPARATOR.
    method Lookup(key: int) returns (at: Node?)
      requires Valid()
      ensures at != null ==> at in Contents() && at.key == key
      ensures at == null ==> forall n | n in Contents() :: n.key != key
    {
      hide Mem, Snap, Shaped, Sized, ValidColours, Sorted, Before, After, InOrder;
      at := top;
      ghost var c, t := Top, tree;
      RootIsTop();
      EmptyContext();
      while at != null
        invariant tree == Plug(c, t) && at == Root(t) && Brackets(c, key)
        decreases t
      {
        Around(c, t);
        var compare := key - at.key;
        if compare < 0 {
          StillBrackets(L, c, t, key);
          at := at.left;
          c, t := Step(L, c, t.node, t.red, t.right), t.left;
        } else if compare > 0 {
          StillBrackets(R, c, t, key);
          at := at.right;
          c, t := Step(R, c, t.node, t.red, t.left), t.right;
        } else {
          PluggedContents(c, t);
          return;
        }
      }
      BracketedContents(c, key);
    }

    lemma BracketedContents(c: Ctx, key: int)
      requires Brackets(c, key)
      ensures forall n | n in InOrder(Plug(c, Leaf)) :: n in Before(c) || n in After(c)
      ensures forall n | n in InOrder(Plug(c, Leaf)) :: n.key != key
    {
      ContentsOfPlug(c, Leaf);
    }

    // LOOKUP_OR_NEXT_COMPARATOR for side R, LOOKUP_OR_PREV_COMPARATOR for side
    // L: the nearest node at or after (at or before) the key.
    ghost predicate AtOrBeyond(side: Side, n: Node, key: int) {
      if side.R? then n.key >= key else n.key <= key
    }

    // How far the search has got: everything beyond the hole is at or beyond
    // the key, the best so far being the nearest of it, and everything on the
    // other side of the hole falls short.
    ghost predicate Narrowed(side: Side, c: Ctx, best: Node?, key: int) {
      var short, beyond := if side.R? then Before(c) else After(c), if side.R? then After(c) else Before(c);
      && (forall n | n in short :: !AtOrBeyond(side, n, key))
      && (forall n | n in beyond :: AtOrBeyond(side, n, key))
      && best == if beyond == [] then null else beyond[if side.R? then 0 else |beyond| - 1]
    }

    method LookupOr(side: Side, key: int) returns (best: Node?)
      requires Valid()
      ensures best == null ==> forall n | n in Contents() :: !AtOrBeyond(side, n, key)
      ensures best != null ==>
        && best in Contents() && AtOrBeyond(side, best, key)
        && forall n | n in Contents() && AtOrBeyond(side, n, key) :: AtOrBeyond(side, n, best.key)
    {
      hide Mem, Snap, Shaped, Sized, ValidColours, Sorted, Before, After, InOrder, Narrowed;
      var at := top;
      best := null;
      ghost var c, t := Top, tree;
      RootIsTop();
      NothingNarrowed(side, key);
      while at != null
        invariant tree == Plug(c, t) && at == Root(t) && Narrowed(side, c, best, key)
        decreases t
      {
        Around(c, t);
        var compare := key - at.key;
        if (if side.R? then compare <= 0 else compare >= 0) {
          NarrowTo(side, c, t, best, key);
          best := at;
          at := at.Child(side.Other());
          c, t := Step(side.Other(), c, t.node, t.red, Near(side, t)), Far(side, t);
        } else {
          NarrowPast(side, c, t, best, key);
          at := at.Child(side);
          c, t := Step(side, c, t.node, t.red, Far(side, t)), Near(side, t);
        }
      }
      NarrowedToNothing(side, c, best, key);
    }

    lemma NothingNarrowed(side: Side, key: int)
      ensures Narrowed(side, Top, null, key)
    {
    }

    lemma SortedSides(before: seq<Node>, l: seq<Node>, n: Node, r: seq<Node>, after: seq<Node>)
      requires Sorted(before + (l + [n] + r) + after)
      ensures forall k | k in l :: k.key < n.key
      ensures forall k | k in r :: k.key > n.key
    {
      var s, at := before + (l + [n] + r) + after, |before| + |l|;
      assert s[at] == n;
      assert forall i | 0 <= i < |l| :: s[|before| + i] == l[i];
      assert forall i | 0 <= i < |r| :: s[at + 1 + i] == r[i];
    }

    lemma SideOfRoot(side: Side, c: Ctx, t: Tree)
      requires t.Bin? && Sorted(InOrder(Plug(c, t)))
      ensures forall n | n in InOrder(Near(side, t)) :: if side.R? then n.key > t.node.key else n.key < t.node.key
    {
      hide Plug, Before, After;
      ContentsOfPlug(c, t);
      SortedSides(Before(c), InOrder(t.left), t.node, InOrder(t.right), After(c));
    }

    lemma NarrowTo(side: Side, c: Ctx, t: Tree, best: Node?, key: int)
      requires t.Bin? && Sorted(InOrder(Plug(c, t))) && Narrowed(side, c, best, key) && AtOrBeyond(side, t.node, key)
      ensures Narrowed(side, Step(side.Other(), c, t.node, t.red, Near(side, t)), t.node, key)
    {
      SideOfRoot(side, c, t);
    }

    lemma NarrowPast(side: Side, c: Ctx, t: Tree, best: Node?, key: int)
      requires t.Bin? && Sorted(InOrder(Plug(c, t))) && Narrowed(side, c, best, key) && !AtOrBeyond(side, t.node, key)
      ensures Narrowed(side, Step(side, c, t.node, t.red, Far(side, t)), best, key)
    {
      SideOfRoot(side.Other(), c, t);
    }

    lemma NarrowedToNothing(side: Side, c: Ctx, best: Node?, key: int)
      requires Narrowed(side, c, best, key) && Sorted(InOrder(Plug(c, Leaf)))
      ensures var s := InOrder(Plug(c, Leaf));
        if best == null then forall n | n in s :: !AtOrBeyond(side, n, key)
        else && best in s && AtOrBeyond(side, best, key)
             && forall n | n in s && AtOrBeyond(side, n, key) :: AtOrBeyond(side, n, best.key)
    {
      ContentsOfPlug(c, Leaf);
      var s := Before(c) + After(c);
      assert InOrder(Plug(c, Leaf)) == s;
      var k := if side.R? then |Before(c)| else |Before(c)| - 1;
      if best != null {
        assert s[k] == best;
        forall n | n in s && AtOrBeyond(side, n, key)
          ensures AtOrBeyond(side, n, best.key)
        {
          var i :| 0 <= i < |s| && s[i] == n;
          assert if side.R? then i >= k else i <= k;
        }
      }
    }

    // GET_BY_INDEX.
    method GetByIndex(index: nat) returns (out: Node?)
      requires Valid()
      ensures out == if index < |Contents()| then Contents()[index] else null
    {
      hide Shaped, Sized, Snap, ValidColours, Sorted, Before, After, InOrder;
      RootIsTop();
      CountOfTop();
      if top == null || index >= top.count {
        return null;
      }
      var at, i := top, index;
      ghost var c, t := Top, tree;
      EmptyContext();
      while true
        invariant t.Bin? && tree == Plug(c, t) && at == t.node
        invariant 0 <= i < |InOrder(t)| && |Before(c)| + i == index
        decreases t
      {
        Around(c, t);
        CountOfLeft(c, t);
        PartsOfContents(c, t);
        var leftSize := if at.left != null then at.left.count else 0;
        if i < leftSize {
          at := at.left;
          c, t := Step(L, c, t.node, t.red, t.right), t.left;
        } else if i == leftSize {
          break;
        } else {
          i := i - (leftSize + 1);
          at := at.right;
          c, t := Step(R, c, t.node, t.red, t.left), t.right;
        }
      }
      PlaceOfRoot(c, t);
      out := at;
    }

    // GET_NODE_INDEX: the inverse of GET_BY_INDEX.
    method GetNodeIndex(node: Node) returns (index: nat)
      requires Valid() && node in nodes
      ensures index < |Contents()| && Contents()[index] == node
      ensures forall i | 0 <= i < |Contents()| && Contents()[i] == node :: i == index
    {
      hide Shaped, Sized, Snap, ValidColours, Sorted, Before, After, InOrder;
      ghost var c, t := Locate(node);
      Around(c, t);
      CountOfLeft(c, t);
      PlaceOfRoot(c, t);
      OnePlace();
      var at := node;
      index := if at.left != null then at.left.count else 0;
      ghost var place := |Before(c)| + index;
      while at.parent != null
        invariant t.Bin? && tree == Plug(c, t) && at == t.node && at.parent == Above(c, null)
        invariant c.Step? ==> at.parent.Child(c.side) == at && at.parent.Child(c.side.Other()) == Root(c.other) != at
        invariant |Before(c)| + index == place
        decreases c
      {
        Around(c, t);
        CountOfOther(c, t);
        if at.parent.left == at {
        } else {
          if at.parent.left != null {
            index := index + at.parent.left.count;
          }
          index := index + 1;
        }
        at := at.parent;
        c, t := c.up, Make(c.side, t, c.node, c.red, c.other);
        Around(c, t);
      }
      EmptyContext();
    }

    lemma CountOfTop()
      requires Shaped() && Sized()
      ensures if top == null then Contents() == [] else top.count == |Contents()|
    {
      SizeIsLength(tree);
    }

    lemma PartsOfContents(c: Ctx, t: Tree)
      requires t.Bin?
      ensures |InOrder(t)| == |InOrder(t.left)| + 1 + |InOrder(t.right)|
      ensures (|InOrder(t.left)| > 0 ==> t.left.Bin?) && (|InOrder(t.right)| > 0 ==> t.right.Bin?)
      ensures Before(Step(L, c, t.node, t.red, t.right)) == Before(c)
      ensures |Before(Step(R, c, t.node, t.red, t.left))| == |Before(c)| + |InOrder(t.left)| + 1
    {
    }

    lemma CountOfLeft(c: Ctx, t: Tree)
      requires Shaped() && Sized() && tree == Plug(c, t) && t.Bin?
      ensures (if t.node.left != null then t.node.left.count else 0) == |InOrder(t.left)|
    {
      hide Shaped;
      Around(c, t);
      ZoomCounts(Mem(), c, t);
      assert Counted(Mem(), t.left);
      SizeIsLength(t.left);
    }

    lemma CountOfOther(c: Ctx, t: Tree)
      requires Shaped() && Sized() && tree == Plug(c, t) && c.Step?
      ensures c.side.R? && c.other.Bin? ==> c.other.node.count == |InOrder(c.other)|
      ensures |Before(c)| == |Before(c.up)| + if c.side.L? then 0 else |InOrder(c.other)| + 1
      ensures c.other.Leaf? ==> |InOrder(c.other)| == 0
    {
      hide Shaped;
      Around(c, t);
      ZoomCounts(Mem(), c, t);
      SizeIsLength(c.other);
    }

    // A tree of n nodes is at most 2*log2(n + 1) high.
    lemma HeightOfTree()
      requires Valid()
      ensures Pow2(Height(tree)) <= (|Contents()| + 1) * (|Contents()| + 1)
    {
      hide Shaped, Sized, Sorted, ValidColours, InOrder;
      HeightBound(tree);
      SizeIsLength(tree);
    }
  }
}
