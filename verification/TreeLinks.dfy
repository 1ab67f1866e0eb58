// How the heap of src/yc-rbtree-macros.h realises a ghost Tree.  The heap is
// looked at through a snapshot of the fields of the nodes concerned, so that
// every fact below is about values.
module TreeLinks {
  import opened TreeTheory

  datatype Cell = Cell(left: Node?, right: Node?, parent: Node?, red: bool, count: nat) {
    ghost function Kid(side: Side): Node? {
      if side.L? then left else right
    }
  }

  type Mem = map<Node, Cell>

  ghost function Snap(s: set<Node>): (m: Mem)
    reads s
    ensures m.Keys == s
  {
    map n | n in s :: Cell(n.left, n.right, n.parent, n.isRed, n.count)
  }

  // The nodes of `t` are linked as `t` says, below `parent`.
  ghost predicate Linked(m: Mem, t: Tree, root: Node?, parent: Node?) {
    match t
    case Leaf => root == null
    case Bin(l, n, red, r) =>
      && root == n && n in m && m[n].parent == parent && m[n].red == red
      && Linked(m, l, m[n].left, n) && Linked(m, r, m[n].right, n)
  }

  // The nodes of `c` are linked as `c` says: `root` at the top, below `base`,
  // and `hole` as the child pointer where the hole is.
  ghost predicate CtxLinked(m: Mem, c: Ctx, root: Node?, base: Node?, hole: Node?) {
    match c
    case Top => root == hole
    case Step(side, up, n, red, o) =>
      && n in m && m[n].Kid(side) == hole && m[n].parent == Above(up, base) && m[n].red == red
      && Linked(m, o, m[n].Kid(side.Other()), n)
      && CtxLinked(m, up, root, base, n)
  }

  // Every count field is the size of its subtree.
  ghost predicate Counted(m: Mem, t: Tree) {
    match t
    case Leaf => true
    case Bin(l, n, _, r) => n in m && m[n].count == Size(t) && Counted(m, l) && Counted(m, r)
  }

  ghost predicate CtxCounted(m: Mem, c: Ctx, hole: nat) {
    match c
    case Top => true
    case Step(_, up, n, _, o) =>
      && n in m && m[n].count == hole + 1 + Size(o)
      && Counted(m, o) && CtxCounted(m, up, hole + 1 + Size(o))
  }

  // `t` hangs in the hole of `c`, and the two together from `root`.
  ghost predicate Placed(m: Mem, root: Node?, c: Ctx, t: Tree) {
    && Apart(c, t) && CtxNodes(c) + Nodes(t) == m.Keys
    && CtxLinked(m, c, root, null, Root(t)) && Linked(m, t, Root(t), Above(c, null))
  }

  ghost predicate CountedAt(m: Mem, c: Ctx, t: Tree) {
    CtxCounted(m, c, Size(t)) && Counted(m, t)
  }

  lemma LinkedPieces(m: Mem, side: Side, t: Tree, parent: Node?) returns (near: Tree, far: Tree)
    requires t.Bin? && Distinct(t) && Linked(m, t, t.node, parent)
    ensures near == Near(side, t) && far == Far(side, t) && t == Make(side, near, t.node, t.red, far)
    ensures Nodes(t) == Nodes(near) + {t.node} + Nodes(far)
    ensures Distinct(near) && Distinct(far) && Nodes(near) !! Nodes(far)
    ensures t.node !in Nodes(near) && t.node !in Nodes(far)
    ensures t.node in m && m[t.node].Kid(side) == Root(near) && m[t.node].Kid(side.Other()) == Root(far)
    ensures Linked(m, near, Root(near), t.node) && Linked(m, far, Root(far), t.node)
  {
    near, far := Pieces(side, t);
  }

  lemma CountedPieces(m: Mem, side: Side, t: Tree) returns (near: Tree, far: Tree)
    requires t.Bin? && Distinct(t) && Counted(m, t)
    ensures near == Near(side, t) && far == Far(side, t)
    ensures Nodes(t) == Nodes(near) + {t.node} + Nodes(far) && Nodes(near) !! Nodes(far)
    ensures Distinct(near) && Distinct(far) && t.node !in Nodes(near) && t.node !in Nodes(far)
    ensures t.node in m && m[t.node].count == Size(t) == Size(near) + 1 + Size(far)
    ensures Counted(m, near) && Counted(m, far)
  {
    near, far := Pieces(side, t);
  }

  // Looking at a whole tree and looking at one subtree in its context are the same.
  lemma {:induction false} Zoom(m: Mem, c: Ctx, t: Tree, root: Node?, base: Node?)
    ensures Linked(m, Plug(c, t), root, base) <==>
            CtxLinked(m, c, root, base, Root(t)) && Linked(m, t, Root(t), Above(c, base))
    decreases c
  {
    match c
    case Top =>
    case Step(side, up, n, red, o) =>
      Zoom(m, up, Make(side, t, n, red, o), root, base);
      if side.L? {} else {}
  }

  lemma {:induction false} ZoomCounts(m: Mem, c: Ctx, t: Tree)
    ensures Counted(m, Plug(c, t)) <==> CountedAt(m, c, t)
    decreases c
  {
    match c
    case Top =>
    case Step(side, up, n, red, o) =>
      ZoomCounts(m, up, Make(side, t, n, red, o));
      if side.L? {} else {}
  }

  lemma PlacedPlug(m: Mem, root: Node?, c: Ctx, t: Tree)
    ensures Placed(m, root, c, t) <==> Placed(m, root, Top, Plug(c, t))
    ensures CountedAt(m, c, t) <==> CountedAt(m, Top, Plug(c, t))
  {
    Zoom(m, c, t, root, null);
    ZoomCounts(m, c, t);
    ApartOfPlug(c, t);
    assert Linked(m, Plug(c, t), root, null) ==> root == Root(Plug(c, t));
  }

  // The fields in and around one node of a whole tree.
  lemma Look(m: Mem, root: Node?, c: Ctx, t: Tree)
    requires Placed(m, root, Top, Plug(c, t))
    ensures root == Root(Plug(c, t))
    ensures Apart(c, t)
    ensures t.Bin? ==>
      && t.node in m && t.node !in CtxNodes(c) && m[t.node].parent == Above(c, null) && m[t.node].red == t.red
      && m[t.node].left == Root(t.left) && m[t.node].right == Root(t.right)
    ensures c.Top? ==> root == Root(t)
    ensures c.Step? ==>
      && c.node in m && root != null && m[c.node].red == c.red && m[c.node].parent == Above(c.up, null)
      && m[c.node].Kid(c.side) == Root(t) && m[c.node].Kid(c.side.Other()) == Root(c.other)
      && c.node !in Nodes(t) && c.node !in Nodes(c.other)
      && (Root(t) != null ==> Root(t) != Root(c.other))
  {
    PlacedPlug(m, root, c, t);
    if c.Step? {
      PlacedPlug(m, root, c.up, Make(c.side, t, c.node, c.red, c.other));
      assert Linked(m, c.other, m[c.node].Kid(c.side.Other()), c.node);
      assert Root(t) != null ==> Root(t) in Nodes(t);
      assert Root(c.other) != null ==> Root(c.other) in Nodes(c.other);
    }
    if t.Bin? {
      var near, far := LinkedPieces(m, L, t, Above(c, null));
    }
    assert Linked(m, Plug(c, t), root, null);
    assert c.Step? ==> c.node in Nodes(Plug(c, t)) by { ApartOfPlug(c, t); }
  }

  lemma InMem(m: Mem, root: Node?, c: Ctx, t: Tree)
    requires Placed(m, root, Top, Plug(c, t)) && t.Bin?
    ensures t.node in m
  {
    ApartOfPlug(c, t);
  }

  // The same tree with one node painted.
  lemma Painted(m: Mem, m': Mem, root: Node?, c: Ctx, t: Tree, red: bool)
    requires t.Bin? && Placed(m, root, Top, Plug(c, t)) && Counted(m, Plug(c, t))
    requires m'.Keys == m.Keys && t.node in m && m'[t.node] == m[t.node].(red := red)
    requires forall n | n in m && n != t.node :: m'[n] == m[n]
    ensures Placed(m', root, Top, Plug(c, t.(red := red))) && Counted(m', Plug(c, t.(red := red)))
  {
    hide Linked, CtxLinked, Placed, Plug;
    PlacedPlug(m, root, c, t);
    PaintedPlaced(m, m', root, c, t, red);
    KeepCounted(m, m', t);
    KeepCtxCounted(m, m', c, Size(t));
    PlacedPlug(m', root, c, t.(red := red));
  }

  lemma PaintedPlaced(m: Mem, m': Mem, root: Node?, c: Ctx, t: Tree, red: bool)
    requires t.Bin? && Placed(m, root, c, t)
    requires m'.Keys == m.Keys && t.node in m && m'[t.node] == m[t.node].(red := red)
    requires forall n | n in m && n != t.node :: m'[n] == m[n]
    ensures Placed(m', root, c, t.(red := red))
  {
    var l, r := LinkedPieces(m, L, t, Above(c, null));
    KeepLinked(m, m', l, Root(l), t.node);
    KeepLinked(m, m', r, Root(r), t.node);
    KeepCtxLinked(m, m', c, root, null, t.node);
  }

  // ---- what survives when nodes are left alone ----

  ghost predicate SameLinks(m: Mem, m': Mem, s: set<Node>) {
    forall n | n in s && n in m ::
      && n in m' && m'[n].left == m[n].left && m'[n].right == m[n].right
      && m'[n].parent == m[n].parent && m'[n].red == m[n].red
  }

  ghost predicate SameCounts(m: Mem, m': Mem, s: set<Node>) {
    forall n | n in s && n in m :: n in m' && m'[n].count == m[n].count
  }

  lemma {:induction false} KeepLinked(m: Mem, m': Mem, t: Tree, root: Node?, parent: Node?)
    requires Linked(m, t, root, parent) && SameLinks(m, m', Nodes(t))
    ensures Linked(m', t, root, parent)
  {
    if t.Bin? {
      KeepLinked(m, m', t.left, m[t.node].left, t.node);
      KeepLinked(m, m', t.right, m[t.node].right, t.node);
    }
  }

  lemma {:induction false} KeepCtxLinked(m: Mem, m': Mem, c: Ctx, root: Node?, base: Node?, hole: Node?)
    requires CtxLinked(m, c, root, base, hole) && SameLinks(m, m', CtxNodes(c))
    ensures CtxLinked(m', c, root, base, hole)
  {
    if c.Step? {
      KeepLinked(m, m', c.other, m[c.node].Kid(c.side.Other()), c.node);
      KeepCtxLinked(m, m', c.up, root, base, c.node);
    }
  }

  lemma {:induction false} KeepCounted(m: Mem, m': Mem, t: Tree)
    requires Counted(m, t) && SameCounts(m, m', Nodes(t))
    ensures Counted(m', t)
  {
    if t.Bin? {
      KeepCounted(m, m', t.left);
      KeepCounted(m, m', t.right);
    }
  }

  lemma {:induction false} KeepCtxCounted(m: Mem, m': Mem, c: Ctx, hole: nat)
    requires CtxCounted(m, c, hole) && SameCounts(m, m', CtxNodes(c))
    ensures CtxCounted(m', c, hole)
  {
    if c.Step? {
      KeepCounted(m, m', c.other);
      KeepCtxCounted(m, m', c.up, hole + 1 + Size(c.other));
    }
  }

  ghost function Only(n: Node?): set<Node> {
    if n == null then {} else {n}
  }

  // Only the root's parent pointer has changed.
  lemma {:induction false} Reparented(m: Mem, m': Mem, t: Tree, was: Node?, parent: Node?)
    requires Linked(m, t, Root(t), was) && Distinct(t)
    requires t.Bin? ==> t.node in m' && m'[t.node] == m[t.node].(parent := parent, count := m'[t.node].count)
    requires SameLinks(m, m', Nodes(t) - Only(Root(t)))
    ensures Linked(m', t, Root(t), parent)
  {
    if t.Bin? {
      KeepLinked(m, m', t.left, m[t.node].left, t.node);
      KeepLinked(m, m', t.right, m[t.node].right, t.node);
    }
  }

  // Only the child pointer at the hole has changed, or the root pointer if there is no such child.
  lemma {:induction false} Redirected(m: Mem, m': Mem, c: Ctx, root: Node?, root': Node?, hole: Node?, hole': Node?)
    requires CtxLinked(m, c, root, null, hole) && CtxDistinct(c)
    requires if c.Top? then root' == hole' else
               && root' == root && c.node in m' && m'[c.node].Kid(c.side) == hole'
               && m'[c.node].Kid(c.side.Other()) == m[c.node].Kid(c.side.Other())
               && m'[c.node].parent == m[c.node].parent && m'[c.node].red == m[c.node].red
    requires SameLinks(m, m', CtxNodes(c) - Only(Above(c, null)))
    ensures CtxLinked(m', c, root', null, hole')
  {
    if c.Step? {
      KeepLinked(m, m', c.other, m[c.node].Kid(c.side.Other()), c.node);
      KeepCtxLinked(m, m', c.up, root, null, c.node);
    }
  }

  // ---- a new leaf ----

  // n has been linked in, childless, at an empty place.
  ghost predicate AttachedFields(m: Mem, m': Mem, c: Ctx, n: Node, red: bool) {
    && c.Step? && c.node in m && n !in m && m'.Keys == m.Keys + {n}
    && m'[n].left == null && m'[n].right == null && m'[n].parent == c.node && m'[n].red == red
    && m'[c.node] == (if c.side.L? then m[c.node].(left := n) else m[c.node].(right := n))
    && forall k | k in m && k != c.node :: m'[k] == m[k]
  }

  lemma AttachedInPlace(m: Mem, m': Mem, root: Node?, c: Ctx, n: Node, red: bool)
    requires Placed(m, root, c, Leaf) && AttachedFields(m, m', c, n, red)
    ensures Placed(m', root, c, Bin(Leaf, n, red, Leaf))
  {
    Redirected(m, m', c, root, root, null, n);
    assert n !in CtxNodes(c);
    assert Linked(m', Bin(Leaf, n, red, Leaf), n, c.node);
  }

  lemma Attached(m: Mem, m': Mem, root: Node?, c: Ctx, n: Node, red: bool)
    requires Placed(m, root, Top, Plug(c, Leaf)) && AttachedFields(m, m', c, n, red)
    ensures Placed(m', root, Top, Plug(c, Bin(Leaf, n, red, Leaf)))
  {
    hide Placed, AttachedFields, Plug;
    PlacedPlug(m, root, c, Leaf);
    AttachedInPlace(m, m', root, c, n, red);
    PlacedPlug(m', root, c, Bin(Leaf, n, red, Leaf));
  }

  // ---- counts on the way up ----

  // The subtrees hanging off the path to the hole are counted; the path itself may not be.
  ghost predicate OthersCounted(m: Mem, c: Ctx) {
    c.Step? ==> c.node in m && Counted(m, c.other) && OthersCounted(m, c.up)
  }

  lemma {:induction false} CountedOthers(m: Mem, c: Ctx, hole: nat)
    requires CtxCounted(m, c, hole)
    ensures OthersCounted(m, c)
  {
    if c.Step? { CountedOthers(m, c.up, hole + 1 + Size(c.other)); }
  }

  lemma {:induction false} KeepOthers(m: Mem, m': Mem, c: Ctx)
    requires OthersCounted(m, c) && SameCounts(m, m', CtxNodes(c))
    ensures OthersCounted(m', c)
  {
    if c.Step? {
      KeepCounted(m, m', c.other);
      KeepOthers(m, m', c.up);
    }
  }

  ghost predicate OnlyCountAt(m: Mem, m': Mem, n: Node, count: nat) {
    && m'.Keys == m.Keys && n in m && m'[n] == m[n].(count := count)
    && forall k | k in m && k != n :: m'[k] == m[k]
  }

  lemma CountChangeKeepsShape(m: Mem, m': Mem, root: Node?, t: Tree, n: Node, count: nat)
    requires Placed(m, root, Top, t) && OnlyCountAt(m, m', n, count)
    ensures Placed(m', root, Top, t)
  {
    KeepLinked(m, m', t, root, null);
  }

  // FIX_COUNT at the node above the hole.
  lemma FixOneCount(m: Mem, m': Mem, c: Ctx, t: Tree)
    requires c.Step? && Apart(c, t) && Counted(m, t) && OthersCounted(m, c)
    requires OnlyCountAt(m, m', c.node, Size(t) + 1 + Size(c.other))
    ensures Counted(m', Make(c.side, t, c.node, c.red, c.other)) && OthersCounted(m', c.up)
  {
    KeepCounted(m, m', t);
    KeepCounted(m, m', c.other);
    KeepOthers(m, m', c.up);
  }

  // The counting loop of INSERT at the node above the hole.
  lemma BumpOneCount(m: Mem, m': Mem, c: Ctx, t: Tree)
    requires c.Step? && Apart(c, t) && Counted(m, t) && Size(t) > 0 && CtxCounted(m, c, Size(t) - 1)
    requires c.node in m && OnlyCountAt(m, m', c.node, m[c.node].count + 1)
    ensures var up := Make(c.side, t, c.node, c.red, c.other);
            Counted(m', up) && CtxCounted(m', c.up, Size(up) - 1)
  {
    KeepCounted(m, m', t);
    KeepCounted(m, m', c.other);
    KeepCtxCounted(m, m', c.up, Size(t) + Size(c.other));
  }

  lemma CountOfRoot(m: Mem, t: Tree)
    requires Counted(m, t)
    ensures t.Bin? ==> t.node in m && m[t.node].count == Size(t)
  {
  }
}

module TreeRotation {
  import opened TreeTheory
  import opened TreeLinks

  // What the assignments of a rotation about x do to the fields.
  ghost predicate RotatedFields(m: Mem, m': Mem, root: Node?, root': Node?, side: Side, x: Node, y: Node) {
    && x in m && y in m && x in m' && y in m'
    && var b := m[y].Kid(side);
    && var p := m[x].parent;
    && (forall n | n in m && n != x && n != y && n != b && n != p ::
          n in m' && m'[n] == m[n].(count := m'[n].count))
    && m'[x].Kid(side.Other()) == b && m'[x].Kid(side) == m[x].Kid(side) && m'[x].parent == y && m'[x].red == m[x].red
    && m'[y].Kid(side) == x && m'[y].Kid(side.Other()) == m[y].Kid(side.Other()) && m'[y].parent == p
    && m'[y].red == m[y].red
    && (b != null ==> b in m && b in m' && m'[b] == m[b].(parent := x, count := m'[b].count))
    && (p == null ==> root' == y)
    && (p != null ==> p in m && p in m' && root' == root
                      && m'[p] == (if m[p].left == x then m[p].(left := y) else m[p].(right := y)).(count := m'[p].count))
  }

  ghost predicate RotatedCounts(m: Mem, m': Mem, side: Side, x: Node, y: Node) {
    && x in m && y in m && x in m' && y in m'
    && (forall n | n in m && n != x && n != y :: n in m' && m'[n].count == m[n].count)
    && var e := m[y].Kid(side.Other());
    && (e != null ==> e in m)
    && m'[y].count == m[x].count
    && m'[x].count == m[x].count - (if e == null then 0 else m[e].count) - 1
  }

  lemma RotatedSubtrees(m: Mem, m': Mem, root: Node?, root': Node?, side: Side, c: Ctx, t: Tree)
    requires t.Bin? && Far(side, t).Bin? && Placed(m, root, c, t)
    requires RotatedFields(m, m', root, root', side, t.node, Far(side, t).node)
    ensures Linked(m', Near(side, t), Root(Near(side, t)), t.node)
    ensures var f := Far(side, t);
            && Linked(m', Near(side, f), Root(Near(side, f)), t.node)
            && Linked(m', Far(side, f), Root(Far(side, f)), f.node)
  {
    var x := t.node;
    var a, f := LinkedPieces(m, side, t, Above(c, null));
    var b, e := LinkedPieces(m, side, f, x);
    var p := Above(c, null);
    assert p != null ==> p in CtxNodes(c);
    assert p !in Nodes(a) && p !in Nodes(b) && p !in Nodes(e);
    KeepLinked(m, m', a, Root(a), x);
    KeepLinked(m, m', e, Root(e), f.node);
    Reparented(m, m', b, f.node, x);
  }

  lemma RotatedContext(m: Mem, m': Mem, root: Node?, root': Node?, side: Side, c: Ctx, t: Tree)
    requires t.Bin? && Far(side, t).Bin? && Placed(m, root, c, t)
    requires RotatedFields(m, m', root, root', side, t.node, Far(side, t).node)
    ensures CtxLinked(m', c, root', null, Far(side, t).node)
  {
    var x := t.node;
    var a, f := LinkedPieces(m, side, t, Above(c, null));
    var b, e := LinkedPieces(m, side, f, x);
    assert Root(b) != null ==> Root(b) in Nodes(b);
    assert CtxNodes(c) !! Nodes(t);
    if c.Step? {
      assert m[c.node].Kid(c.side) == x;
      assert m[c.node].Kid(c.side.Other()) == Root(c.other) != x;
    }
    Redirected(m, m', c, root, root', x, f.node);
  }

  lemma RotatedPlaced(m: Mem, m': Mem, root: Node?, root': Node?, side: Side, c: Ctx, t: Tree)
    requires t.Bin? && Far(side, t).Bin? && Placed(m, root, c, t)
    requires m'.Keys == m.Keys
    requires RotatedFields(m, m', root, root', side, t.node, Far(side, t).node)
    ensures Placed(m', root', c, Rotated(side, t))
  {
    RotatedSubtrees(m, m', root, root', side, c, t);
    RotatedContext(m, m', root, root', side, c, t);
    RotatedPieces(side, t);
    var a, f := LinkedPieces(m, side, t, Above(c, null));
    var b, e := LinkedPieces(m, side, f, t.node);
    var low := Make(side, a, t.node, t.red, b);
    assert Linked(m', low, t.node, f.node);
    assert Linked(m', Rotated(side, t), f.node, Above(c, null));
  }

  lemma RotatedCounted(m: Mem, m': Mem, side: Side, c: Ctx, t: Tree)
    requires t.Bin? && Far(side, t).Bin? && Apart(c, t) && CountedAt(m, c, t)
    requires RotatedCounts(m, m', side, t.node, Far(side, t).node)
    requires var e := m[Far(side, t).node].Kid(side.Other()); e == Root(Far(side, Far(side, t)))
    ensures CountedAt(m', c, Rotated(side, t))
  {
    var a, f := CountedPieces(m, side, t);
    var b, e := CountedPieces(m, side, f);
    RotatedPieces(side, t);
    KeepCounted(m, m', a);
    KeepCounted(m, m', b);
    KeepCounted(m, m', e);
    KeepCtxCounted(m, m', c, Size(t));
    assert Counted(m', Make(side, a, t.node, t.red, b));
  }

  // What a rotation about x needs of the fields it reads.
  ghost predicate RotationSite(m: Mem, root: Node?, side: Side, x: Node, y: Node) {
    && x in m && y in m && x != y && m[x].Kid(side.Other()) == y
    && var b, e, p := m[y].Kid(side), m[y].Kid(side.Other()), m[x].parent;
    && b != x && b != y && (b != null ==> b in m && b != p)
    && e != x && e != y && (e != null ==> e in m && e != b)
    && p != x && p != y && (p != null ==> p in m)
    && m[x].count > if e == null then 0 else m[e].count
  }

  lemma SiteOfTree(m: Mem, root: Node?, side: Side, c: Ctx, t: Tree)
    requires t.Bin? && Far(side, t).Bin? && Placed(m, root, c, t) && CountedAt(m, c, t)
    ensures RotationSite(m, root, side, t.node, Far(side, t).node)
    ensures m[Far(side, t).node].Kid(side.Other()) == Root(Far(side, Far(side, t)))
  {
    var x := t.node;
    var a, f := LinkedPieces(m, side, t, Above(c, null));
    var b, e := LinkedPieces(m, side, f, x);
    var a', f' := CountedPieces(m, side, t);
    var b', e' := CountedPieces(m, side, f);
    var p := Above(c, null);
    assert p != null ==> p in CtxNodes(c);
    assert Root(b) != null ==> Root(b) in Nodes(b);
    assert Root(e) != null ==> Root(e) in Nodes(e);
  }

  // The two facts a caller needs, for a tree as a whole.
  lemma SiteOfWhole(m: Mem, root: Node?, side: Side, c: Ctx, t: Tree)
    requires t.Bin? && Far(side, t).Bin? && Placed(m, root, Top, Plug(c, t)) && Counted(m, Plug(c, t))
    ensures RotationSite(m, root, side, t.node, Far(side, t).node)
  {
    PlacedPlug(m, root, c, t);
    SiteOfTree(m, root, side, c, t);
  }

  lemma RotatedWhole(m: Mem, m': Mem, root: Node?, root': Node?, side: Side, c: Ctx, t: Tree)
    requires t.Bin? && Far(side, t).Bin? && Placed(m, root, Top, Plug(c, t)) && Counted(m, Plug(c, t))
    requires m'.Keys == m.Keys
    requires RotatedFields(m, m', root, root', side, t.node, Far(side, t).node)
    requires RotatedCounts(m, m', side, t.node, Far(side, t).node)
    ensures Placed(m', root', Top, Plug(c, Rotated(side, t))) && Counted(m', Plug(c, Rotated(side, t)))
  {
    PlacedPlug(m, root, c, t);
    SiteOfTree(m, root, side, c, t);
    RotatedPlaced(m, m', root, root', side, c, t);
    RotatedCounted(m, m', side, c, t);
    PlacedPlug(m', root', c, Rotated(side, t));
  }
}
