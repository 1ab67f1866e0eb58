// The mathematics behind src/yc-rbtree-macros.h.
//
// A heap of linked nodes is described by a ghost value: a `Tree` says which
// node is where and what colour it has, and a `Ctx` is a tree with one hole,
// read from the hole upwards.  The iterative algorithms walk up parent links,
// which on the ghost side is walking up a `Ctx`.
module TreeTheory {

  class Node {
    const key: int
    var left: Node?
    var right: Node?
    var parent: Node?
    var isRed: bool
    var count: nat

    constructor (key: int)
      ensures this.key == key
      ensures left == null && right == null && parent == null
    {
      this.key := key;
      left, right, parent := null, null, null;
      isRed, count := false, 0;
    }

    function Child(side: Side): Node?
      reads this`left, this`right
    {
      if side.L? then left else right
    }
  }

  // The macros take the names of the `left` and `right` fields, and get their
  // mirror images by exchanging the two; a Side parameter does the same here.
  datatype Side = L | R {
    function Other(): Side {
      if L? then R else L
    }
  }

  datatype Tree = Leaf | Bin(left: Tree, node: Node, red: bool, right: Tree)

  // `near` is the subtree on `side`, `far` the one opposite.
  ghost function Make(side: Side, near: Tree, node: Node, red: bool, far: Tree): (t: Tree) {
    if side.L? then Bin(near, node, red, far) else Bin(far, node, red, near)
  }

  ghost function Near(side: Side, t: Tree): Tree
    requires t.Bin?
  {
    if side.L? then t.left else t.right
  }

  ghost function Far(side: Side, t: Tree): Tree
    requires t.Bin?
  {
    Near(side.Other(), t)
  }

  // What ROTATE_LEFT (side L) and ROTATE_RIGHT (side R) make of a tree.
  ghost function Rotated(side: Side, t: Tree): Tree
    requires t.Bin? && Far(side, t).Bin?
  {
    var f := Far(side, t);
    Make(side, Make(side, Near(side, t), t.node, t.red, Near(side, f)), f.node, f.red, Far(side, f))
  }

  // Step: the hole is the child on `side` of `node`, whose other subtree is `other`.
  datatype Ctx = Top | Step(side: Side, up: Ctx, node: Node, red: bool, other: Tree)

  ghost function Plug(c: Ctx, t: Tree): Tree {
    match c
    case Top => t
    case Step(side, up, n, red, o) => Plug(up, Make(side, t, n, red, o))
  }

  ghost function Depth(c: Ctx): nat {
    if c.Top? then 0 else 1 + Depth(c.up)
  }

  ghost function Nodes(t: Tree): set<Node> {
    match t
    case Leaf => {}
    case Bin(l, n, _, r) => Nodes(l) + {n} + Nodes(r)
  }

  ghost function CtxNodes(c: Ctx): set<Node> {
    match c
    case Top => {}
    case Step(_, up, n, _, o) => CtxNodes(up) + {n} + Nodes(o)
  }

  ghost function Root(t: Tree): Node? {
    if t.Leaf? then null else t.node
  }

  // The node above the hole; `base` is what lies above the whole context.
  ghost function Above(c: Ctx, base: Node?): Node? {
    if c.Top? then base else c.node
  }

  // ---- in-order contents ----

  ghost function InOrder(t: Tree): seq<Node> {
    match t
    case Leaf => []
    case Bin(l, n, _, r) => InOrder(l) + [n] + InOrder(r)
  }

  ghost function Before(c: Ctx): seq<Node> {
    match c
    case Top => []
    case Step(side, up, n, _, o) => if side.L? then Before(up) else Before(up) + InOrder(o) + [n]
  }

  ghost function After(c: Ctx): seq<Node> {
    match c
    case Top => []
    case Step(side, up, n, _, o) => if side.L? then [n] + InOrder(o) + After(up) else After(up)
  }

  ghost function Contents(c: Ctx, t: Tree): seq<Node> {
    Before(c) + InOrder(t) + After(c)
  }

  ghost function Size(t: Tree): nat {
    if t.Leaf? then 0 else Size(t.left) + 1 + Size(t.right)
  }

  ghost predicate Sorted(s: seq<Node>) {
    forall i, j :: 0 <= i < j < |s| ==> s[i].key < s[j].key
  }

  lemma Regroup(a: seq<Node>, b: seq<Node>, c: seq<Node>, d: seq<Node>, e: seq<Node>)
    ensures (a + b + c) + d + e == a + (b + c + d) + e == a + b + (c + d + e)
  {
  }

  lemma {:induction false} ContentsOfPlug(c: Ctx, t: Tree)
    ensures InOrder(Plug(c, t)) == Contents(c, t)
  {
    match c
    case Top =>
    case Step(side, up, n, red, o) =>
      ContentsOfPlug(up, Make(side, t, n, red, o));
      if side.L? {
        Regroup(Before(up), InOrder(t), [n], InOrder(o), After(up));
      } else {
        Regroup(Before(up), InOrder(o), [n], InOrder(t), After(up));
      }
  }

  lemma SameContents(c: Ctx, t: Tree, t': Tree)
    requires InOrder(t) == InOrder(t')
    ensures InOrder(Plug(c, t)) == InOrder(Plug(c, t'))
  {
    ContentsOfPlug(c, t);
    ContentsOfPlug(c, t');
  }

  lemma {:induction false} SizeIsLength(t: Tree)
    ensures Size(t) == |InOrder(t)|
  {
    match t
    case Leaf =>
    case Bin(l, n, _, r) => SizeIsLength(l); SizeIsLength(r);
  }

  lemma {:induction false} NodesAreContents(t: Tree)
    ensures forall n :: n in Nodes(t) <==> n in InOrder(t)
  {
    match t
    case Leaf =>
    case Bin(l, n, _, r) => NodesAreContents(l); NodesAreContents(r);
  }

  // ---- separation ----

  ghost predicate Distinct(t: Tree) {
    match t
    case Leaf => true
    case Bin(l, n, _, r) =>
      && n !in Nodes(l) && n !in Nodes(r) && Nodes(l) !! Nodes(r)
      && Distinct(l) && Distinct(r)
  }

  ghost predicate CtxDistinct(c: Ctx) {
    match c
    case Top => true
    case Step(_, up, n, _, o) =>
      && n !in CtxNodes(up) && n !in Nodes(o) && Nodes(o) !! CtxNodes(up)
      && CtxDistinct(up) && Distinct(o)
  }

  ghost predicate Apart(c: Ctx, t: Tree) {
    CtxDistinct(c) && Distinct(t) && CtxNodes(c) !! Nodes(t)
  }

  lemma {:induction false} ApartOfPlug(c: Ctx, t: Tree)
    ensures Nodes(Plug(c, t)) == CtxNodes(c) + Nodes(t)
    ensures Distinct(Plug(c, t)) <==> Apart(c, t)
  {
    match c
    case Top =>
    case Step(side, up, n, red, o) =>
      ApartOfPlug(up, Make(side, t, n, red, o));
  }

  // A tree taken apart.  The pieces come back as results so that the verifier
  // knows their nodes to be allocated.
  lemma {:induction false} Pieces(side: Side, t: Tree) returns (near: Tree, far: Tree)
    requires t.Bin? && Distinct(t)
    ensures near == Near(side, t) && far == Far(side, t)
    ensures t == Make(side, near, t.node, t.red, far)
    ensures Nodes(t) == Nodes(near) + {t.node} + Nodes(far)
    ensures Distinct(near) && Distinct(far) && Nodes(near) !! Nodes(far)
    ensures t.node !in Nodes(near) && t.node !in Nodes(far)
  {
    near, far := Near(side, t), Far(side, t);
  }

  lemma {:induction false} RotatedPieces(side: Side, t: Tree)
    requires t.Bin? && Far(side, t).Bin? && Distinct(t)
    ensures Distinct(Rotated(side, t)) && Nodes(Rotated(side, t)) == Nodes(t)
    ensures Size(Rotated(side, t)) == Size(t)
  {
    hide Nodes, Size, Distinct;
    var a, f := Pieces(side, t);
    var b, e := Pieces(side, f);
    var m := Make(side, a, t.node, t.red, b);
    MadeOf(side, a, t.node, t.red, b);
    MadeOf(side, m, f.node, f.red, e);
    MadeOf(side, a, t.node, t.red, f);
    MadeOf(side, b, f.node, f.red, e);
    Apart3(Nodes(a), Nodes(b), Nodes(e), t.node, f.node);
  }

  lemma Apart3<T>(a: set<T>, b: set<T>, e: set<T>, x: T, y: T)
    ensures (a + {x} + b) + {y} + e == a + {x} + (b + {y} + e)
  {
  }

  lemma {:induction false} MadeOf(side: Side, near: Tree, n: Node, red: bool, far: Tree)
    ensures var t := Make(side, near, n, red, far);
      && Nodes(t) == Nodes(near) + {n} + Nodes(far) && Size(t) == Size(near) + 1 + Size(far)
      && (Distinct(near) && Distinct(far) && Nodes(near) !! Nodes(far) && n !in Nodes(near) && n !in Nodes(far) ==> Distinct(t))
  {
  }

  // A rotation moves no node past another.
  lemma {:induction false} RotatedInOrder(side: Side, t: Tree)
    requires t.Bin? && Far(side, t).Bin?
    ensures InOrder(Rotated(side, t)) == InOrder(t)
  {
    var f := Far(side, t);
    var a, b, e := InOrder(Near(side, t)), InOrder(Near(side, f)), InOrder(Far(side, f));
    if side.L? {
      assert InOrder(t) == a + [t.node] + (b + [f.node] + e);
      assert InOrder(Rotated(side, t)) == (a + [t.node] + b) + [f.node] + e;
    } else {
      assert InOrder(t) == (e + [f.node] + b) + [t.node] + a;
      assert InOrder(Rotated(side, t)) == e + [f.node] + (b + [t.node] + a);
    }
  }

  // ---- the red-black rules ----

  ghost predicate IsRed(t: Tree) {
    t.Bin? && t.red
  }

  // Every path holds h black nodes and no red node has a red child.
  ghost predicate RedBlack(t: Tree, h: nat) {
    match t
    case Leaf => h == 0
    case Bin(l, _, red, r) =>
      if red then !IsRed(l) && !IsRed(r) && RedBlack(l, h) && RedBlack(r, h)
      else h > 0 && RedBlack(l, h - 1) && RedBlack(r, h - 1)
  }

  ghost predicate CtxIsRed(c: Ctx) {
    c.Step? && c.red
  }

  // What a context asks of the tree in its hole is black height h; its own
  // nodes obey the rules and its topmost node is black.
  ghost predicate CtxRedBlack(c: Ctx, h: nat) {
    match c
    case Top => true
    case Step(_, up, _, red, o) =>
      && RedBlack(o, h)
      && (red ==> !IsRed(o) && up.Step? && !up.red)
      && CtxRedBlack(up, if red then h else h + 1)
  }

  ghost predicate ValidColours(t: Tree) {
    !IsRed(t) && exists h: nat :: RedBlack(t, h)
  }

  lemma {:induction false} ColoursOfPlug(c: Ctx, t: Tree, h: nat)
    requires RedBlack(t, h) && CtxRedBlack(c, h)
    requires IsRed(t) ==> c.Step? && !c.red
    ensures ValidColours(Plug(c, t))
    decreases c
  {
    match c
    case Top =>
    case Step(side, up, n, red, o) =>
      ColoursOfPlug(up, Make(side, t, n, red, o), if red then h else h + 1);
  }

  lemma {:induction false} ColoursOfUnplug(c: Ctx, t: Tree) returns (h: nat)
    requires ValidColours(Plug(c, t))
    ensures RedBlack(t, h) && CtxRedBlack(c, h)
    ensures IsRed(t) ==> c.Step? && !c.red
    decreases c
  {
    match c
    case Top =>
      h :| RedBlack(t, h);
    case Step(side, up, n, red, o) =>
      var g := ColoursOfUnplug(up, Make(side, t, n, red, o));
      h := if red then g else g - 1;
  }

  // ---- height ----

  ghost function Height(t: Tree): nat {
    if t.Leaf? then 0
    else 1 + if Height(t.left) > Height(t.right) then Height(t.left) else Height(t.right)
  }

  ghost function Pow2(n: nat): (p: nat)
    ensures p >= 1
  {
    if n == 0 then 1 else 2 * Pow2(n - 1)
  }

  lemma {:induction false} BlackHeightBounds(t: Tree, h: nat)
    requires RedBlack(t, h)
    ensures Size(t) + 1 >= Pow2(h)
    ensures Height(t) <= 2 * h + if IsRed(t) then 1 else 0
  {
    match t
    case Leaf =>
    case Bin(l, _, red, r) =>
      BlackHeightBounds(l, if red then h else h - 1);
      BlackHeightBounds(r, if red then h else h - 1);
  }

  lemma {:induction false} Pow2Doubles(h: nat)
    ensures Pow2(2 * h) == Pow2(h) * Pow2(h)
  {
    if h > 0 {
      Pow2Doubles(h - 1);
      assert Pow2(2 * h) == 2 * Pow2(2 * h - 1) == 4 * Pow2(2 * (h - 1));
      assert Pow2(h) * Pow2(h) == 4 * (Pow2(h - 1) * Pow2(h - 1));
    }
  }

  lemma {:induction false} Pow2Monotone(a: nat, b: nat)
    requires a <= b
    ensures Pow2(a) <= Pow2(b)
    decreases b - a
  {
    if a < b { Pow2Monotone(a + 1, b); }
  }

  lemma SquareMonotone(a: nat, b: nat)
    requires a <= b
    ensures a * a <= b * b
  {
    var d := b - a;
    assert b * b == (a + d) * (a + d) == a * a + 2 * (a * d) + d * d;
  }

  // Height is at most 2*log2(n + 1), written without logarithms.
  lemma {:induction false} HeightBound(t: Tree)
    requires ValidColours(t)
    ensures Pow2(Height(t)) <= (Size(t) + 1) * (Size(t) + 1)
  {
    var h: nat :| RedBlack(t, h);
    BlackHeightBounds(t, h);
    Pow2Monotone(Height(t), 2 * h);
    Pow2Doubles(h);
    SquareMonotone(Pow2(h), Size(t) + 1);
  }
}
