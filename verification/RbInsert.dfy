/** `__rb_insert` (apps/msg/rbtree.c): rebalancing after a red node was linked at a leaf slot.
    A predicate compared with `true` in a contract is proved as one fact, not conjunct by conjunct. */
module RbInsert {
  import opened RbTree

  /** What the loop keeps: `t` is red, and a red parent of it is the only possible defect. */
  ghost predicate InsertState(c: Path, t: Tree) {
    t.Node? && !t.black && ValidSub(t) && ValidPath(c, BlackHeight(t))
  }

  /** `t` hangs below a red parent, so a grandparent exists. */
  ghost predicate RedParent(c: Path) {
    !c.Top? && !c.black && !c.up.Top?
  }

  /** The subtree at the grandparent. */
  ghost function AtGrandparent(c: Path, t: Tree): Tree
    requires RedParent(c)
  {
    Join(c.up, Join(c, t))
  }

  /** Case 1: red uncle. */
  ghost function ColoursFlipped(c: Path, t: Tree): Tree
    requires RedParent(c) && !IsBlack(c.up.sibling)
  {
    var p := if c.GoLeft? then Node(t, c.n, true, c.sibling) else Node(c.sibling, c.n, true, t);
    var u := c.up.sibling.(black := true);
    if c.up.GoLeft? then Node(p, c.up.n, false, u) else Node(u, c.up.n, false, p)
  }

  /** Cases 2 and 3: black uncle. */
  ghost function Rotated(c: Path, t: Tree): Tree
    requires RedParent(c) && t.Node?
  {
    var g, u := c.up.n, c.up.sibling;
    if c.up.GoLeft? then
      if c.GoLeft? then Node(t, c.n, true, Node(c.sibling, g, false, u))
      else Node(Node(c.sibling, c.n, false, t.left), t.n, true, Node(t.right, g, false, u))
    else
      if c.GoRight? then Node(Node(u, g, false, c.sibling), c.n, true, t)
      else Node(Node(u, g, false, t.left), t.n, true, Node(t.right, c.n, false, c.sibling))
  }

  lemma {:induction false} GrandparentOrder(c: Path, t: Tree)
    requires RedParent(c)
    ensures Order(c.up.up, AtGrandparent(c, t)) == Order(c, t)
  {
    JoinOrder(c, t);
    JoinOrder(c.up, Join(c, t));
  }

  lemma {:induction false} FlippedNodes(c: Path, t: Tree)
    requires RedParent(c) && !IsBlack(c.up.sibling)
    ensures InOrder(ColoursFlipped(c, t)) == InOrder(AtGrandparent(c, t))
    ensures Nodes(ColoursFlipped(c, t)) == Nodes(AtGrandparent(c, t))
    ensures Distinct(AtGrandparent(c, t)) ==> Distinct(ColoursFlipped(c, t))
  {
    var p := if c.GoLeft? then Node(t, c.n, true, c.sibling) else Node(c.sibling, c.n, true, t);
    var u := c.up.sibling.(black := true);
    assert InOrder(p) == InOrder(Join(c, t)) && Nodes(p) == Nodes(Join(c, t)) && Distinct(p) == Distinct(Join(c, t));
    assert InOrder(u) == InOrder(c.up.sibling) && Nodes(u) == Nodes(c.up.sibling) && Distinct(u)
        == Distinct(c.up.sibling);
  }

  lemma {:induction false} FlippedState(c: Path, t: Tree)
    requires InsertState(c, t) && RedParent(c) && !IsBlack(c.up.sibling)
    ensures InsertState(c.up.up, ColoursFlipped(c, t))
  {
    assert NoRedRedPath(c.up) && BalancedPath(c.up, BlackHeight(t));
    var p := if c.GoLeft? then Node(t, c.n, true, c.sibling) else Node(c.sibling, c.n, true, t);
    var u := c.up.sibling.(black := true);
    assert ValidSub(p) && ValidSub(u) && BlackHeight(p) == BlackHeight(u) == BlackHeight(t) + 1;
  }

  lemma {:induction false} RotatedOrder(c: Path, t: Tree)
    requires RedParent(c) && t.Node?
    ensures InOrder(Rotated(c, t)) == InOrder(AtGrandparent(c, t))
  {
    if c.up.GoLeft? {
      RotatedOrderLeft(c, t);
    } else {
      RotatedOrderRight(c, t);
    }
  }

  lemma {:induction false} RotatedOrderLeft(c: Path, t: Tree)
    requires RedParent(c) && t.Node? && c.up.GoLeft?
    ensures InOrder(Rotated(c, t)) == InOrder(AtGrandparent(c, t))
  {
    var r, u := Rotated(c, t), c.up.sibling;
    assert InOrder(AtGrandparent(c, t)) == InOrder(Join(c, t)) + [c.up.n] + InOrder(u);
    assert InOrder(r) == InOrder(r.left) + [r.n] + InOrder(r.right);
    if c.GoLeft? {
      assert InOrder(r.right) == InOrder(c.sibling) + [c.up.n] + InOrder(u);
    } else {
      assert InOrder(t) == InOrder(t.left) + [t.n] + InOrder(t.right);
      assert InOrder(r.left) == InOrder(c.sibling) + [c.n] + InOrder(t.left);
      assert InOrder(r.right) == InOrder(t.right) + [c.up.n] + InOrder(u);
    }
  }

  lemma {:induction false} RotatedOrderRight(c: Path, t: Tree)
    requires RedParent(c) && t.Node? && c.up.GoRight?
    ensures InOrder(Rotated(c, t)) == InOrder(AtGrandparent(c, t))
  {
    var r, u := Rotated(c, t), c.up.sibling;
    assert InOrder(AtGrandparent(c, t)) == InOrder(u) + [c.up.n] + InOrder(Join(c, t));
    assert InOrder(r) == InOrder(r.left) + [r.n] + InOrder(r.right);
    if c.GoRight? {
      assert InOrder(r.left) == InOrder(u) + [c.up.n] + InOrder(c.sibling);
    } else {
      assert InOrder(t) == InOrder(t.left) + [t.n] + InOrder(t.right);
      assert InOrder(r.right) == InOrder(t.right) + [c.n] + InOrder(c.sibling);
      assert InOrder(r.left) == InOrder(u) + [c.up.n] + InOrder(t.left);
    }
  }

  lemma {:induction false} RotatedFixed(c: Path, t: Tree)
    requires InsertState(c, t) && RedParent(c) && IsBlack(c.up.sibling)
    ensures Fixed(c.up.up, Rotated(c, t))
  {
    assert NoRedRedPath(c.up) && BalancedPath(c.up, BlackHeight(t));
    var r := Rotated(c, t);
    assert ValidSub(r.left) && ValidSub(r.right) && BlackHeight(r.left) == BlackHeight(r.right) == BlackHeight(t);
  }

  /** Case 1 on the heap. */
  method FlipColours(parent: RbNode, uncle: RbNode, gparent: RbNode, root: RbRoot, ghost c: Path, ghost t: Tree)
    requires Zipper(c, t, root)
    requires RedParent(c) && c.n == parent && c.up.n == gparent
    requires Ptr(c.up.sibling) == uncle && !IsBlack(c.up.sibling)
    modifies uncle, parent, gparent
    ensures Zipper(c.up.up, ColoursFlipped(c, t), root) == true
  {
    ZipperUp(c, t, root);
    ZipperUp(c.up, Join(c, t), root);
    FlippedNodes(c, t);
    assert allocated(PathNodes(c.up.up)) && Rep(Join(c, t), gparent) == true;
    FlipThree(parent, uncle, gparent, Join(c, t), c.up.sibling);
    assert RepPath(c.up.up, gparent, root) == true;
  }

  method FlipThree(parent: RbNode, uncle: RbNode, gparent: RbNode, ghost p: Tree, ghost u: Tree)
    requires p.Node? && p.n == parent && Distinct(p) && Rep(p, gparent)
    requires u.Node? && u.n == uncle && Distinct(u) && Rep(u, gparent)
    requires Nodes(p) !! Nodes(u) && gparent !in Nodes(p) && gparent !in Nodes(u)
    modifies uncle`parent, uncle`black, parent`parent, parent`black, gparent`black
    ensures Rep(p.(black := true), gparent) && Rep(u.(black := true), gparent) && !gparent.black
  {
    uncle.parent, uncle.black := gparent, true;
    parent.parent, parent.black := gparent, true;
    gparent.black := false;
    assert Rep(p.left, parent) == true && Rep(p.right, parent) == true;
    assert Rep(u.left, uncle) == true && Rep(u.right, uncle) == true;
  }

  method InsertLeft(node: RbNode, parent: RbNode, gparent: RbNode, root: RbRoot, ghost c: Path, ghost t: Tree)
    requires Zipper(c, t, root) && Ptr(t) == node
    requires RedParent(c) && c.n == parent && c.up.GoLeft? && c.up.n == gparent && c.up.black
    requires !t.black && NoRedRed(t) && IsBlack(c.sibling)
    modifies root, PathNodes(c), Nodes(t)
    ensures Zipper(c.up.up, Rotated(c, t), root)
  {
    ghost var up, u := c.up.up, c.up.sibling;
    ZipperUp(c, t, root);
    ZipperUp(c.up, Join(c, t), root);
    var tmp := parent.right;
    if node == tmp {
      // Case 2: left rotate at the parent
      assert c.GoRight?;
      DoubleLeft(node, parent, gparent, root, up, c.sibling, t.left, t.right, u);
    } else {
      // Case 3: right rotate at the grandparent
      PartsOfRight(up, gparent, true, parent, false, u, c.sibling, t);
      RotateRight(gparent, parent, root, false, true, up, u, c.sibling, t);
    }
  }

  method InsertRight(node: RbNode, parent: RbNode, gparent: RbNode, root: RbRoot, ghost c: Path, ghost t: Tree)
    requires Zipper(c, t, root) && Ptr(t) == node
    requires RedParent(c) && c.n == parent && c.up.GoRight? && c.up.n == gparent && c.up.black
    requires !t.black && NoRedRed(t) && IsBlack(c.sibling)
    modifies root, PathNodes(c), Nodes(t)
    ensures Zipper(c.up.up, Rotated(c, t), root)
  {
    ghost var up, u := c.up.up, c.up.sibling;
    ZipperUp(c, t, root);
    ZipperUp(c.up, Join(c, t), root);
    var tmp := parent.left;
    if node == tmp {
      // Case 2: right rotate at the parent
      assert c.GoLeft?;
      DoubleRight(node, parent, gparent, root, up, c.sibling, t.right, t.left, u);
    } else {
      // Case 3: left rotate at the grandparent
      PartsOfLeft(up, gparent, true, parent, false, u, c.sibling, t);
      RotateLeft(gparent, parent, root, false, true, up, u, c.sibling, t);
    }
  }

  /** The parts of the two rotations of a double one. */
  lemma {:induction false} DoubleParts(c: Path, g: RbNode, p: RbNode, n: RbNode, s: Tree, y: Tree, z: Tree, u: Tree)
    requires Apart(c, Node(Node(s, p, false, Node(y, n, false, z)), g, true, u))
    ensures Parts(p, n, s, y, z) && Parts(g, p, u, y, s) && PartsBelow(c, g, p, u, y, s)
    ensures Parts(g, n, u, z, Node(s, p, false, y)) && PartsBelow(c, g, n, u, z, Node(s, p, false, y))
  {
    PartsOfRight(c, g, true, p, false, u, Node(y, n, false, z), s);
    PartsOfLeft(Top, p, false, n, false, s, y, z);
    assert Nodes(Node(y, n, false, z)) == Nodes(y) + {n} + Nodes(z);
    assert Nodes(Node(s, p, false, y)) == Nodes(s) + {p} + Nodes(y);
  }

  /** Case 2 going on into case 3. */
  method DoubleLeft(node: RbNode, parent: RbNode, gparent: RbNode, root: RbRoot,
                    ghost c: Path, ghost s: Tree, ghost y: Tree, ghost z: Tree, ghost u: Tree)
    requires IsBlack(y) && IsBlack(z)
    requires Zipper(c, Node(Node(s, parent, false, Node(y, node, false, z)), gparent, true, u), root)
    modifies root, PathNodes(c), parent, gparent, node, Nodes(y), Nodes(z)
    ensures Zipper(c, Node(Node(s, parent, false, y), node, true, Node(z, gparent, false, u)), root)
  {
    ghost var t := Node(y, node, false, z);
    assert Rep(Node(s, parent, false, t), gparent) && Rep(t, parent);
    DoubleParts(c, gparent, parent, node, s, y, z, u);
    TwistLeftBelow(parent, node, false, root, s, y, z, c, gparent, u);
    RotateRight(gparent, node, root, false, true, c, u, z, Node(s, parent, false, y));
  }

  lemma {:induction false} DoublePartsMirrored(c: Path, g: RbNode, p: RbNode, n: RbNode, s: Tree, y: Tree, z: Tree,
      u: Tree)
    requires Apart(c, Node(u, g, true, Node(Node(z, n, false, y), p, false, s)))
    ensures Parts(p, n, s, y, z) && Parts(g, p, u, y, s) && PartsBelow(c, g, p, u, y, s)
    ensures Parts(g, n, u, z, Node(y, p, false, s)) && PartsBelow(c, g, n, u, z, Node(y, p, false, s))
  {
    PartsOfLeft(c, g, true, p, false, u, Node(z, n, false, y), s);
    PartsOfRight(Top, p, false, n, false, s, y, z);
    assert Nodes(Node(z, n, false, y)) == Nodes(y) + {n} + Nodes(z);
    assert Nodes(Node(y, p, false, s)) == Nodes(s) + {p} + Nodes(y);
  }

  /** The mirror image of `DoubleLeft`. */
  method DoubleRight(node: RbNode, parent: RbNode, gparent: RbNode, root: RbRoot,
                     ghost c: Path, ghost s: Tree, ghost y: Tree, ghost z: Tree, ghost u: Tree)
    requires IsBlack(y) && IsBlack(z)
    requires Zipper(c, Node(u, gparent, true, Node(Node(z, node, false, y), parent, false, s)), root)
    modifies root, PathNodes(c), parent, gparent, node, Nodes(y), Nodes(z)
    ensures Zipper(c, Node(Node(u, gparent, false, z), node, true, Node(y, parent, false, s)), root)
  {
    ghost var t := Node(z, node, false, y);
    assert Rep(Node(t, parent, false, s), gparent) && Rep(t, parent);
    DoublePartsMirrored(c, gparent, parent, node, s, y, z, u);
    TwistRightBelow(parent, node, false, root, s, y, z, c, gparent, u);
    RotateLeft(gparent, node, root, false, true, c, u, z, Node(y, parent, false, s));
  }

  /** One round of the loop below a red parent. */
  lemma {:induction false} RoundKeeps(c: Path, t: Tree)
    requires InsertState(c, t) && RedParent(c)
    ensures !IsBlack(c.up.sibling) ==>
      && InsertState(c.up.up, ColoursFlipped(c, t))
      && Order(c.up.up, ColoursFlipped(c, t)) == Order(c, t)
    ensures IsBlack(c.up.sibling) ==>
      && Fixed(c.up.up, Rotated(c, t))
      && Order(c.up.up, Rotated(c, t)) == Order(c, t)
  {
    GrandparentOrder(c, t);
    if IsBlack(c.up.sibling) {
      RotatedFixed(c, t);
      RotatedOrder(c, t);
    } else {
      FlippedState(c, t);
      FlippedNodes(c, t);
    }
  }

  /** A red parent is never the root. */
  lemma {:induction false} RedHasParent(c: Path, t: Tree)
    requires InsertState(c, t) && !c.Top? && !c.black
    ensures RedParent(c) && c.up.black && IsBlack(c.sibling)
  {
  }

  /** One round of the loop, with a red parent: recolour and go on, or rotate and be done. */
  method Round(node: RbNode, parent: RbNode, root: RbRoot, ghost c: Path, ghost t: Tree)
    returns (done: bool, next: RbNode, ghost c': Path, ghost t': Tree)
    requires Zipper(c, t, root) && InsertState(c, t) && t.n == node
    requires !c.Top? && c.n == parent && !c.black
    modifies root, PathNodes(c), Nodes(t)
    ensures Zipper(c', t', root) && Order(c', t') == Order(c, t)
    ensures PathNodes(c') + Nodes(t') == PathNodes(c) + Nodes(t)
    ensures done ==> Fixed(c', t')
    ensures !done ==> InsertState(c', t') && t'.n == next && next.parent == UpPtr(c')
    ensures !done ==> !c.up.Top? && c' == c.up.up
  {
    RedHasParent(c, t);
    RoundKeeps(c, t);
    assert RepPath(c.up, parent, root);
    assert PathNodes(c) == PathNodes(c.up) + {c.n} + Nodes(c.sibling);
    var gparent := parent.parent;
    next := gparent;
    done := true;
    var tmp := gparent.right;
    if parent != tmp {
      if tmp != null && !tmp.black {
        FlipColours(parent, tmp, gparent, root, c, t);
        c', t', done := c.up.up, ColoursFlipped(c, t), false;
        SameOrderSameNodes(c, t, c', t');
        return;
      }
      InsertLeft(node, parent, gparent, root, c, t);
      c', t' := c.up.up, Rotated(c, t);
    } else {
      tmp := gparent.left;
      if tmp != null && !tmp.black {
        FlipColours(parent, tmp, gparent, root, c, t);
        c', t', done := c.up.up, ColoursFlipped(c, t), false;
        SameOrderSameNodes(c, t, c', t');
        return;
      }
      InsertRight(node, parent, gparent, root, c, t);
      c', t' := c.up.up, Rotated(c, t);
    }
    SameOrderSameNodes(c, t, c', t');
  }

  /** Where the loop starts. */
  lemma {:induction false} Linked(c: Path, n: RbNode)
    requires RedBlack(Plug(c, Leaf))
    ensures InsertState(c, Node(Leaf, n, false, Leaf))
    ensures Order(c, Node(Leaf, n, false, Leaf)) == Before(c) + [n] + After(c)
    ensures Nodes(Node(Leaf, n, false, Leaf)) == {n}
  {
    PlugValidInverse(c, Leaf);
    assert InOrder(Node(Leaf, n, false, Leaf)) == [n];
  }

  /** `__rb_insert`, after `newNode` was linked red at the hole of `c0`. */
  method InsertColor(newNode: RbNode, root: RbRoot, ghost c0: Path)
    returns (ghost result: Tree)
    requires Zipper(c0, Node(Leaf, newNode, false, Leaf), root)
    requires RedBlack(Plug(c0, Leaf))
    modifies root, PathNodes(c0), newNode
    ensures Holds(result, root) && RedBlack(result)
    ensures InOrder(result) == Before(c0) + [newNode] + After(c0)
  {
    ghost var c, t := c0, Node(Leaf, newNode, false, Leaf);
    ghost var order, all := Order(c, t), PathNodes(c0) + {newNode};
    Linked(c0, newNode);
    var node, parent := newNode, newNode.parent;
    while true
      invariant Zipper(c, t, root) && InsertState(c, t) && t.n == node && parent == UpPtr(c)
      invariant Order(c, t) == order && PathNodes(c) + Nodes(t) == all
      decreases Depth(c)
    {
      if parent == null {
        c, t := Blackened(node, root, t);
        break;
      }
      if parent.black {
        break;
      }
      var done, next;
      ghost var below := c;
      done, next, c, t := Round(node, parent, root, c, t);
      if done {
        break;
      }
      node := next;
      parent := node.parent;
      assert Depth(below) == 1 + Depth(below.up) == 2 + Depth(c);
    }
    Finished(c, t, root);
    result := Plug(c, t);
  }

  /** The fix-up reached the root. */
  method Blackened(node: RbNode, root: RbRoot, ghost t: Tree)
    returns (ghost c': Path, ghost t': Tree)
    requires Zipper(Top, t, root) && InsertState(Top, t) && t.n == node
    modifies node
    ensures c' == Top && Zipper(c', t', root) && Fixed(c', t') && Order(c', t') == Order(Top, t)
  {
    node.parent, node.black := null, true;
    c', t' := Top, t.(black := true);
    assert Rep(t.left, node) && Rep(t.right, node);
    assert InOrder(t') == InOrder(t);
  }
}
