/** `____rb_erase_color` (apps/msg/rbtree.c): rebalancing after a black node was taken out.
    A predicate compared with `true` in a contract is proved as one fact, not conjunct by conjunct. */
module RbErase {
  import opened RbTree

  /** What the loop keeps: `t` is black, and all paths through it are one black node short. */
  ghost predicate EraseState(c: Path, t: Tree) {
    IsBlack(t) && ValidSub(t) && ValidPath(c, BlackHeight(t) + 1)
  }

  /** Case 1: a red sibling is turned above the parent. */
  ghost function SiblingTurned(c: Path): Path
    requires !c.Top? && !IsBlack(c.sibling)
  {
    var s := c.sibling;
    if c.GoLeft? then GoLeft(GoLeft(c.up, s.n, c.black, s.right), c.n, false, s.left)
    else GoRight(GoRight(c.up, s.n, c.black, s.left), c.n, false, s.right)
  }

  /** Both of the sibling's children are black: case 2. */
  ghost predicate BlackNephews(s: Tree)
    requires s.Node?
  {
    IsBlack(s.left) && IsBlack(s.right)
  }

  /** Cases 2, 3 and 4: black sibling. */
  ghost function Settled(c: Path, t: Tree): Tree
    requires !c.Top? && c.sibling.Node?
  {
    var p, s := c.n, c.sibling;
    if c.GoLeft? then
      if BlackNephews(s) then Node(t, p, true, s.(black := false))
      else if IsBlack(s.right) then
        Node(Node(t, p, true, s.left.left), s.left.n, c.black, Node(s.left.right, s.n, true, s.right))
      else Node(Node(t, p, true, s.left), s.n, c.black, s.right.(black := true))
    else
      if BlackNephews(s) then Node(s.(black := false), p, true, t)
      else if IsBlack(s.left) then
        Node(Node(s.left, s.n, true, s.right.left), s.right.n, c.black, Node(s.right.right, p, true, t))
      else Node(s.left.(black := true), s.n, c.black, Node(s.right, p, true, t))
  }

  lemma {:induction false} TurnedState(c: Path, t: Tree)
    requires EraseState(c, t) && !c.Top? && !IsBlack(c.sibling)
    ensures c.black && EraseState(SiblingTurned(c), t)
    ensures SiblingTurned(c).sibling.Node? && IsBlack(SiblingTurned(c).sibling)
  {
    var s, d := c.sibling, SiblingTurned(c);
    assert ValidSub(s) && BlackHeight(s) == BlackHeight(t) + 1;
    assert ValidPath(c.up, BlackHeight(t) + 2);
    assert ValidPath(d.up, BlackHeight(t) + 1);
  }

  lemma {:induction false} TurnedOrder(c: Path, t: Tree)
    requires !c.Top? && !IsBlack(c.sibling)
    ensures Order(SiblingTurned(c), t) == Order(c, t)
  {
    var s, d := c.sibling, SiblingTurned(c);
    assert InOrder(s) == InOrder(s.left) + [s.n] + InOrder(s.right);
    if c.GoLeft? {
      assert After(d.up) == [s.n] + InOrder(s.right) + After(c.up);
      assert After(d) == [c.n] + InOrder(s.left) + After(d.up);
      assert After(d) == After(c) && Before(d) == Before(c);
    } else {
      assert Before(d.up) == Before(c.up) + InOrder(s.left) + [s.n];
      assert Before(d) == Before(d.up) + InOrder(s.right) + [c.n];
      assert Before(d) == Before(c) && After(d) == After(c);
    }
  }

  lemma {:induction false} SettledState(c: Path, t: Tree)
    requires EraseState(c, t) && !c.Top? && c.sibling.Node? && IsBlack(c.sibling)
    ensures BlackNephews(c.sibling) && c.black ==> EraseState(c.up, Settled(c, t))
    ensures !(BlackNephews(c.sibling) && c.black) ==> Fixed(c.up, Settled(c, t))
  {
    var s, r := c.sibling, Settled(c, t);
    assert ValidSub(s) && BlackHeight(s) == BlackHeight(t) + 1;
    assert ValidSub(s.left) && ValidSub(s.right) && BlackHeight(s.left) == BlackHeight(s.right) == BlackHeight(t);
    assert ValidPath(c.up, BlackHeight(t) + 1 + if c.black then 1 else 0);
    assert ValidSub(r.left) && ValidSub(r.right) && BlackHeight(r.left) == BlackHeight(r.right);
  }

  lemma {:induction false} SettledOrder(c: Path, t: Tree)
    requires !c.Top? && c.sibling.Node?
    ensures Order(c.up, Settled(c, t)) == Order(c, t)
  {
    JoinOrder(c, t);
    if c.GoLeft? {
      SettledOrderLeft(c, t);
    } else {
      SettledOrderRight(c, t);
    }
  }

  lemma {:induction false} SettledOrderLeft(c: Path, t: Tree)
    requires c.GoLeft? && c.sibling.Node?
    ensures InOrder(Settled(c, t)) == InOrder(Join(c, t))
  {
    var s, r := c.sibling, Settled(c, t);
    assert InOrder(s) == InOrder(s.left) + [s.n] + InOrder(s.right);
    assert InOrder(r) == InOrder(r.left) + [r.n] + InOrder(r.right);
    if !BlackNephews(s) && IsBlack(s.right) {
      assert InOrder(s.left) == InOrder(s.left.left) + [s.left.n] + InOrder(s.left.right);
      assert InOrder(r.left) == InOrder(t) + [c.n] + InOrder(s.left.left);
      assert InOrder(r.right) == InOrder(s.left.right) + [s.n] + InOrder(s.right);
    } else if !BlackNephews(s) {
      assert InOrder(r.left) == InOrder(t) + [c.n] + InOrder(s.left);
      assert InOrder(r.right) == InOrder(s.right);
    }
  }

  lemma {:induction false} SettledOrderRight(c: Path, t: Tree)
    requires c.GoRight? && c.sibling.Node?
    ensures InOrder(Settled(c, t)) == InOrder(Join(c, t))
  {
    var s, r := c.sibling, Settled(c, t);
    assert InOrder(s) == InOrder(s.left) + [s.n] + InOrder(s.right);
    assert InOrder(r) == InOrder(r.left) + [r.n] + InOrder(r.right);
    if !BlackNephews(s) && IsBlack(s.left) {
      assert InOrder(s.right) == InOrder(s.right.left) + [s.right.n] + InOrder(s.right.right);
      assert InOrder(r.right) == InOrder(s.right.right) + [c.n] + InOrder(t);
      assert InOrder(r.left) == InOrder(s.left) + [s.n] + InOrder(s.right.left);
    } else if !BlackNephews(s) {
      assert InOrder(r.right) == InOrder(s.right) + [c.n] + InOrder(t);
      assert InOrder(r.left) == InOrder(s.left);
    }
  }

  // ----- the deficient child is the left one -----

  /** Case 1: left rotate at the parent. */
  method TurnLeft(parent: RbNode, sibling: RbNode, root: RbRoot, ghost c: Path, ghost t: Tree)
    returns (next: RbNode)
    requires Zipper(c, t, root) && c.GoLeft? && c.n == parent
    requires Ptr(c.sibling) == sibling && !c.sibling.black && c.sibling.left.Node? && c.sibling.left.black
    modifies root, PathNodes(c)
    ensures Zipper(SiblingTurned(c), t, root) && next == c.sibling.left.n
  {
    ghost var up, s := c.up, c.sibling;
    ZipperUp(c, t, root);
    PartsOfLeft(up, parent, c.black, sibling, false, t, s.left, s.right);
    next := sibling.left;
    RotateLeft(parent, sibling, root, false, true, up, t, s.left, s.right);
    ghost var d := SiblingTurned(c);
    ZipperDown(d.up, Join(d, t), root);
    ZipperDown(d, t, root);
  }

  /** Case 2: the sibling turns red, a red parent black. */
  method Redden(parent: RbNode, sibling: RbNode, root: RbRoot, ghost c: Path, ghost t: Tree)
    returns (again: bool)
    requires Zipper(c, t, root) && !c.Top? && c.n == parent && Ptr(c.sibling) == sibling
    requires BlackNephews(c.sibling)
    modifies sibling, parent
    ensures Zipper(c.up, Settled(c, t), root)
    ensures again <==> c.black
  {
    ghost var s := c.sibling;
    ZipperUp(c, t, root);
    assert Nodes(s.(black := false)) == Nodes(s) && Distinct(s.(black := false));
    assert allocated(PathNodes(c.up));
    again := ReddenPair(parent, sibling, t, s);
    assert RepPath(c.up, parent, root);
  }

  method ReddenPair(parent: RbNode, sibling: RbNode, ghost t: Tree, ghost s: Tree)
    returns (again: bool)
    requires s.Node? && s.n == sibling && Distinct(s) && Rep(s, parent) && Rep(t, parent)
    requires Nodes(s) !! Nodes(t) && parent !in Nodes(s) && parent !in Nodes(t)
    modifies sibling`parent, sibling`black, parent`black
    ensures Rep(s.(black := false), parent) && Rep(t, parent)
    ensures parent.black && again == old(parent.black)
  {
    sibling.parent, sibling.black := parent, false;
    again := parent.black;
    if !parent.black {
      parent.black := true;
    }
    assert Rep(s.left, sibling) && Rep(s.right, sibling);
  }

  /** Case 4: left rotate at the parent; the outer nephew turns black. */
  method OuterLeft(parent: RbNode, sibling: RbNode, nephew: RbNode, root: RbRoot,
                   ghost c: Path, ghost b: bool, ghost t: Tree, ghost y: Tree, ghost z: Tree)
    requires z.Node? && z.n == nephew
    requires Zipper(c, Node(t, parent, b, Node(y, sibling, true, z)), root)
    modifies root, PathNodes(c), parent, sibling, Nodes(y), nephew
    ensures Zipper(c, Node(Node(t, parent, true, y), sibling, b, z.(black := true)), root) == true
  {
    assert Rep(Node(y, sibling, true, z), parent) && Rep(z, sibling);
    PartsOfLeft(c, parent, b, sibling, true, t, y, z);
    assert Nodes(z.(black := true)) == Nodes(z) && Distinct(z.(black := true));
    nephew.parent, nephew.black := sibling, true;
    assert Rep(z.left, nephew) == true && Rep(z.right, nephew) == true;
    assert Rep(t, parent) == true && Rep(y, sibling) == true && RepPath(c, parent, root) == true;
    RotateLeft(parent, sibling, root, true, false, c, t, y, z.(black := true));
  }

  /** Case 3, right rotate at the sibling, going on into case 4. */
  method InnerLeft(parent: RbNode, sibling: RbNode, nephew: RbNode, root: RbRoot,
                   ghost c: Path, ghost b: bool, ghost t: Tree, ghost y: Tree, ghost z: Tree, ghost w: Tree)
    requires IsBlack(z)
    requires Zipper(c, Node(t, parent, b, Node(Node(y, nephew, false, z), sibling, true, w)), root)
    modifies root, PathNodes(c), parent, sibling, nephew, Nodes(y), Nodes(z)
    ensures Zipper(c, Node(Node(t, parent, true, y), nephew, b, Node(z, sibling, true, w)), root)
  {
    ghost var n, s := Node(y, nephew, false, z), Node(Node(y, nephew, false, z), sibling, true, w);
    ghost var s' := Node(z, sibling, true, w);
    assert Rep(s, parent) && Rep(n, sibling);
    InnerParts(c, b, parent, sibling, nephew, t, y, z, w);
    TwistRightBelow(sibling, nephew, true, root, w, z, y, c, parent, t);
    RotateLeft(parent, nephew, root, true, false, c, t, y, s');
  }

  lemma {:induction false} InnerParts(c: Path, b: bool, p: RbNode, s: RbNode, n: RbNode,
                                      t: Tree, y: Tree, z: Tree, w: Tree)
    requires Apart(c, Node(t, p, b, Node(Node(y, n, false, z), s, true, w)))
    ensures Parts(s, n, w, z, y) && Parts(p, s, t, z, w) && PartsBelow(c, p, s, t, z, w)
    ensures Parts(p, n, t, y, Node(z, s, true, w)) && PartsBelow(c, p, n, t, y, Node(z, s, true, w))
  {
    PartsOfLeft(c, p, b, s, true, t, Node(y, n, false, z), w);
    PartsOfRight(Top, s, true, n, false, w, z, y);
    assert Nodes(Node(y, n, false, z)) == Nodes(y) + {n} + Nodes(z);
    assert Nodes(Node(z, s, true, w)) == Nodes(z) + {s} + Nodes(w);
  }

  /** Cases 2 to 4 with the deficient child on the left. */
  method SettleLeft(parent: RbNode, sibling: RbNode, root: RbRoot, ghost c: Path, ghost t: Tree)
    returns (again: bool)
    requires Zipper(c, t, root) && c.GoLeft? && c.n == parent
    requires Ptr(c.sibling) == sibling && c.sibling.black && NoRedRed(c.sibling)
    modifies root, PathNodes(c)
    ensures Zipper(c.up, Settled(c, t), root)
    ensures again <==> BlackNephews(c.sibling) && c.black
  {
    ghost var s := c.sibling;
    assert Rep(s, parent) && Nodes(s) == Nodes(s.left) + {sibling} + Nodes(s.right);
    ghost var l, r := s.left, s.right;
    assert Rep(l, sibling) && Rep(r, sibling);
    again := false;
    var tmp1 := sibling.right;
    if tmp1 == null || tmp1.black {
      var tmp2 := sibling.left;
      if tmp2 == null || tmp2.black {
        again := Redden(parent, sibling, root, c, t);
        return;
      }
      ZipperUp(c, t, root);
      InnerLeft(parent, sibling, tmp2, root, c.up, c.black, t, l.left, l.right, r);
      return;
    }
    ZipperUp(c, t, root);
    OuterLeft(parent, sibling, tmp1, root, c.up, c.black, t, l, r);
  }

  // ----- the deficient child is the right one: mirror images -----

  method TurnRight(parent: RbNode, sibling: RbNode, root: RbRoot, ghost c: Path, ghost t: Tree)
    returns (next: RbNode)
    requires Zipper(c, t, root) && c.GoRight? && c.n == parent
    requires Ptr(c.sibling) == sibling && !c.sibling.black && c.sibling.right.Node? && c.sibling.right.black
    modifies root, PathNodes(c)
    ensures Zipper(SiblingTurned(c), t, root) && next == c.sibling.right.n
  {
    ghost var up, s := c.up, c.sibling;
    ZipperUp(c, t, root);
    PartsOfRight(up, parent, c.black, sibling, false, t, s.right, s.left);
    next := sibling.right;
    RotateRight(parent, sibling, root, false, true, up, t, s.right, s.left);
    ghost var d := SiblingTurned(c);
    ZipperDown(d.up, Join(d, t), root);
    ZipperDown(d, t, root);
  }

  method OuterRight(parent: RbNode, sibling: RbNode, nephew: RbNode, root: RbRoot,
                    ghost c: Path, ghost b: bool, ghost t: Tree, ghost y: Tree, ghost z: Tree)
    requires z.Node? && z.n == nephew
    requires Zipper(c, Node(Node(z, sibling, true, y), parent, b, t), root)
    modifies root, PathNodes(c), parent, sibling, Nodes(y), nephew
    ensures Zipper(c, Node(z.(black := true), sibling, b, Node(y, parent, true, t)), root) == true
  {
    assert Rep(Node(z, sibling, true, y), parent) && Rep(z, sibling);
    PartsOfRight(c, parent, b, sibling, true, t, y, z);
    assert Nodes(z.(black := true)) == Nodes(z) && Distinct(z.(black := true));
    nephew.parent, nephew.black := sibling, true;
    assert Rep(z.left, nephew) == true && Rep(z.right, nephew) == true;
    assert Rep(t, parent) == true && Rep(y, sibling) == true && RepPath(c, parent, root) == true;
    RotateRight(parent, sibling, root, true, false, c, t, y, z.(black := true));
  }

  method InnerRight(parent: RbNode, sibling: RbNode, nephew: RbNode, root: RbRoot,
                    ghost c: Path, ghost b: bool, ghost t: Tree, ghost y: Tree, ghost z: Tree, ghost w: Tree)
    requires IsBlack(z)
    requires Zipper(c, Node(Node(w, sibling, true, Node(z, nephew, false, y)), parent, b, t), root)
    modifies root, PathNodes(c), parent, sibling, nephew, Nodes(y), Nodes(z)
    ensures Zipper(c, Node(Node(w, sibling, true, z), nephew, b, Node(y, parent, true, t)), root)
  {
    ghost var n, s := Node(z, nephew, false, y), Node(w, sibling, true, Node(z, nephew, false, y));
    ghost var s' := Node(w, sibling, true, z);
    assert Rep(s, parent) && Rep(n, sibling);
    InnerPartsMirrored(c, b, parent, sibling, nephew, t, y, z, w);
    TwistLeftBelow(sibling, nephew, true, root, w, z, y, c, parent, t);
    RotateRight(parent, nephew, root, true, false, c, t, y, s');
  }

  lemma {:induction false} InnerPartsMirrored(c: Path, b: bool, p: RbNode, s: RbNode, n: RbNode,
                                              t: Tree, y: Tree, z: Tree, w: Tree)
    requires Apart(c, Node(Node(w, s, true, Node(z, n, false, y)), p, b, t))
    ensures Parts(s, n, w, z, y) && Parts(p, s, t, z, w) && PartsBelow(c, p, s, t, z, w)
    ensures Parts(p, n, t, y, Node(w, s, true, z)) && PartsBelow(c, p, n, t, y, Node(w, s, true, z))
  {
    PartsOfRight(c, p, b, s, true, t, Node(z, n, false, y), w);
    PartsOfLeft(Top, s, true, n, false, w, z, y);
    assert Nodes(Node(z, n, false, y)) == Nodes(y) + {n} + Nodes(z);
    assert Nodes(Node(w, s, true, z)) == Nodes(z) + {s} + Nodes(w);
  }

  method SettleRight(parent: RbNode, sibling: RbNode, root: RbRoot, ghost c: Path, ghost t: Tree)
    returns (again: bool)
    requires Zipper(c, t, root) && c.GoRight? && c.n == parent
    requires Ptr(c.sibling) == sibling && c.sibling.black && NoRedRed(c.sibling)
    modifies root, PathNodes(c)
    ensures Zipper(c.up, Settled(c, t), root)
    ensures again <==> BlackNephews(c.sibling) && c.black
  {
    ghost var s := c.sibling;
    assert Rep(s, parent) && Nodes(s) == Nodes(s.left) + {sibling} + Nodes(s.right);
    ghost var l, r := s.left, s.right;
    assert Rep(l, sibling) && Rep(r, sibling);
    again := false;
    var tmp1 := sibling.left;
    if tmp1 == null || tmp1.black {
      var tmp2 := sibling.right;
      if tmp2 == null || tmp2.black {
        again := Redden(parent, sibling, root, c, t);
        return;
      }
      ZipperUp(c, t, root);
      InnerRight(parent, sibling, tmp2, root, c.up, c.black, t, r.right, r.left, l);
      return;
    }
    ZipperUp(c, t, root);
    OuterRight(parent, sibling, tmp1, root, c.up, c.black, t, r, l);
  }

  // ----- the loop -----

  /** The sibling of a deficient child exists, and a red one has two black children. */
  lemma {:induction false} SiblingExists(c: Path, t: Tree)
    requires EraseState(c, t) && !c.Top?
    ensures c.sibling.Node? && NoRedRed(c.sibling)
    ensures !c.sibling.black ==>
      && c.sibling.left.Node? && c.sibling.left.black && NoRedRed(c.sibling.left)
      && c.sibling.right.Node? && c.sibling.right.black && NoRedRed(c.sibling.right)
  {
    assert ValidSub(c.sibling) && BlackHeight(c.sibling) == BlackHeight(t) + 1;
  }

  /** One round of the loop with a black sibling. */
  lemma {:induction false} RoundKeeps(c: Path, t: Tree)
    requires EraseState(c, t) && !c.Top? && c.sibling.Node? && c.sibling.black
    ensures BlackNephews(c.sibling) && c.black ==> EraseState(c.up, Settled(c, t))
    ensures !(BlackNephews(c.sibling) && c.black) ==> Fixed(c.up, Settled(c, t))
    ensures Order(c.up, Settled(c, t)) == Order(c, t)
    ensures PathNodes(c.up) + Nodes(Settled(c, t)) == PathNodes(c) + Nodes(t)
  {
    SettledState(c, t);
    SettledOrder(c, t);
    SameOrderSameNodes(c, t, c.up, Settled(c, t));
  }

  /** Case 1 keeps the state; it is followed by case 2, 3 or 4, never by another round. */
  lemma {:induction false} TurnKeeps(c: Path, t: Tree)
    requires EraseState(c, t) && !c.Top? && c.sibling.Node? && !c.sibling.black
    ensures EraseState(SiblingTurned(c), t) && !SiblingTurned(c).black
    ensures Order(SiblingTurned(c), t) == Order(c, t)
    ensures PathNodes(SiblingTurned(c)) + Nodes(t) == PathNodes(c) + Nodes(t)
  {
    TurnedState(c, t);
    TurnedOrder(c, t);
    SameOrderSameNodes(c, t, SiblingTurned(c), t);
  }

  /** One round of the loop. */
  method Round(node: RbNode?, parent: RbNode, root: RbRoot, ghost c: Path, ghost t: Tree)
    returns (again: bool, ghost c': Path, ghost t': Tree)
    requires Zipper(c, t, root) && EraseState(c, t) && Ptr(t) == node && !c.Top? && c.n == parent
    modifies root, PathNodes(c)
    ensures Zipper(c', t', root) && Order(c', t') == Order(c, t)
    ensures PathNodes(c') + Nodes(t') == PathNodes(c) + Nodes(t)
    ensures again ==> EraseState(c', t') && c' == c.up && Ptr(t') == parent && parent.parent == UpPtr(c')
    ensures !again ==> Fixed(c', t')
  {
    SiblingExists(c, t);
    ghost var d := c;
    var sibling := parent.right;
    assert Rep(c.sibling, parent);
    if node != sibling {
      assert c.GoLeft?;
      if !sibling.black {
        TurnKeeps(c, t);
        d := SiblingTurned(c);
        sibling := TurnLeft(parent, sibling, root, c, t);
      }
      RoundKeeps(d, t);
      again := SettleLeft(parent, sibling, root, d, t);
    } else {
      assert c.GoRight?;
      sibling := parent.left;
      if !sibling.black {
        TurnKeeps(c, t);
        d := SiblingTurned(c);
        sibling := TurnRight(parent, sibling, root, c, t);
      }
      RoundKeeps(d, t);
      again := SettleRight(parent, sibling, root, d, t);
    }
    c', t' := d.up, Settled(d, t);
  }

  /** `____rb_erase_color`: all paths through the empty child slot of `parent` are one black node short. */
  method EraseColor(child: RbNode, root: RbRoot, ghost c0: Path)
    returns (ghost result: Tree)
    requires Zipper(c0, Leaf, root) && !c0.Top? && c0.n == child
    requires ValidPath(c0, 1)
    modifies root, PathNodes(c0)
    ensures Holds(result, root) && RedBlack(result)
    ensures InOrder(result) == Before(c0) + After(c0)
  {
    var node: RbNode?, parent := null, child;
    ghost var c, t := c0, Leaf;
    ghost var order := Before(c0) + After(c0);
    assert Order(c, t) == order;
    while true
      invariant Zipper(c, t, root) && EraseState(c, t) && Ptr(t) == node && !c.Top? && c.n == parent
      invariant Order(c, t) == order && PathNodes(c) + Nodes(t) == PathNodes(c0)
      decreases Depth(c)
    {
      var again;
      ghost var below := c;
      again, c, t := Round(node, parent, root, c, t);
      if !again {
        break;
      }
      node := parent;
      var above := node.parent;
      if above == null {
        break;
      }
      parent := above;
      assert Depth(below) == 1 + Depth(c);
    }
    Finished(c, t, root);
    result := Plug(c, t);
  }
}
