/** Linking, in-order traversal, replacement and the leftmost cache
    (apps/msg/rbtree.c:464-565 and apps/msg/rbtree.h).
    A predicate compared with `true` in a contract is proved as one fact, not conjunct by conjunct. */
module RbTraverse {
  import opened RbTree
  import RbInsert

  // ----- how deep a red-black tree can be -----

  ghost function Height(t: Tree): nat {
    if t.Leaf? then 0
    else 1 + if Height(t.left) < Height(t.right) then Height(t.right) else Height(t.left)
  }

  function Pow2(n: nat): nat {
    if n == 0 then 1 else 2 * Pow2(n - 1)
  }

  lemma {:induction false} HeightBound(t: Tree)
    requires ValidSub(t)
    ensures Height(t) <= 2 * BlackHeight(t) + if IsBlack(t) then 0 else 1
  {
    if t.Node? {
      HeightBound(t.left);
      HeightBound(t.right);
    }
  }

  lemma {:induction false} SizeBound(t: Tree)
    requires Balanced(t)
    ensures Pow2(BlackHeight(t)) <= |InOrder(t)| + 1
  {
    if t.Node? {
      SizeBound(t.left);
      SizeBound(t.right);
      assert |InOrder(t)| == |InOrder(t.left)| + 1 + |InOrder(t.right)|;
    }
  }

  lemma {:induction false} PowMonotone(a: nat, b: nat)
    requires a <= b
    ensures Pow2(a) <= Pow2(b)
    decreases b - a
  {
    if a < b {
      PowMonotone(a + 1, b);
    }
  }

  /** The logarithmic guarantee: no path is longer than twice the black height, and a tree
      whose longest path has `h` nodes holds at least 2^(h/2) - 1 nodes, `h/2` rounded up. */
  lemma {:induction false} LogarithmicDepth(t: Tree)
    requires RedBlack(t)
    ensures Height(t) <= 2 * BlackHeight(t)
    ensures Pow2((Height(t) + 1) / 2) <= |InOrder(t)| + 1
  {
    HeightBound(t);
    SizeBound(t);
    PowMonotone((Height(t) + 1) / 2, BlackHeight(t));
  }

  // ----- finding a node in the tree -----

  lemma {:induction false} HoldsZipper(c: Path, t: Tree, root: RbRoot)
    requires Holds(Plug(c, t), root)
    ensures Zipper(c, t, root)
    decreases c
  {
    if !c.Top? {
      HoldsZipper(c.up, Join(c, t), root);
      ZipperDown(c, t, root);
    }
  }

  /** The way to the node at position `i`, below an arbitrary path. */
  lemma {:induction false} LocateBelow(c: Path, t: Tree, i: nat) returns (c': Path, t': Tree)
    requires i < |InOrder(t)|
    ensures Plug(c', t') == Plug(c, t) && t'.Node? && t'.n == InOrder(t)[i]
    ensures |Before(c')| + |InOrder(t'.left)| == |Before(c)| + i
    decreases t
  {
    var l := |InOrder(t.left)|;
    assert InOrder(t) == InOrder(t.left) + [t.n] + InOrder(t.right);
    if i < l {
      c', t' := LocateBelow(GoLeft(c, t.n, t.black, t.right), t.left, i);
    } else if i == l {
      c', t' := c, t;
    } else {
      c', t' := LocateBelow(GoRight(c, t.n, t.black, t.left), t.right, i - l - 1);
    }
  }

  lemma {:induction false} Locate(tree: Tree, root: RbRoot, i: nat) returns (c: Path, t: Tree)
    requires Holds(tree, root) && i < |InOrder(tree)|
    ensures Plug(c, t) == tree && Zipper(c, t, root) && t.Node? && t.n == InOrder(tree)[i]
    ensures |Before(c)| + |InOrder(t.left)| == i
    ensures Order(c, t) == InOrder(tree)
  {
    c, t := LocateBelow(Top, tree, i);
    HoldsZipper(c, t, root);
    InOrderPlug(c, t);
  }

  /** A node is the left or the right child of its parent, and not both. */
  lemma {:induction false} WhichSide(c: Path, t: Tree, root: RbRoot)
    requires Zipper(c, t, root) && t.Node? && !c.Top?
    ensures c.GoLeft? <==> c.n.left == t.n
    ensures c.GoRight? <==> c.n.right == t.n
  {
    assert c.sibling.Node? ==> c.sibling.n in Nodes(c.sibling);
    assert t.n in Nodes(t);
  }

  ghost function At(s: seq<RbNode>, i: int): RbNode? {
    if 0 <= i < |s| then s[i] else null
  }

  /** The leftmost node of `t` comes right after what precedes `t`. */
  method Leftmost(start: RbNode, ghost root: RbRoot, ghost c0: Path, ghost t0: Tree) returns (r: RbNode)
    requires Zipper(c0, t0, root) && Ptr(t0) == start
    ensures r == At(Order(c0, t0), |Before(c0)|)
  {
    var n: RbNode := start;
    ghost var c, t := c0, t0;
    while n.left != null
      invariant Zipper(c, t, root) && Ptr(t) == n
      invariant Order(c, t) == Order(c0, t0) && |Before(c)| == |Before(c0)|
      decreases t
    {
      ghost var d := GoLeft(c, t.n, t.black, t.right);
      ZipperDown(d, t.left, root);
      JoinOrder(d, t.left);
      n := n.left;
      c, t := d, t.left;
    }
    assert InOrder(t) == [n] + InOrder(t.right);
    r := n;
  }

  /** The rightmost node of `t` comes right before what follows `t`. */
  method Rightmost(start: RbNode, ghost root: RbRoot, ghost c0: Path, ghost t0: Tree) returns (r: RbNode)
    requires Zipper(c0, t0, root) && Ptr(t0) == start
    ensures r == At(Order(c0, t0), |Before(c0)| + |InOrder(t0)| - 1)
  {
    var n: RbNode := start;
    ghost var c, t := c0, t0;
    while n.right != null
      invariant Zipper(c, t, root) && Ptr(t) == n
      invariant Order(c, t) == Order(c0, t0) && |After(c)| == |After(c0)|
      decreases t
    {
      ghost var d := GoRight(c, t.n, t.black, t.left);
      ZipperDown(d, t.right, root);
      JoinOrder(d, t.right);
      n := n.right;
      c, t := d, t.right;
    }
    assert InOrder(t) == InOrder(t.left) + [n];
    assert |Order(c, t)| == |Before(c)| + |InOrder(t)| + |After(c)|;
    r := n;
  }

  /** `rb_first` */
  method First(root: RbRoot, ghost tree: Tree) returns (r: RbNode?)
    requires Holds(tree, root)
    ensures r == At(InOrder(tree), 0)
  {
    var n := root.node;
    if n == null {
      return null;
    }
    r := Leftmost(n, root, Top, tree);
    assert Order(Top, tree) == InOrder(tree);
  }

  /** `rb_last` */
  method Last(root: RbRoot, ghost tree: Tree) returns (r: RbNode?)
    requires Holds(tree, root)
    ensures r == At(InOrder(tree), |InOrder(tree)| - 1)
  {
    var n := root.node;
    if n == null {
      return null;
    }
    r := Rightmost(n, root, Top, tree);
    assert Order(Top, tree) == InOrder(tree);
  }

  /** `RB_EMPTY_NODE`: a node that `RB_CLEAR_NODE` marked as being in no tree. */
  predicate Cleared(n: RbNode)
    reads n
  {
    n.parent == n && !n.black
  }

  /** `rb_next`: the in-order successor of the node at position `i`. */
  method Next(node: RbNode, ghost root: RbRoot, ghost tree: Tree, ghost i: nat) returns (r: RbNode?)
    requires !Cleared(node) ==> Holds(tree, root) && i < |InOrder(tree)| && InOrder(tree)[i] == node
    ensures Cleared(node) ==> r == null
    ensures !Cleared(node) ==> r == At(InOrder(tree), i + 1)
  {
    if node.parent == node && !node.black {
      return null;
    }
    ghost var c, t := Locate(tree, root, i);
    if node.right != null {
      ghost var d := GoRight(c, t.n, t.black, t.left);
      ZipperDown(d, t.right, root);
      JoinOrder(d, t.right);
      assert |Before(d)| == i + 1;
      r := Leftmost(node.right, root, d, t.right);
      return;
    }
    assert InOrder(t) == InOrder(t.left) + [node];
    var n: RbNode := node;
    var parent := n.parent;
    while parent != null && n == parent.right
      invariant Zipper(c, t, root) && Ptr(t) == n && parent == UpPtr(c)
      invariant Order(c, t) == InOrder(tree) && |Before(c)| + |InOrder(t)| == i + 1
      decreases Depth(c)
    {
      WhichSide(c, t, root);
      ZipperUp(c, t, root);
      JoinOrder(c, t);
      assert InOrder(Join(c, t)) == InOrder(c.sibling) + [c.n] + InOrder(t);
      c, t := c.up, Join(c, t);
      n := parent;
      parent := n.parent;
    }
    if parent != null {
      WhichSide(c, t, root);
      assert After(c) == [c.n] + InOrder(c.sibling) + After(c.up);
    }
    assert Order(c, t) == Before(c) + InOrder(t) + After(c);
    r := parent;
  }

  /** `rb_prev`: the in-order predecessor of the node at position `i`. */
  method Prev(node: RbNode, ghost root: RbRoot, ghost tree: Tree, ghost i: nat) returns (r: RbNode?)
    requires !Cleared(node) ==> Holds(tree, root) && i < |InOrder(tree)| && InOrder(tree)[i] == node
    ensures Cleared(node) ==> r == null
    ensures !Cleared(node) ==> r == At(InOrder(tree), i - 1)
  {
    if node.parent == node && !node.black {
      return null;
    }
    ghost var c, t := Locate(tree, root, i);
    if node.left != null {
      ghost var d := GoLeft(c, t.n, t.black, t.right);
      ZipperDown(d, t.left, root);
      JoinOrder(d, t.left);
      assert |Before(d)| + |InOrder(t.left)| == i;
      r := Rightmost(node.left, root, d, t.left);
      return;
    }
    assert InOrder(t) == [node] + InOrder(t.right);
    var n: RbNode := node;
    var parent := n.parent;
    while parent != null && n == parent.left
      invariant Zipper(c, t, root) && Ptr(t) == n && parent == UpPtr(c)
      invariant Order(c, t) == InOrder(tree) && |Before(c)| == i
      decreases Depth(c)
    {
      WhichSide(c, t, root);
      ZipperUp(c, t, root);
      JoinOrder(c, t);
      c, t := c.up, Join(c, t);
      n := parent;
      parent := n.parent;
    }
    if parent != null {
      WhichSide(c, t, root);
      assert Before(c) == Before(c.up) + InOrder(c.sibling) + [c.n];
    }
    assert Order(c, t) == Before(c) + InOrder(t) + After(c);
    r := parent;
  }

  // ----- whole walks -----

  /** A node of a tree is not marked as being in none. */
  lemma {:induction false} NotCleared(tree: Tree, root: RbRoot, i: nat)
    requires Holds(tree, root) && i < |InOrder(tree)|
    ensures !Cleared(InOrder(tree)[i])
  {
    var c, t := Locate(tree, root, i);
    assert t.n in Nodes(t);
    if !c.Top? {
      assert UpPtr(c) in PathNodes(c);
    }
  }

  /** `rb_next` from `rb_first` on: every node once, in order. */
  method WalkForward(root: RbRoot, ghost tree: Tree) returns (s: seq<RbNode>)
    requires Holds(tree, root)
    ensures s == InOrder(tree)
  {
    s := [];
    assert allocated(Nodes(tree));
    var n := First(root, tree);
    while n != null
      invariant Holds(tree, root) == true && |s| <= |InOrder(tree)| && s == InOrder(tree)[..|s|]
      invariant n == At(InOrder(tree), |s|)
      decreases |InOrder(tree)| - |s|
    {
      NotCleared(tree, root, |s|);
      assert allocated(Nodes(tree));
      var next := Next(n, root, tree, |s|);
      s := s + [n];
      n := next;
    }
  }

  /** `rb_prev` from `rb_last` on: every node once, in the opposite order. */
  method WalkBackward(root: RbRoot, ghost tree: Tree) returns (s: seq<RbNode>)
    requires Holds(tree, root)
    ensures |s| == |InOrder(tree)| && forall i :: 0 <= i < |s| ==> s[i] == InOrder(tree)[|s| - 1 - i]
  {
    s := [];
    assert allocated(Nodes(tree));
    var n := Last(root, tree);
    ghost var m := |InOrder(tree)|;
    while n != null
      invariant Holds(tree, root) == true && |s| <= m && n == At(InOrder(tree), m - 1 - |s|)
      invariant forall i :: 0 <= i < |s| ==> s[i] == InOrder(tree)[m - 1 - i]
      decreases m - |s|
    {
      NotCleared(tree, root, m - 1 - |s|);
      assert allocated(Nodes(tree));
      var previous := Prev(n, root, tree, m - 1 - |s|);
      s := s + [n];
      n := previous;
    }
  }

  /** `rb_prev` undoes `rb_next`. */
  method NextThenPrev(node: RbNode, root: RbRoot, ghost tree: Tree, ghost i: nat) returns (r: RbNode?)
    requires Holds(tree, root) && i < |InOrder(tree)| && InOrder(tree)[i] == node
    ensures r == if i + 1 < |InOrder(tree)| then node else null
  {
    NotCleared(tree, root, i);
    assert allocated(Nodes(tree));
    var next := Next(node, root, tree, i);
    assert Holds(tree, root) == true;
    r := null;
    if next != null {
      NotCleared(tree, root, i + 1);
      r := Prev(next, root, tree, i + 1);
    }
  }

  // ----- linking and replacing -----

  /** Where `rb_link` of `rb_link_node` points. */
  datatype Slot = AtRoot | LeftOf(parent: RbNode) | RightOf(parent: RbNode)

  ghost predicate SlotOf(c: Path, s: Slot) {
    match c
    case Top => s == AtRoot
    case GoLeft(_, n, _, _) => s == LeftOf(n)
    case GoRight(_, n, _, _) => s == RightOf(n)
  }

  /** `rb_link_node` at the empty slot of `c`. */
  method LinkNode(node: RbNode, slot: Slot, root: RbRoot, ghost c: Path)
    requires Zipper(c, Leaf, root) && SlotOf(c, slot) && node !in PathNodes(c)
    modifies root, PathNodes(c), node
    ensures Zipper(c, Node(Leaf, node, false, Leaf), root)
  {
    node.parent := if slot.AtRoot? then null else slot.parent;
    node.black := false;
    node.left, node.right := null, null;
    assert RepPath(c, null, root);
    match slot {
      case AtRoot => root.node := node;
      case LeftOf(p) => p.left := node;
      case RightOf(p) => p.right := node;
    }
    assert Nodes(Node(Leaf, node, false, Leaf)) == {node};
    if !c.Top? {
      assert Rep(c.sibling, c.n) && RepPath(c.up, c.n, root);
    }
  }

  /** Linking a node at any empty slot of a red-black tree and rebalancing: the result is a
      red-black tree with the node at that place in the order. */
  method Insert(node: RbNode, slot: Slot, root: RbRoot, ghost tree: Tree, ghost c: Path)
    returns (ghost result: Tree)
    requires Holds(tree, root) && RedBlack(tree) && tree == Plug(c, Leaf)
    requires SlotOf(c, slot) && node !in Nodes(tree)
    modifies root, Nodes(tree), node
    ensures Holds(result, root) && RedBlack(result)
    ensures InOrder(tree) == Before(c) + After(c)
    ensures InOrder(result) == Before(c) + [node] + After(c)
  {
    HoldsZipper(c, Leaf, root);
    PlugHolds(c, Leaf, root);
    InOrderPlug(c, Leaf);
    LinkNode(node, slot, root, c);
    result := RbInsert.InsertColor(node, root, c);
  }

  /** `rb_set_parent` on the top of a subtree that may be empty. */
  method SetParent(n: RbNode?, parent: RbNode, ghost s: Tree, ghost above: RbNode)
    requires Ptr(s) == n && Rep(s, above) && Distinct(s)
    modifies if n == null then {} else {n}
    ensures Rep(s, parent)
  {
    if n != null {
      n.parent := parent;
      assert Rep(s.left, n) && Rep(s.right, n);
    }
  }

  method CopyNode(victim: RbNode, newNode: RbNode, ghost t: Tree)
    requires Ptr(t) == victim && Distinct(t) && Rep(t, victim.parent) && newNode !in Nodes(t)
    modifies Nodes(t.left), Nodes(t.right), newNode
    ensures Rep(t.(n := newNode), victim.parent)
  {
    assert allocated(Nodes(t.left)) && allocated(Nodes(t.right));
    newNode.parent, newNode.black := victim.parent, victim.black;
    newNode.left, newNode.right := victim.left, victim.right;
    assert Rep(t.left, victim) && Rep(t.right, victim);
    SetParent(victim.left, newNode, t.left, victim);
    assert Rep(t.right, victim);
    SetParent(victim.right, newNode, t.right, victim);
    assert Rep(t.left, newNode);
  }

  /** `rb_replace_node` */
  method ReplaceNode(victim: RbNode, newNode: RbNode, root: RbRoot, ghost c: Path, ghost t: Tree)
    requires Zipper(c, t, root) && Ptr(t) == victim
    requires newNode !in Nodes(t) && newNode !in PathNodes(c)
    modifies root, PathNodes(c), Nodes(t), newNode
    ensures Zipper(c, t.(n := newNode), root)
  {
    var parent := victim.parent;
    assert allocated(PathNodes(c)) && allocated(Nodes(t));
    CopyNode(victim, newNode, t);
    assert RepPath(c, victim, root);
    ChangeChild(victim, newNode, parent, root, c);
    assert Rep(t.(n := newNode), parent);
  }

  /** Replacing changes one entry of the order and nothing else. */
  lemma {:induction false} ReplacedOrder(c: Path, t: Tree, newNode: RbNode)
    requires t.Node?
    ensures |Before(c)| + |InOrder(t.left)| < |Order(c, t)|
    ensures Order(c, t.(n := newNode)) == Order(c, t)[|Before(c)| + |InOrder(t.left)| := newNode]
  {
    assert InOrder(t.(n := newNode)) == InOrder(t.left) + [newNode] + InOrder(t.right);
    assert InOrder(t) == InOrder(t.left) + [t.n] + InOrder(t.right);
    Replaced(Before(c), InOrder(t.left), t.n, newNode, InOrder(t.right), After(c));
  }

  lemma {:induction false} Replaced<T>(a: seq<T>, b: seq<T>, x: T, y: T, c: seq<T>, d: seq<T>)
    ensures a + (b + [y] + c) + d == (a + (b + [x] + c) + d)[|a| + |b| := y]
  {
  }

  // ----- the leftmost cache -----

  /** The tree with one node replaced. */
  lemma {:induction false} ReplacedTree(c: Path, t: Tree, newNode: RbNode)
    requires t.Node?
    ensures var tree, result, i := Plug(c, t), Plug(c, t.(n := newNode)), |Before(c)| + |InOrder(t.left)|;
      && i < |InOrder(tree)| && InOrder(result) == InOrder(tree)[i := newNode]
      && (RedBlack(tree) ==> RedBlack(result))
  {
    InOrderPlug(c, t);
    InOrderPlug(c, t.(n := newNode));
    ReplacedOrder(c, t, newNode);
    if RedBlack(Plug(c, t)) {
      PlugValidInverse(c, t);
      PlugValid(c, t.(n := newNode));
    }
  }

  class RbRootCached {
    const root: RbRoot
    var leftmost: RbNode?

    constructor ()
      ensures leftmost == null && fresh(root) && root.node == null
    {
      root := new RbRoot();
      leftmost := null;
    }

    /** The cache names the first node of the tree. */
    ghost predicate Caches(tree: Tree)
      reads this, root, Nodes(tree)
    {
      Holds(tree, root) && leftmost == At(InOrder(tree), 0)
    }

    /** `rb_insert_color_cached` after `rb_link_node` at the slot of `c`; `isLeftmost` says whether
        the search for the slot went left all the way. */
    method InsertColorCached(node: RbNode, isLeftmost: bool, ghost c: Path)
      returns (ghost result: Tree)
      requires Zipper(c, Node(Leaf, node, false, Leaf), root) && RedBlack(Plug(c, Leaf))
      requires leftmost == At(Before(c) + After(c), 0)
      requires isLeftmost <==> Before(c) == []
      modifies this, root, PathNodes(c), node
      ensures Caches(result) && RedBlack(result)
      ensures InOrder(result) == Before(c) + [node] + After(c)
    {
      if isLeftmost {
        leftmost := node;
      }
      result := RbInsert.InsertColor(node, root, c);
    }

    /** `rb_replace_node_cached` */
    method ReplaceNodeCached(victim: RbNode, newNode: RbNode, ghost tree: Tree, ghost i: nat)
      returns (ghost result: Tree)
      requires Caches(tree) && i < |InOrder(tree)| && InOrder(tree)[i] == victim
      requires newNode !in Nodes(tree)
      modifies this, root, Nodes(tree), newNode
      ensures Caches(result) == true && InOrder(result) == InOrder(tree)[i := newNode]
      ensures RedBlack(tree) ==> RedBlack(result) == true
    {
      ghost var c, t := Locate(tree, root, i);
      PlugHolds(c, t, root);
      result := Plug(c, t.(n := newNode));
      ReplacedTree(c, t, newNode);
      FirstOnce(tree, i);
      if leftmost == victim {
        leftmost := newNode;
      }
      ReplaceNode(victim, newNode, root, c, t);
      PlugHolds(c, t.(n := newNode), root);
    }
  }

  /** Only the first node is at position 0. */
  lemma {:induction false} FirstOnce(t: Tree, i: nat)
    requires Distinct(t) && i < |InOrder(t)|
    ensures InOrder(t)[i] == InOrder(t)[0] ==> i == 0
  {
    if InOrder(t)[i] == InOrder(t)[0] {
      DistinctOrder(t, 0, i);
    }
  }

  /** Every node occurs once in the order. */
  lemma {:induction false} DistinctOrder(t: Tree, i: nat, j: nat)
    requires Distinct(t) && i < |InOrder(t)| && j < |InOrder(t)| && InOrder(t)[i] == InOrder(t)[j]
    ensures i == j
  {
    var l := |InOrder(t.left)|;
    assert InOrder(t) == InOrder(t.left) + [t.n] + InOrder(t.right);
    OrderNodes(t.left);
    OrderNodes(t.right);
    assert i < l ==> InOrder(t)[i] == InOrder(t.left)[i] && InOrder(t)[i] in Elements(InOrder(t.left));
    assert j < l ==> InOrder(t)[j] == InOrder(t.left)[j] && InOrder(t)[j] in Elements(InOrder(t.left));
    assert i > l ==> InOrder(t)[i] == InOrder(t.right)[i - l - 1] && InOrder(t)[i] in Elements(InOrder(t.right));
    assert j > l ==> InOrder(t)[j] == InOrder(t.right)[j - l - 1] && InOrder(t)[j] in Elements(InOrder(t.right));
    if i < l && j < l {
      DistinctOrder(t.left, i, j);
    } else if i > l && j > l {
      DistinctOrder(t.right, i - l - 1, j - l - 1);
    }
  }
}
