/** The red-black trees of apps/msg/rbtree.c: nodes on the heap, the trees they
    spell out, and the five properties the rebalancing code has to keep.
    A predicate compared with `true` in a contract is proved as one fact, not conjunct by conjunct. */
module RbTree {

  /** A node. The C word `__rb_parent_color` packs the parent pointer and the
      colour bit; here they are two fields. */
  class RbNode {
    var parent: RbNode?
    var black: bool
    var left: RbNode?
    var right: RbNode?

    constructor ()
    {
      parent, black, left, right := null, false, null, null;
    }
  }

  class RbRoot {
    var node: RbNode?

    constructor ()
      ensures node == null
    {
      node := null;
    }
  }

  // ----- the tree a heap spells out -----

  datatype Tree = Leaf | Node(left: Tree, n: RbNode, black: bool, right: Tree)

  /** The way from a hole in the tree up to the root. */
  datatype Path =
    | Top
    | GoLeft(up: Path, n: RbNode, black: bool, sibling: Tree)
    | GoRight(up: Path, n: RbNode, black: bool, sibling: Tree)

  ghost function Ptr(t: Tree): RbNode? {
    if t.Leaf? then null else t.n
  }

  ghost function UpPtr(c: Path): RbNode? {
    if c.Top? then null else c.n
  }

  ghost function Nodes(t: Tree): set<RbNode> {
    match t
    case Leaf => {}
    case Node(l, n, _, r) => Nodes(l) + {n} + Nodes(r)
  }

  ghost function PathNodes(c: Path): set<RbNode> {
    if c.Top? then {} else PathNodes(c.up) + {c.n} + Nodes(c.sibling)
  }

  ghost function Depth(c: Path): nat {
    if c.Top? then 0 else 1 + Depth(c.up)
  }

  /** No node occurs twice. */
  ghost predicate Distinct(t: Tree) {
    match t
    case Leaf => true
    case Node(l, n, _, r) =>
      && Distinct(l) && Distinct(r)
      && n !in Nodes(l) && n !in Nodes(r) && Nodes(l) !! Nodes(r)
  }

  ghost predicate DistinctPath(c: Path) {
    c.Top? ||
    ( && DistinctPath(c.up) && Distinct(c.sibling)
      && c.n !in PathNodes(c.up) && c.n !in Nodes(c.sibling)
      && PathNodes(c.up) !! Nodes(c.sibling))
  }

  /** The heap below `Ptr(t)` is exactly `t`, children, colours and parent links. */
  ghost predicate Rep(t: Tree, p: RbNode?)
    reads Nodes(t)
  {
    match t
    case Leaf => true
    case Node(l, n, b, r) =>
      && n.parent == p && n.black == b && n.left == Ptr(l) && n.right == Ptr(r)
      && Rep(l, n) && Rep(r, n)
  }

  /** The heap above the hole is exactly `c`, and the hole holds `hole`. */
  ghost predicate RepPath(c: Path, hole: RbNode?, root: RbRoot)
    reads PathNodes(c), root
  {
    if c.Top? then root.node == hole
    else
      && c.n.parent == UpPtr(c.up) && c.n.black == c.black
      && c.n.left == (if c.GoLeft? then hole else Ptr(c.sibling))
      && c.n.right == (if c.GoLeft? then Ptr(c.sibling) else hole)
      && Rep(c.sibling, c.n)
      && RepPath(c.up, c.n, root)
  }

  /** No node occurs twice in the path and the tree together. */
  ghost predicate Apart(c: Path, t: Tree) {
    Distinct(t) && DistinctPath(c) && Nodes(t) !! PathNodes(c)
  }

  /** The whole heap below `root` is `t` seen from the end of `c`. */
  ghost predicate Zipper(c: Path, t: Tree, root: RbRoot)
    reads PathNodes(c), Nodes(t), root
  {
    Apart(c, t) && Rep(t, UpPtr(c)) && RepPath(c, Ptr(t), root)
  }

  ghost predicate Holds(t: Tree, root: RbRoot)
    reads Nodes(t), root
  {
    Distinct(t) && Rep(t, null) && root.node == Ptr(t)
  }

  ghost function Join(c: Path, t: Tree): Tree
    requires !c.Top?
  {
    if c.GoLeft? then Node(t, c.n, c.black, c.sibling) else Node(c.sibling, c.n, c.black, t)
  }

  ghost function Plug(c: Path, t: Tree): Tree {
    if c.Top? then t else Plug(c.up, Join(c, t))
  }

  // ----- the five properties -----

  ghost predicate IsBlack(t: Tree) {
    t.Leaf? || t.black
  }

  /** Black nodes on the leftmost path. */
  ghost function BlackHeight(t: Tree): nat {
    if t.Leaf? then 0 else BlackHeight(t.left) + if t.black then 1 else 0
  }

  /** Property 5: every path down has the same number of black nodes. */
  ghost predicate Balanced(t: Tree) {
    t.Leaf? || (Balanced(t.left) && Balanced(t.right) && BlackHeight(t.left) == BlackHeight(t.right))
  }

  /** Property 4: both children of a red node are black. */
  ghost predicate NoRedRed(t: Tree) {
    t.Leaf? ||
    ( && NoRedRed(t.left) && NoRedRed(t.right)
      && (!t.black ==> IsBlack(t.left) && IsBlack(t.right)))
  }

  ghost predicate ValidSub(t: Tree) {
    Balanced(t) && NoRedRed(t)
  }

  /** A red-black tree: properties 2, 4 and 5; 1 and 3 hold by construction. */
  ghost predicate RedBlack(t: Tree) {
    ValidSub(t) && IsBlack(t)
  }

  ghost function InOrder(t: Tree): seq<RbNode> {
    if t.Leaf? then [] else InOrder(t.left) + [t.n] + InOrder(t.right)
  }

  ghost function Before(c: Path): seq<RbNode> {
    match c
    case Top => []
    case GoLeft(up, n, b, r) => Before(up)
    case GoRight(up, n, b, l) => Before(up) + InOrder(l) + [n]
  }

  ghost function After(c: Path): seq<RbNode> {
    match c
    case Top => []
    case GoLeft(up, n, b, r) => [n] + InOrder(r) + After(up)
    case GoRight(up, n, b, l) => After(up)
  }

  lemma {:induction false} Regroup<T>(a: seq<T>, b: seq<T>, c: seq<T>, d: seq<T>, e: seq<T>)
    ensures a + (b + c + d) + e == a + b + (c + d + e) && a + (b + c + d) + e == a + b + c + d + e
  {
  }

  lemma {:induction false} InOrderPlug(c: Path, t: Tree)
    ensures InOrder(Plug(c, t)) == Before(c) + InOrder(t) + After(c)
    decreases c
  {
    if c.Top? {
      assert InOrder(Plug(c, t)) == InOrder(t);
    } else {
      InOrderPlug(c.up, Join(c, t));
      if c.GoLeft? {
        Regroup(Before(c.up), InOrder(t), [c.n], InOrder(c.sibling), After(c.up));
      } else {
        Regroup(Before(c.up), InOrder(c.sibling), [c.n], InOrder(t), After(c.up));
      }
    }
  }

  /** A hole of black height `h` leaves every path through `c` balanced. */
  ghost predicate BalancedPath(c: Path, h: nat) {
    c.Top? ||
    ( && Balanced(c.sibling) && BlackHeight(c.sibling) == h
      && BalancedPath(c.up, h + if c.black then 1 else 0))
  }

  ghost predicate BlackAbove(c: Path) {
    !c.Top? && c.black
  }

  /** No red node on the way up has a red parent or a red sibling subtree below it. */
  ghost predicate NoRedRedPath(c: Path) {
    c.Top? ||
    ( && NoRedRed(c.sibling) && NoRedRedPath(c.up)
      && (!c.black ==> IsBlack(c.sibling) && BlackAbove(c.up)))
  }

  ghost predicate ValidPath(c: Path, h: nat) {
    BalancedPath(c, h) && NoRedRedPath(c)
  }

  lemma {:induction false} PlugValid(c: Path, t: Tree)
    requires ValidSub(t) && ValidPath(c, BlackHeight(t))
    requires IsBlack(t) || BlackAbove(c)
    ensures RedBlack(Plug(c, t))
    decreases c
  {
    if !c.Top? {
      PlugValid(c.up, Join(c, t));
    }
  }

  lemma {:induction false} PlugValidInverse(c: Path, t: Tree)
    requires RedBlack(Plug(c, t))
    ensures ValidSub(t) && ValidPath(c, BlackHeight(t)) && (IsBlack(t) || BlackAbove(c))
    decreases c
  {
    if !c.Top? {
      PlugValidInverse(c.up, Join(c, t));
    }
  }

  // ----- moving the focus -----

  lemma {:induction false} ZipperUp(c: Path, t: Tree, root: RbRoot)
    requires Zipper(c, t, root) && !c.Top?
    ensures Zipper(c.up, Join(c, t), root)
    ensures Nodes(Join(c, t)) == Nodes(t) + {c.n} + Nodes(c.sibling)
  {
  }

  lemma {:induction false} ZipperDown(c: Path, t: Tree, root: RbRoot)
    requires !c.Top? && Zipper(c.up, Join(c, t), root)
    ensures Zipper(c, t, root)
  {
  }

  lemma {:induction false} PlugHolds(c: Path, t: Tree, root: RbRoot)
    requires Zipper(c, t, root)
    ensures Holds(Plug(c, t), root)
    ensures Nodes(Plug(c, t)) == Nodes(t) + PathNodes(c)
    decreases c
  {
    if !c.Top? {
      ZipperUp(c, t, root);
      PlugHolds(c.up, Join(c, t), root);
    }
  }

  /** Reading a tree from a hole further up gives the same order. */
  lemma {:induction false} JoinOrder(c: Path, t: Tree)
    requires !c.Top?
    ensures Order(c.up, Join(c, t)) == Order(c, t)
  {
    if c.GoLeft? {
      assert InOrder(Join(c, t)) == InOrder(t) + [c.n] + InOrder(c.sibling);
    } else {
      assert InOrder(Join(c, t)) == InOrder(c.sibling) + [c.n] + InOrder(t);
    }
  }

  ghost function Order(c: Path, t: Tree): seq<RbNode> {
    Before(c) + InOrder(t) + After(c)
  }

  ghost function Elements(s: seq<RbNode>): set<RbNode> {
    set n | n in s
  }

  /** The in-order sequence lists exactly the nodes. */
  lemma {:induction false} OrderNodes(t: Tree)
    ensures Elements(InOrder(t)) == Nodes(t)
  {
    if t.Node? {
      OrderNodes(t.left);
      OrderNodes(t.right);
      assert Elements(InOrder(t)) == Elements(InOrder(t.left)) + {t.n} + Elements(InOrder(t.right));
    }
  }

  lemma {:induction false} AroundNodes(c: Path)
    ensures Elements(Before(c)) + Elements(After(c)) == PathNodes(c)
  {
    if !c.Top? {
      AroundNodes(c.up);
      OrderNodes(c.sibling);
      if c.GoLeft? {
        assert Elements(After(c)) == {c.n} + Elements(InOrder(c.sibling)) + Elements(After(c.up));
      } else {
        assert Elements(Before(c)) == Elements(Before(c.up)) + Elements(InOrder(c.sibling)) + {c.n};
      }
    }
  }

  lemma {:induction false} OrderPathNodes(c: Path, t: Tree)
    ensures Elements(Order(c, t)) == PathNodes(c) + Nodes(t)
  {
    OrderNodes(t);
    AroundNodes(c);
    assert Elements(Order(c, t)) == Elements(Before(c)) + Elements(InOrder(t)) + Elements(After(c));
  }

  /** Two views with the same order have the same nodes. */
  lemma {:induction false} SameOrderSameNodes(c: Path, t: Tree, c': Path, t': Tree)
    requires Order(c, t) == Order(c', t')
    ensures PathNodes(c) + Nodes(t) == PathNodes(c') + Nodes(t')
  {
    OrderPathNodes(c, t);
    OrderPathNodes(c', t');
  }

  /** `c` and `t` together are a red-black tree. */
  ghost predicate Fixed(c: Path, t: Tree) {
    ValidSub(t) && ValidPath(c, BlackHeight(t)) && (IsBlack(t) || BlackAbove(c))
  }

  /** Where a fix-up loop ends. */
  lemma {:induction false} Finished(c: Path, t: Tree, root: RbRoot)
    requires Zipper(c, t, root) && Fixed(c, t)
    ensures Holds(Plug(c, t), root) && RedBlack(Plug(c, t))
    ensures InOrder(Plug(c, t)) == Order(c, t)
  {
    PlugHolds(c, t, root);
    PlugValid(c, t);
    InOrderPlug(c, t);
  }

  // ----- heap steps shared by the two fix-up loops -----

  method ChangeChild(oldNode: RbNode, newNode: RbNode, parent: RbNode?, root: RbRoot, ghost c: Path)
    requires parent == UpPtr(c) && DistinctPath(c) && oldNode !in PathNodes(c)
    requires RepPath(c, oldNode, root)
    modifies root, if parent == null then {} else {parent}
    ensures RepPath(c, newNode, root)
  {
    if parent != null {
      if parent.left == oldNode {
        parent.left := newNode;
      } else {
        parent.right := newNode;
      }
    } else {
      root.node := newNode;
    }
  }

  method RotateSetParents(oldNode: RbNode, newNode: RbNode, root: RbRoot, black: bool, ghost c: Path)
    requires oldNode.parent == UpPtr(c) && DistinctPath(c) && oldNode !in PathNodes(c)
    requires newNode !in PathNodes(c) && newNode != oldNode
    requires RepPath(c, oldNode, root)
    modifies root, oldNode, newNode, PathNodes(c)
    ensures RepPath(c, newNode, root)
    ensures oldNode.left == old(oldNode.left) && oldNode.right == old(oldNode.right)
    ensures newNode.left == old(newNode.left) && newNode.right == old(newNode.right)
    ensures newNode.parent == UpPtr(c) && newNode.black == old(oldNode.black)
    ensures oldNode.parent == newNode && oldNode.black == black
  {
    var parent := oldNode.parent;
    newNode.parent := oldNode.parent;
    newNode.black := oldNode.black;
    oldNode.parent := newNode;
    oldNode.black := black;
    ChangeChild(oldNode, newNode, parent, root, c);
  }

  /** The five parts a rotation moves have no node in common. */
  ghost predicate Parts(high: RbNode, low: RbNode, x: Tree, y: Tree, z: Tree) {
    && Distinct(x) && Distinct(y) && Distinct(z) && high != low
    && high !in Nodes(x) && high !in Nodes(y) && high !in Nodes(z)
    && low !in Nodes(x) && low !in Nodes(y) && low !in Nodes(z)
    && Nodes(x) !! Nodes(y) && Nodes(x) !! Nodes(z) && Nodes(y) !! Nodes(z)
  }

  ghost predicate PartsBelow(c: Path, high: RbNode, low: RbNode, x: Tree, y: Tree, z: Tree) {
    && DistinctPath(c) && high !in PathNodes(c) && low !in PathNodes(c)
    && Nodes(x) !! PathNodes(c) && Nodes(y) !! PathNodes(c) && Nodes(z) !! PathNodes(c)
  }

  lemma {:induction false} PartsOfLeft(c: Path, high: RbNode, b: bool, low: RbNode, b': bool, x: Tree, y: Tree, z: Tree)
    requires Apart(c, Node(x, high, b, Node(y, low, b', z)))
    ensures Parts(high, low, x, y, z) && PartsBelow(c, high, low, x, y, z)
  {
    assert Distinct(Node(y, low, b', z)) && Nodes(Node(y, low, b', z)) == Nodes(y) + {low} + Nodes(z);
  }

  lemma {:induction false} PartsOfRight(c: Path, high: RbNode, b: bool, low: RbNode, b': bool, x: Tree, y: Tree,
      z: Tree)
    requires Apart(c, Node(Node(z, low, b', y), high, b, x))
    ensures Parts(high, low, x, y, z) && PartsBelow(c, high, low, x, y, z)
  {
    assert Distinct(Node(z, low, b', y)) && Nodes(Node(z, low, b', y)) == Nodes(y) + {low} + Nodes(z);
  }

  lemma {:induction false} ApartLeft(c: Path, high: RbNode, b: bool, low: RbNode, b': bool, x: Tree, y: Tree, z: Tree)
    requires Parts(high, low, x, y, z) && PartsBelow(c, high, low, x, y, z)
    ensures Apart(c, Node(Node(x, high, b, y), low, b', z))
  {
    var h := Node(x, high, b, y);
    assert Distinct(h) && Nodes(h) == Nodes(x) + {high} + Nodes(y);
  }

  lemma {:induction false} ApartRight(c: Path, high: RbNode, b: bool, low: RbNode, b': bool, x: Tree, y: Tree, z: Tree)
    requires Parts(high, low, x, y, z) && PartsBelow(c, high, low, x, y, z)
    ensures Apart(c, Node(z, low, b', Node(y, high, b, x)))
  {
    var h := Node(y, high, b, x);
    assert Distinct(h) && Nodes(h) == Nodes(x) + {high} + Nodes(y);
  }

  /** The parts after a left rotation, put together again. */
  lemma {:induction false} AssembleLeft(c: Path, high: RbNode, low: RbNode, x: Tree, y: Tree, z: Tree, root: RbRoot)
    requires Parts(high, low, x, y, z) && PartsBelow(c, high, low, x, y, z)
    requires high.parent == low && high.left == Ptr(x) && high.right == Ptr(y)
    requires low.parent == UpPtr(c) && low.left == high && low.right == Ptr(z)
    requires Rep(x, high) && Rep(y, high) && Rep(z, low) && RepPath(c, low, root)
    ensures Zipper(c, Node(Node(x, high, high.black, y), low, low.black, z), root)
  {
    ApartLeft(c, high, high.black, low, low.black, x, y, z);
    assert Rep(Node(x, high, high.black, y), low);
  }

  lemma {:induction false} AssembleRight(c: Path, high: RbNode, low: RbNode, x: Tree, y: Tree, z: Tree, root: RbRoot)
    requires Parts(high, low, x, y, z) && PartsBelow(c, high, low, x, y, z)
    requires high.parent == low && high.right == Ptr(x) && high.left == Ptr(y)
    requires low.parent == UpPtr(c) && low.right == high && low.left == Ptr(z)
    requires Rep(x, high) && Rep(y, high) && Rep(z, low) && RepPath(c, low, root)
    ensures Zipper(c, Node(z, low, low.black, Node(y, high, high.black, x)), root)
  {
    ApartRight(c, high, high.black, low, low.black, x, y, z);
    assert Rep(Node(y, high, high.black, x), low);
  }

  /** First half of a left rotation: `low`, the right child of `high`, takes `high` as its left
      child and hands over its own left subtree `y`. */
  method ClimbLeft(high: RbNode, low: RbNode, blacken: bool, ghost x: Tree, ghost y: Tree, ghost z: Tree)
    requires Parts(high, low, x, y, z) && (blacken ==> IsBlack(y))
    requires Rep(x, high)
    requires low.left == Ptr(y) && Rep(y, low) && Rep(z, low)
    modifies high`right, low`left, if Ptr(y) == null then {} else {Ptr(y)}
    ensures high.right == Ptr(y) && Rep(x, high) && Rep(y, high)
    ensures low.left == high && Rep(z, low)
  {
    var tmp := low.left;
    high.right := tmp;
    low.left := high;
    if tmp != null {
      tmp.parent, tmp.black := high, blacken || tmp.black;
      assert Rep(y.left, tmp) && Rep(y.right, tmp);
    }
  }

  /** The mirror image of `ClimbLeft`. */
  method ClimbRight(high: RbNode, low: RbNode, blacken: bool, ghost x: Tree, ghost y: Tree, ghost z: Tree)
    requires Parts(high, low, x, y, z) && (blacken ==> IsBlack(y))
    requires Rep(x, high)
    requires low.right == Ptr(y) && Rep(y, low) && Rep(z, low)
    modifies high`left, low`right, if Ptr(y) == null then {} else {Ptr(y)}
    ensures high.left == Ptr(y) && Rep(x, high) && Rep(y, high)
    ensures low.right == high && Rep(z, low)
  {
    var tmp := low.right;
    high.left := tmp;
    low.right := high;
    if tmp != null {
      tmp.parent, tmp.black := high, blacken || tmp.black;
      assert Rep(y.left, tmp) && Rep(y.right, tmp);
    }
  }

  /** `ClimbLeft`, after which `high` becomes a child of `low` with colour `black`. */
  method TwistLeft(high: RbNode, low: RbNode, black: bool, ghost x: Tree, ghost y: Tree, ghost z: Tree)
    requires Parts(high, low, x, y, z) && IsBlack(y)
    requires high.left == Ptr(x) && Rep(x, high)
    requires low.left == Ptr(y) && low.right == Ptr(z) && Rep(y, low) && Rep(z, low)
    modifies high, low`left, if Ptr(y) == null then {} else {Ptr(y)}
    ensures Rep(Node(x, high, black, y), low)
    ensures low.left == high && low.right == Ptr(z) && Rep(z, low)
  {
    ClimbLeft(high, low, true, x, y, z);
    high.parent, high.black := low, black;
  }

  /** The mirror image of `TwistLeft`. */
  method TwistRight(high: RbNode, low: RbNode, black: bool, ghost x: Tree, ghost y: Tree, ghost z: Tree)
    requires Parts(high, low, x, y, z) && IsBlack(y)
    requires high.right == Ptr(x) && Rep(x, high)
    requires low.right == Ptr(y) && low.left == Ptr(z) && Rep(y, low) && Rep(z, low)
    modifies high, low`right, if Ptr(y) == null then {} else {Ptr(y)}
    ensures Rep(Node(y, high, black, x), low)
    ensures low.right == high && low.left == Ptr(z) && Rep(z, low)
  {
    ClimbRight(high, low, true, x, y, z);
    high.parent, high.black := low, black;
  }

  /** `TwistLeft` somewhere below `p`; the other side of `p` and all above it stay as they are. */
  method TwistLeftBelow(high: RbNode, low: RbNode, black: bool, root: RbRoot, ghost x: Tree, ghost y: Tree,
      ghost z: Tree,
                   ghost c: Path, ghost p: RbNode, ghost other: Tree)
    requires Parts(high, low, x, y, z) && IsBlack(y)
    requires high.left == Ptr(x) && Rep(x, high)
    requires low.left == Ptr(y) && low.right == Ptr(z) && Rep(y, low) && Rep(z, low)
    requires Rep(other, p) && high !in Nodes(other) && low !in Nodes(other) && Nodes(y) !! Nodes(other)
    requires RepPath(c, p, root) && high !in PathNodes(c) && low !in PathNodes(c) && Nodes(y) !! PathNodes(c)
    modifies high, low`left, if Ptr(y) == null then {} else {Ptr(y)}
    ensures Rep(Node(x, high, black, y), low)
    ensures low.left == high && low.right == Ptr(z) && Rep(z, low)
    ensures Rep(other, p) && RepPath(c, p, root)
  {
    assert allocated(PathNodes(c)) && allocated(Nodes(other));
    TwistLeft(high, low, black, x, y, z);
  }

  /** `TwistRight` somewhere below `p`; the other side of `p` and all above it stay as they are. */
  method TwistRightBelow(high: RbNode, low: RbNode, black: bool, root: RbRoot, ghost x: Tree, ghost y: Tree,
      ghost z: Tree,
                   ghost c: Path, ghost p: RbNode, ghost other: Tree)
    requires Parts(high, low, x, y, z) && IsBlack(y)
    requires high.right == Ptr(x) && Rep(x, high)
    requires low.right == Ptr(y) && low.left == Ptr(z) && Rep(y, low) && Rep(z, low)
    requires Rep(other, p) && high !in Nodes(other) && low !in Nodes(other) && Nodes(y) !! Nodes(other)
    requires RepPath(c, p, root) && high !in PathNodes(c) && low !in PathNodes(c) && Nodes(y) !! PathNodes(c)
    modifies high, low`right, if Ptr(y) == null then {} else {Ptr(y)}
    ensures Rep(Node(y, high, black, x), low)
    ensures low.right == high && low.left == Ptr(z) && Rep(z, low)
    ensures Rep(other, p) && RepPath(c, p, root)
  {
    assert allocated(PathNodes(c)) && allocated(Nodes(other));
    TwistRight(high, low, black, x, y, z);
  }

  /** `RotateSetParents` with the three subtrees in place. */
  method SetParentsAround(high: RbNode, low: RbNode, root: RbRoot, black: bool, ghost c: Path, ghost x: Tree,
      ghost y: Tree, ghost z: Tree)
    requires Parts(high, low, x, y, z) && PartsBelow(c, high, low, x, y, z)
    requires Rep(x, high) && Rep(y, high) && Rep(z, low) && high.parent == UpPtr(c) && RepPath(c, high, root)
    modifies root, high, low, PathNodes(c)
    ensures Rep(x, high) && Rep(y, high) && Rep(z, low) && RepPath(c, low, root)
    ensures high.left == old(high.left) && high.right == old(high.right) && low.left == old(low.left)
    ensures low.right == old(low.right)
    ensures high.parent == low && high.black == black && low.parent == UpPtr(c) && low.black == old(high.black)
  {
    assert allocated(Nodes(x)) && allocated(Nodes(y)) && allocated(Nodes(z));
    RotateSetParents(high, low, root, black, c);
  }

  /** Left rotation at `high`: `low`, its right child, takes its place and colour. */
  method RelinkLeft(high: RbNode, low: RbNode, root: RbRoot, black: bool, blacken: bool,
                    ghost c: Path, ghost x: Tree, ghost y: Tree, ghost z: Tree)
    requires Parts(high, low, x, y, z) && PartsBelow(c, high, low, x, y, z) && (blacken ==> IsBlack(y))
    requires high.left == Ptr(x) && Rep(x, high)
    requires low.left == Ptr(y) && low.right == Ptr(z) && Rep(y, low) && Rep(z, low)
    requires high.parent == UpPtr(c) && RepPath(c, high, root)
    modifies root, high, low, PathNodes(c), Nodes(y)
    ensures high.parent == low && high.black == black && low.parent == UpPtr(c) && low.black == old(high.black)
    ensures high.left == Ptr(x) && high.right == Ptr(y) && low.left == high && low.right == Ptr(z)
    ensures Rep(x, high) == true && Rep(y, high) == true && Rep(z, low) == true && RepPath(c, low, root) == true
  {
    assert allocated(Nodes(x)) && allocated(Nodes(y)) && allocated(Nodes(z)) && allocated(PathNodes(c));
    ClimbLeft(high, low, blacken, x, y, z);
    assert RepPath(c, high, root) == true;
    SetParentsAround(high, low, root, black, c, x, y, z);
  }

  /** The mirror image of `RelinkLeft`. */
  method RelinkRight(high: RbNode, low: RbNode, root: RbRoot, black: bool, blacken: bool,
                     ghost c: Path, ghost x: Tree, ghost y: Tree, ghost z: Tree)
    requires Parts(high, low, x, y, z) && PartsBelow(c, high, low, x, y, z) && (blacken ==> IsBlack(y))
    requires high.right == Ptr(x) && Rep(x, high)
    requires low.right == Ptr(y) && low.left == Ptr(z) && Rep(y, low) && Rep(z, low)
    requires high.parent == UpPtr(c) && RepPath(c, high, root)
    modifies root, high, low, PathNodes(c), Nodes(y)
    ensures high.parent == low && high.black == black && low.parent == UpPtr(c) && low.black == old(high.black)
    ensures high.right == Ptr(x) && high.left == Ptr(y) && low.right == high && low.left == Ptr(z)
    ensures Rep(x, high) == true && Rep(y, high) == true && Rep(z, low) == true && RepPath(c, low, root) == true
  {
    assert allocated(Nodes(x)) && allocated(Nodes(y)) && allocated(Nodes(z)) && allocated(PathNodes(c));
    ClimbRight(high, low, blacken, x, y, z);
    assert RepPath(c, high, root) == true;
    SetParentsAround(high, low, root, black, c, x, y, z);
  }

  /** `RelinkLeft` with the result put together. */
  method RotateLeft(high: RbNode, low: RbNode, root: RbRoot, black: bool, blacken: bool,
                    ghost c: Path, ghost x: Tree, ghost y: Tree, ghost z: Tree)
    requires Parts(high, low, x, y, z) && PartsBelow(c, high, low, x, y, z) && (blacken ==> IsBlack(y))
    requires high.left == Ptr(x) && Rep(x, high)
    requires low.left == Ptr(y) && low.right == Ptr(z) && Rep(y, low) && Rep(z, low)
    requires high.parent == UpPtr(c) && RepPath(c, high, root)
    modifies root, high, low, PathNodes(c), Nodes(y)
    ensures Zipper(c, Node(Node(x, high, black, y), low, old(high.black), z), root)
  {
    RelinkLeft(high, low, root, black, blacken, c, x, y, z);
    AssembleLeft(c, high, low, x, y, z, root);
  }

  /** The mirror image of `RotateLeft`. */
  method RotateRight(high: RbNode, low: RbNode, root: RbRoot, black: bool, blacken: bool,
                     ghost c: Path, ghost x: Tree, ghost y: Tree, ghost z: Tree)
    requires Parts(high, low, x, y, z) && PartsBelow(c, high, low, x, y, z) && (blacken ==> IsBlack(y))
    requires high.right == Ptr(x) && Rep(x, high)
    requires low.right == Ptr(y) && low.left == Ptr(z) && Rep(y, low) && Rep(z, low)
    requires high.parent == UpPtr(c) && RepPath(c, high, root)
    modifies root, high, low, PathNodes(c), Nodes(y)
    ensures Zipper(c, Node(z, low, old(high.black), Node(y, high, black, x)), root)
  {
    RelinkRight(high, low, root, black, blacken, c, x, y, z);
    AssembleRight(c, high, low, x, y, z, root);
  }
}
