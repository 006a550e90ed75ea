/** `cJSON_Duplicate` (apps/cjson/cJSON.c:2697-2769) on the heap: a new tree of items that says the same.
    A predicate compared with `true` in a contract is proved as one fact, not conjunct by conjunct. */
module JsonDuplicate {
  import opened Json
  import opened JsonChildren

  /** What is copied: everything but the reference flag. */
  function Copied(c: Content): (r: Content)
    ensures !r.isReference && r.kind == c.kind && r.valueint == c.valueint && r.valuedouble == c.valuedouble
    ensures r.valuestring == c.valuestring && r.name == c.name
  {
    c.(isReference := false)
  }

  /** The same content at every place of two trees. */
  ghost predicate Same(t: Tree, u: Tree)
    decreases t
  {
    u.content == Copied(t.content) && |u.kids| == |t.kids| && forall k :: 0 <= k < |t.kids| ==>
        Same(t.kids[k], u.kids[k])
  }

  /** The copy holds the same document. */
  lemma {:induction false} SameSpells(t: Tree, u: Tree, j: Json)
    requires Same(t, u)
    ensures Spells(t, j) <==> Spells(u, j)
    decreases j
  {
    match j {
      case Array(items) =>
        if |t.kids| == |items| {
          forall k | 0 <= k < |items| ensures Spells(t.kids[k], items[k]) <==> Spells(u.kids[k], items[k]) {
            SameSpells(t.kids[k], u.kids[k], items[k]);
          }
        }
      case Object(ms) =>
        if |t.kids| == |ms| {
          forall k | 0 <= k < |ms| ensures SpellsMember(t.kids[k], ms[k]) <==> SpellsMember(u.kids[k], ms[k]) {
            SameSpells(t.kids[k], u.kids[k], ms[k].value);
          }
        }
      case _ =>
    }
  }

  ghost predicate AllSame(originals: seq<Tree>, kids: seq<Tree>) {
    |kids| <= |originals| && forall k :: 0 <= k < |kids| ==> Same(originals[k], kids[k])
  }

  lemma {:induction false} AllSameMore(originals: seq<Tree>, kids: seq<Tree>, u: Tree, all: seq<Tree>)
    requires AllSame(originals, kids) && |kids| < |originals| && Same(originals[|kids|], u) && all == kids + [u]
    ensures AllSame(originals, all)
  {
  }

  lemma {:induction false} SameTop(t: Tree, u: Tree)
    requires u.content == Copied(t.content) && |u.kids| == |t.kids| && AllSame(t.kids, u.kids) == true
    ensures Same(t, u)
  {
  }

  /** What the loop over the children keeps. */
  ghost predicate Stage(copy: Item, last: Item?, t: Tree, world: World, kids: seq<Tree>, w: World)
    reads copy`child, w.Keys, world.Keys, Roots(kids)`next, Roots(kids)`prev
  {
    && Building(last, Roots(kids), w) && copy !in w && copy.child == At(Roots(kids), 0)
    && AllMatch(kids, w) && AllSame(t.kids, kids) && Closed(world, []) && w.Keys !! world.Keys
  }

  /** A new world, away from everything else. */
  ghost predicate Away(v: World, copy: Item, w: World, world: World) {
    copy !in v && v.Keys !! w.Keys && v.Keys !! world.Keys
  }

  /** Walking along a child list. */
  lemma {:induction false} Walk(t: Tree, world: World, i: nat)
    requires Match(t, world) == true && Closed(world, []) == true && i < |t.kids|
    ensures t.kids[i].node in world && t.kids[i].node.next == At(Roots(t.kids), i + 1)
  {
    assert Kept(t.node, world[t.node]);
  }

  /** One more copy at the end of the chain, the first one below `copy`. */
  method LinkCopy(copy: Item, last: Item?, newchild: Item, ghost s: seq<Item>, ghost w: World, ghost world: World)
    requires Chained(s) && last == Last(s) && newchild !in s && copy.child == At(s, 0) && newchild.next == null
    requires copy !in w && Closed(w, s + [newchild])
    requires Closed(world, []) && copy !in world && forall x :: x in s + [newchild] ==> x !in world
    modifies copy`child, newchild`prev, (if last == null then {} else {last})`next
    ensures Chained(s + [newchild]) && copy.child == At(s + [newchild], 0)
    ensures Closed(w, s + [newchild]) && Closed(world, [])
  {
    assert newchild in s + [newchild] && (last != null ==> last in s + [newchild]);
    if last != null {
      last.next := newchild;
      newchild.prev := last;
    } else {
      copy.child := newchild;
    }
  }

  method AddCopy(copy: Item, last: Item?, newchild: Item, ghost s: seq<Item>, ghost w: World, ghost v: World,
      ghost world: World)
    requires Closed(world, []) && copy !in world && (w.Keys + v.Keys) !! world.Keys
    requires Building(last, s, w) && copy !in w && copy.child == At(s, 0) && newchild.next == null && newchild in v
    requires copy !in v
    requires Closed(v, [newchild]) && Single(v) && w.Keys !! v.Keys
    modifies copy`child, newchild`prev, (if last == null then {} else {last})`next
    ensures Building(newchild, s + [newchild], w + v) && copy.child == At(s + [newchild], 0)
    ensures Closed(world, []) == true
  {
    ghost var all := ClosedMore(w, s, v, newchild);
    LinkCopy(copy, last, newchild, s, all, world);
  }

  /** A copied tree becomes one more child. */
  method AddTree(copy: Item, last: Item?, newchild: Item, ghost t: Tree, ghost world: World, ghost kids: seq<Tree>,
      ghost w: World, ghost u: Tree, ghost v: World)
    returns (ghost all: seq<Tree>, ghost w': World)
    requires Stage(copy, last, t, world, kids, w) == true && |kids| < |t.kids| && copy !in world
    requires u.node == newchild && newchild.next == null && Stands(u, v) == true && Same(t.kids[|kids|], u) == true
    requires Away(v, copy, w, world) == true
    modifies copy`child, w.Keys`next, v.Keys`prev
    ensures Stage(copy, newchild, t, world, all, w') == true && |all| == |kids| + 1 && Closed(world, []) == true
    ensures forall x :: x in w'.Keys ==> x in w.Keys || x in v.Keys
  {
    AddCopy(copy, last, newchild, Roots(kids), w, v, world);
    all := MatchAll(kids, w, u, v);
    AllSameMore(t.kids, kids, u, all);
    w' := w + v;
  }

  /** Copying the next child. */
  method CopyNext(copy: Item, last: Item?, child: Item, ghost t: Tree, ghost world: World, ghost kids: seq<Tree>,
      ghost w: World)
    returns (newchild: Item, next: Item?, ghost all: seq<Tree>, ghost w': World)
    requires Stage(copy, last, t, world, kids, w) == true && |kids| < |t.kids| && child == t.kids[|kids|].node
    requires Match(t, world) == true && copy !in world
    modifies copy`child, w.Keys`next
    ensures Stage(copy, newchild, t, world, all, w') == true && |all| == |kids| + 1 && next == At(Roots(t.kids), |all|)
    ensures forall x :: x in w'.Keys ==> x in w.Keys || fresh(x)
    decreases t, 1
  {
    ghost var u, v;
    newchild, u, v := CopyOne(copy, last, child, t, world, kids, w);
    all, w' := AddTree(copy, last, newchild, t, world, kids, w, u, v);
    Walk(t, world, |kids|);
    next := child.next;
  }

  /** A child is copied; what has been copied before stays as it is. */
  method CopyOne(ghost copy: Item, ghost last: Item?, child: Item, ghost t: Tree, ghost world: World,
      ghost kids: seq<Tree>, ghost w: World)
    returns (newchild: Item, ghost u: Tree, ghost v: World)
    requires Stage(copy, last, t, world, kids, w) == true && |kids| < |t.kids| && child == t.kids[|kids|].node
    requires Match(t, world) == true && copy !in world
    ensures Stage(copy, last, t, world, kids, w) == true && fresh(v.Keys) && Away(v, copy, w, world) == true
    ensures u.node == newchild && newchild.next == null && Stands(u, v) == true && Same(t.kids[|kids|], u) == true
    decreases t, 0
  {
    ghost var s := Roots(kids);
    assert child in world && Building(last, s, w) == true;
    newchild, u, v := DuplicateTree(child, t.kids[|kids|], world);
    assert Closed(world, []) == true && Building(last, s, w) == true;
  }

  lemma {:induction false} Start(copy: Item, t: Tree, world: World)
    requires Match(t, world) && Closed(world, []) && copy !in world && copy.child == null
    ensures Stage(copy, null, t, world, [], map[]) && t.node.child == At(Roots(t.kids), 0)
  {
    assert Kept(t.node, world[t.node]);
  }

  /** The children of `copy`, one by one. */
  method CopyChildren(item: Item, copy: Item, ghost t: Tree, ghost world: World)
    returns (last: Item?, ghost kids: seq<Tree>, ghost w: World)
    requires t.node == item && Match(t, world) == true && Closed(world, []) == true && copy !in world
    requires copy.child == null
    modifies copy`child
    ensures Building(last, Roots(kids), w) == true && copy !in w && copy.child == At(Roots(kids), 0)
    ensures copy.content == old(copy.content)
    ensures AllMatch(kids, w) == true && AllSame(t.kids, kids) == true && |kids| == |t.kids| && fresh(w.Keys)
    decreases t, 2
  {
    kids, last, w := [], null, map[];
    var child := item.child;
    Start(copy, t, world);
    while child != null
      invariant |kids| <= |t.kids| && child == At(Roots(t.kids), |kids|)
      invariant Stage(copy, last, t, world, kids, w) == true && fresh(w.Keys)
      decreases |t.kids| - |kids|
    {
      last, child, kids, w := CopyNext(copy, last, child, t, world, kids, w);
    }
  }

  /** The children of `copy` and their list. */
  method CopyBelow(item: Item, copy: Item, ghost t: Tree, ghost world: World) returns (ghost u: Tree, ghost w: World)
    requires t.node == item && Match(t, world) == true && Closed(world, []) == true && copy !in world
    requires copy.child == null && copy.content == Copied(t.content)
    modifies copy`child, copy`items
    ensures u.node == copy && Stands(u, w) == true && Same(t, u) == true
    ensures forall x :: x in w.Keys ==> x == copy || fresh(x)
    decreases t, 3
  {
    var last; ghost var kids, below;
    last, kids, below := CopyChildren(item, copy, t, world);
    u, w := CloseTree(copy, copy.child, last, kids, below);
    SameTop(t, u);
  }

  /** `cJSON_Duplicate` of an item with all that is below it. */
  method DuplicateTree(item: Item, ghost t: Tree, ghost world: World)
    returns (copy: Item, ghost u: Tree, ghost w: World)
    requires t.node == item && Match(t, world) == true && Closed(world, []) == true
    ensures u.node == copy && Stands(u, w) == true && Same(t, u) == true && fresh(w.Keys) && copy.next == null
    ensures copy.prev == null
    decreases t, 4
  {
    assert Kept(item, world[item]);
    copy := new Item(Copied(item.content));
    assert Closed(world, []) == true;
    u, w := CopyBelow(item, copy, t, world);
  }

  /** `cJSON_Duplicate`: nothing for a null pointer, the item alone unless told to recurse. */
  method Duplicate(item: Item?, recurse: bool, ghost t: Tree, ghost world: World)
    returns (copy: Item?, ghost u: Tree, ghost w: World)
    requires item != null ==> t.node == item && Match(t, world) && Closed(world, [])
    ensures copy == null <==> item == null
    ensures copy != null ==> u.node == copy && Stands(u, w) && fresh(w.Keys) && copy.next == null && copy.prev == null
    ensures copy != null ==> Same(if recurse then t else Tree(t.node, t.content, []), u)
  {
    u, w := t, map[];
    if item == null {
      return null, u, w;
    }
    if recurse {
      copy, u, w := DuplicateTree(item, t, world);
      return;
    }
    copy := new Item(Copied(item.content));
    u, w := Tree(copy, copy.content, []), map[copy := Info(copy.content, [])];
  }
}
