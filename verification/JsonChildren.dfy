/** Items on the heap and their child lists (apps/cjson/cJSON.c:1847-1983, 2183-2335, 2697-2769): a
    doubly linked list in which the `prev` of the first item is the last one, so that appending is
    quick.
    A predicate compared with `true` in a contract is proved as one fact, not conjunct by conjunct. */
module JsonChildren {
  import opened Basics
  import opened Json

  /** What an item says, apart from its place and its children. */
  datatype Content = Content(kind: nat, isReference: bool, valueint: int, valuedouble: real,
      valuestring: Option<string>, name: Option<string>)

  ghost predicate NoRepeat(s: seq<Item>) {
    forall i, j :: 0 <= i < j < |s| ==> s[i] != s[j]
  }

  /** Interior links are mutual and the last `next` is null. */
  ghost predicate Chained(s: seq<Item>)
    reads s`next, s`prev
  {
    && NoRepeat(s)
    && (forall i :: 0 <= i < |s| - 1 ==> s[i].next == s[i + 1] && s[i + 1].prev == s[i])
    && (|s| > 0 ==> s[|s| - 1].next == null)
  }

  /** A child list: besides, the `prev` of the first item is the last one. */
  ghost predicate Linked(s: seq<Item>)
    reads s`next, s`prev
  {
    Chained(s) && (|s| > 0 ==> s[0].prev == s[|s| - 1])
  }

  class Item {
    var next: Item?
    var prev: Item?
    var child: Item?
    var content: Content
    ghost var items: seq<Item> // its children, in order

    /** The child list hangs off this item. */
    ghost predicate Valid()
      reads this`child, this`items, items`next, items`prev
    {
      this !in items && Linked(items) && child == (if items == [] then null else items[0])
    }

    /** `cJSON_New_Item`. */
    constructor (content: Content)
      ensures Valid() && items == [] && this.content == content && next == null && prev == null
    {
      this.content := content;
      next, prev, child, items := null, null, null, [];
    }

    /** `get_array_item`. */
    method GetArrayItem(index: nat) returns (r: Item?)
      requires Valid()
      ensures r == if index < |items| then items[index] else null
    {
      r := child;
      var left := index;
      ghost var i := 0;
      while r != null && left > 0
        invariant i <= |items| && r == (if i < |items| then items[i] else null) && 0 <= left && i + left == index
        decreases left
      {
        r := r.next;
        left, i := left - 1, i + 1;
      }
    }

    /** `add_item_to_array` of a detached item; an item cannot be added to itself. */
    method AddItemToArray(item: Item?) returns (ok: bool)
      requires Valid() && (item != null && item != this ==> item !in items && item.next == null)
      modifies this`child, this`items, if item == null || item == this then {} else {item}, if items == [] then {}
          else {items[0], items[|items| - 1]}
      ensures Valid() && ok == (item != null && item != this)
      ensures items == if item == null || item == this then old(items) else old(items) + [item]
    {
      if item == null || this == item {
        return false;
      }
      if child == null {
        child := item;
        item.prev := item;
        item.next := null;
      } else if child.prev != null {
        child.prev.next := item;
        item.prev := child.prev;
        child.prev := item;
      }
      items := items + [item];
      return true;
    }

    /** `cJSON_InsertItemInArray`: before the item at an index, or at the end. */
    method InsertItemInArray(which: int, item: Item) returns (ok: bool)
      requires Valid() && item !in items && item != this && item.next == null
      modifies this`child, this`items, item, items
      ensures Valid() && ok == (which >= 0)
      ensures items == if which < 0 then old(items) else if which < |old(items)| then old(items)[..which] + [item]
          + old(items)[which..] else old(items) + [item]
    {
      if which < 0 {
        return false;
      }
      var after := GetArrayItem(which);
      if after == null {
        ok := AddItemToArray(item);
        return;
      }
      InsertBefore(after, item, which);
      return true;
    }

    /** Linking an item in before the one at `i`. */
    method InsertBefore(after: Item, item: Item, ghost i: nat)
      requires Valid() && i < |items| && after == items[i] && item !in items && item != this
      modifies this`child, this`items, item, items
      ensures Valid() == true && items == old(items)[..i] + [item] + old(items)[i..]
    {
      Around(i);
      item.next := after;
      item.prev := after.prev;
      after.prev := item;
      if after == child {
        child := item;
      } else {
        item.prev.next := item;
      }
      ghost var before := items;
      items := items[..i] + [item] + items[i..];
      forall k | 0 <= k < |items| - 1 ensures items[k].next == items[k + 1] && items[k + 1].prev == items[k] {
        assert k + 1 < i ==> before[k].next == before[k + 1] && items[k] == before[k] && items[k + 1] == before[k + 1];
        assert k > i ==> before[k - 1].next == before[k] && items[k] == before[k - 1] && items[k + 1] == before[k];
      }
    }

    /** The neighbours of the item at `i`. */
    lemma {:induction false} Around(i: nat)
      requires Valid() && i < |items|
      ensures items[i] == child <==> i == 0
      ensures i > 0 ==> items[i].prev == items[i - 1] && items[i - 1].next == items[i]
      ensures i + 1 < |items| ==> items[i].next == items[i + 1] && items[i + 1].prev == items[i]
      ensures i + 1 == |items| ==> items[i].next == null
    {
      if i > 0 {
        assert items[i - 1].next == items[i - 1 + 1];
      }
    }

    /** `cJSON_DetachItemViaPointer` of the item at `i`. */
    method DetachItemViaPointer(item: Item, ghost i: nat)
      requires Valid() && i < |items| && item == items[i]
      modifies this`child, this`items, items
      ensures Valid() && items == Without(old(items), i) && item.next == null && item.prev == null
    {
      Around(i);
      if item != child {
        item.prev.next := item.next;
      }
      if item.next != null {
        item.next.prev := item.prev;
      }
      if item == child {
        child := item.next;
      } else if item.next == null {
        child.prev := item.prev;
      }
      item.prev := null;
      item.next := null;
      ghost var before := items;
      items := Without(items, i);
      forall k | 0 <= k < |items| - 1 ensures items[k].next == items[k + 1] && items[k + 1].prev == items[k] {
        assert k + 1 < i ==> before[k].next == before[k + 1];
        assert k >= i ==> before[k + 1].next == before[k + 2];
      }
    }

    /** `cJSON_ReplaceItemViaPointer` of the item at `i`. */
    method ReplaceItemViaPointer(item: Item, replacement: Item, ghost i: nat)
      requires Valid() && i < |items| && item == items[i]
      requires (replacement == item || (replacement !in items && replacement != this))
      modifies this`child, this`items, items, replacement
      ensures Valid() && items == old(items)[i := replacement]
      ensures replacement != item ==> item.next == null && item.prev == null
    {
      if replacement == item {
        return;
      }
      Around(i);
      replacement.next := item.next;
      replacement.prev := item.prev;
      if replacement.next != null {
        replacement.next.prev := replacement;
      }
      if child == item {
        if child.prev == child {
          replacement.prev := replacement;
        }
        child := replacement;
      } else {
        if replacement.prev != null {
          replacement.prev.next := replacement;
        }
        if replacement.next == null {
          child.prev := replacement;
        }
      }
      item.next := null;
      item.prev := null;
      ghost var before := items;
      items := items[i := replacement];
      forall k | 0 <= k < |items| - 1 ensures items[k].next == items[k + 1] && items[k + 1].prev == items[k] {
        assert k + 1 < i || k > i ==>
            before[k].next == before[k + 1] && items[k] == before[k] && items[k + 1] == before[k + 1];
      }
    }
  }

  // ----- whole trees of items -----

  /** An item, what it says, and the trees at its children. */
  datatype Tree = Tree(node: Item, content: Content, kids: seq<Tree>)

  /** What an item holds: its content and its children. */
  datatype Info = Info(content: Content, kids: seq<Item>)

  type World = map<Item, Info>

  ghost function Roots(kids: seq<Tree>): (r: seq<Item>)
    ensures |r| == |kids| && forall k :: 0 <= k < |r| ==> r[k] == kids[k].node
  {
    seq(|kids|, k requires 0 <= k < |kids| => kids[k].node)
  }

  /** The tree is made of items of the world. */
  ghost predicate Match(t: Tree, w: World)
    decreases t
  {
    t.node in w && w[t.node] == Info(t.content, Roots(t.kids)) && forall k :: 0 <= k < |t.kids| ==> Match(t.kids[k], w)
  }

  /** Nobody has two parents. */
  ghost predicate Single(w: World) {
    forall x, y, c :: x in w && y in w && c in w[x].kids && c in w[y].kids ==> x == y
  }

  /** The item is as the world has it. */
  ghost predicate Kept(x: Item, info: Info)
    reads x`content, x`child, x`items, info.kids`next, info.kids`prev
  {
    x.content == info.content && x.items == info.kids && x.Valid()
  }

  /** Every item of the world has a proper child list of items of the world, none of them in `tops`. */
  ghost predicate Closed(w: World, tops: seq<Item>)
    reads w.Keys
  {
    forall x :: x in w ==> (forall c :: c in w[x].kids ==> c in w && c !in tops) && Kept(x, w[x])
  }

  /** The tree stands on the heap by itself, with proper child lists all the way down. */
  ghost predicate Stands(t: Tree, w: World)
    reads w.Keys
  {
    Match(t, w) && Closed(w, [t.node]) && Single(w)
  }

  ghost function At(s: seq<Item>, i: nat): Item? {
    if i < |s| then s[i] else null
  }

  ghost function Last(s: seq<Item>): Item? {
    if s == [] then null else s[|s| - 1]
  }

  lemma {:induction false} MatchMore(t: Tree, w: World, all: World)
    requires Match(t, w) && forall x :: x in w ==> x in all && all[x] == w[x]
    ensures Match(t, all)
    decreases t
  {
    forall k | 0 <= k < |t.kids| ensures Match(t.kids[k], all) {
      MatchMore(t.kids[k], w, all);
    }
  }

  // ----- putting a child list together -----

  /** Items chained but not yet closed to a child list, with all that is below them. */
  ghost predicate Building(last: Item?, s: seq<Item>, w: World)
    reads w.Keys, s`next, s`prev
  {
    && (forall x :: x in s ==> x in w) && Closed(w, s) && Single(w) && Chained(s) && last == Last(s)
  }

  ghost predicate AllMatch(kids: seq<Tree>, w: World) {
    forall k :: 0 <= k < |kids| ==> Match(kids[k], w)
  }

  /** One more item at the end of a chain; the child lists of other items stay as they are. */
  method ChainOn(last: Item?, n: Item, ghost s: seq<Item>, ghost w: World, ghost world: World)
    requires Chained(s) && last == Last(s) && n !in s && n.next == null
    requires Closed(w, s + [n]) && Closed(world, []) && forall x :: x in s + [n] ==> x !in world
    modifies n`prev, (if last == null then {} else {last})`next
    ensures Chained(s + [n]) && Closed(w, s + [n]) && Closed(world, [])
  {
    assert n in s + [n] && (last != null ==> last in s + [n]);
    if last != null {
      last.next := n;
      n.prev := last;
    }
  }

  /** Two worlds that share nothing. */
  lemma {:induction false} ClosedMore(w: World, s: seq<Item>, v: World, top: Item) returns (all: World)
    requires Closed(w, s) && Single(w) && Closed(v, [top]) && Single(v) && w.Keys !! v.Keys && top in v
    requires forall x :: x in s ==> x in w
    ensures all == w + v && Closed(all, s + [top]) && Single(all) && top !in s
    ensures forall x :: x in s + [top] ==> x in all
  {
    all := w + v;
  }

  lemma {:induction false} MatchAll(kids: seq<Tree>, w: World, u: Tree, v: World) returns (all: seq<Tree>)
    requires AllMatch(kids, w) && Match(u, v) && w.Keys !! v.Keys
    ensures all == kids + [u] && AllMatch(all, w + v) && Roots(all) == Roots(kids) + [u.node]
  {
    all := kids + [u];
    forall k | 0 <= k < |all| ensures Match(all[k], w + v) {
      if k < |kids| {
        MatchMore(kids[k], w, w + v);
      } else {
        MatchMore(u, v, w + v);
      }
    }
  }

  /** The first child points back at the last, and the list hangs off its parent. */
  method Close(parent: Item, head: Item?, last: Item?, ghost s: seq<Item>, ghost w: World)
    requires parent !in w && Building(last, s, w) && head == At(s, 0)
    modifies parent`child, parent`items, w.Keys`prev
    ensures Closed(w[parent := Info(parent.content, s)], [parent]) && Single(w[parent := Info(parent.content, s)])
  {
    if head != null {
      assert head in s;
      head.prev := last;
    }
    parent.child, parent.items := head, s;
  }

  lemma {:induction false} MatchTop(kids: seq<Tree>, w: World, parent: Item, content: Content) returns (u: Tree)
    requires AllMatch(kids, w) && parent !in w
    ensures u == Tree(parent, content, kids) && Match(u, w[parent := Info(content, Roots(kids))])
  {
    u := Tree(parent, content, kids);
    forall k | 0 <= k < |kids| ensures Match(kids[k], w[parent := Info(content, Roots(kids))]) {
      MatchMore(kids[k], w, w[parent := Info(content, Roots(kids))]);
    }
  }

  /** The trees become the children of `parent`. */
  method CloseTree(parent: Item, head: Item?, last: Item?, ghost kids: seq<Tree>, ghost w: World)
    returns (ghost u: Tree, ghost w': World)
    requires Building(last, Roots(kids), w) == true && AllMatch(kids, w) == true && parent !in w
    requires head == At(Roots(kids), 0)
    modifies parent`child, parent`items, w.Keys`prev
    ensures u == Tree(parent, old(parent.content), kids) && Stands(u, w') == true
    ensures forall x :: x in w'.Keys ==> x in w.Keys || x == parent
    ensures parent.next == old(parent.next) && parent.prev == old(parent.prev)
  {
    Close(parent, head, last, Roots(kids), w);
    u := MatchTop(kids, w, parent, parent.content);
    w' := w[parent := Info(parent.content, Roots(kids))];
  }

  // ----- what a tree of items says -----

  const KIND_INVALID: nat := 0
  const KIND_FALSE: nat := 1
  const KIND_TRUE: nat := 2
  const KIND_NULL: nat := 4
  const KIND_NUMBER: nat := 8
  const KIND_STRING: nat := 16
  const KIND_ARRAY: nat := 32
  const KIND_OBJECT: nat := 64
  const KIND_RAW: nat := 128

  /** The tree of items holds the document. */
  ghost predicate Spells(t: Tree, j: Json)
    decreases j
  {
    match j
    case Invalid => t.content.kind == KIND_INVALID
    case False => t.content.kind == KIND_FALSE
    case True => t.content.kind == KIND_TRUE
    case Null => t.content.kind == KIND_NULL
    case Number(n, d) => t.content.kind == KIND_NUMBER && t.content.valueint == n && t.content.valuedouble == d
    case Str(text) => t.content.kind == KIND_STRING && t.content.valuestring == Some(text)
    case Raw(text) => t.content.kind == KIND_RAW && t.content.valuestring == Some(text)
    case Array(items) => t.content.kind == KIND_ARRAY && |t.kids| == |items| && forall k :: 0 <= k < |items| ==>
        Spells(t.kids[k], items[k])
    case Object(ms) => t.content.kind == KIND_OBJECT && |t.kids| == |ms| && forall k :: 0 <= k < |ms| ==>
        SpellsMember(t.kids[k], ms[k])
  }

  ghost predicate SpellsMember(t: Tree, m: Member)
    decreases m
  {
    t.content.name == Some(m.key) && Spells(t, m.value)
  }
}
