/** The intrusive circular list of apps/sysbus/src/list.h: every node points at the head of its list. */
module SysbusList {
  import opened Basics

  /** A node. `entry` is what `list_entry` computes from the address of a node: the structure it is
      embedded in. A node is only ever put on one list, whose name is `home`. */
  class Link<E, H> {
    var head: Link?<E, H>
    var next: Link?<E, H>
    var prev: Link?<E, H>
    var entry: E
    ghost var home: H

    /** `list_init`. */
    constructor (entry: E, ghost home: H)
      ensures Ring([this]) && this.entry == entry && this.home == home
    {
      head, next, prev := this, this, this;
      this.entry, this.home := entry, home;
    }
  }

  /** The nodes of a list in order, its head first. */
  ghost predicate Ring<E, H>(s: seq<Link<E, H>>)
    reads s`head, s`next, s`prev
  {
    && |s| > 0
    && (forall i, j :: 0 <= i < j < |s| ==> s[i] != s[j])
    && (forall i :: 0 <= i < |s| ==> s[i].head == s[0])
    && (forall i :: 0 <= i < |s| - 1 ==> s[i].next == s[i + 1] && s[i + 1].prev == s[i])
    && s[|s| - 1].next == s[0] && s[0].prev == s[|s| - 1]
  }

  lemma {:induction false} First<E, H>(s: seq<Link<E, H>>)
    requires Ring(s)
    ensures s[0].next == if |s| > 1 then s[1] else s[0]
  {
    assert |s| > 1 ==> s[0].next == s[0 + 1];
  }

  /** `list_insert_after` the head: the new node is first. */
  method InsertAfter<E, H>(l: Link<E, H>, n: Link<E, H>, ghost s: seq<Link<E, H>>)
    requires Ring(s) && l == s[0] && n !in s
    modifies s`next, s`prev, n`head, n`next, n`prev
    ensures Ring([l, n] + s[1..])
  {
    First(s);
    l.next.prev := n;
    n.next := l.next;
    l.next := n;
    n.prev := l;
    n.head := l.head;
    ghost var t := [l, n] + s[1..];
    forall i | 0 <= i < |t| - 1 ensures t[i].next == t[i + 1] && t[i + 1].prev == t[i] {
      assert i >= 2 ==> t[i] == s[i - 1] && t[i + 1] == s[i - 1 + 1];
    }
  }

  /** `list_insert_before` the head: the new node is last. */
  method InsertBefore<E, H>(l: Link<E, H>, n: Link<E, H>, ghost s: seq<Link<E, H>>)
    requires Ring(s) && l == s[0] && n !in s
    modifies s`next, s`prev, n`head, n`next, n`prev
    ensures Ring(s + [n])
  {
    l.prev.next := n;
    n.prev := l.prev;
    l.prev := n;
    n.next := l;
    n.head := l.head;
  }

  /** The neighbours of a node. */
  lemma {:induction false} Around<E, H>(s: seq<Link<E, H>>, i: nat)
    requires Ring(s) && 0 < i < |s|
    ensures s[i].prev == s[i - 1] && s[i - 1].next == s[i] && s[i].next == (if i + 1 < |s| then s[i + 1] else s[0])
  {
    assert s[i - 1].next == s[i - 1 + 1];
  }

  lemma {:induction false} Gone<T>(s: seq<T>, i: nat)
    requires i < |s| && forall k, l :: 0 <= k < l < |s| ==> s[k] != s[l]
    ensures s[i] !in Without(s, i)
  {
  }

  /** Taking the node at `i` out of the links of the others. */
  method Unlink<E, H>(n: Link<E, H>, ghost s: seq<Link<E, H>>, ghost i: nat)
    requires Ring(s) && 0 < i < |s| && n == s[i]
    modifies s`next, s`prev
    ensures Ring(Without(s, i))
  {
    Around(s, i);
    n.next.prev := n.prev;
    n.prev.next := n.next;
    ghost var t := Without(s, i);
    forall k | 0 <= k < |t| - 1 ensures t[k].next == t[k + 1] && t[k + 1].prev == t[k] {
      assert k + 1 < i ==> s[k].next == s[k + 1];
      assert k >= i ==> s[k + 1].next == s[k + 1 + 1];
    }
  }

  /** `list_remove` of a node other than the head: the rest stays a list, the node is one of its own. */
  method Remove<E, H>(n: Link<E, H>, ghost s: seq<Link<E, H>>, ghost i: nat)
    requires Ring(s) && 0 < i < |s| && n == s[i]
    modifies s`head, s`next, s`prev
    ensures Ring(Without(s, i)) && Ring([n])
  {
    Unlink(n, s, i);
    Gone(s, i);
    Isolate(n, Without(s, i));
  }

  method Isolate<E, H>(n: Link<E, H>, ghost t: seq<Link<E, H>>)
    requires Ring(t) && n !in t
    modifies n`head, n`next, n`prev
    ensures Ring(t) && Ring([n])
  {
    n.head, n.next, n.prev := n, n, n;
  }

  /** Following `next` from the head decides the order. */
  lemma {:induction false} SameNodes<E, H>(s: seq<Link<E, H>>, t: seq<Link<E, H>>, i: nat)
    requires Ring(s) && Ring(t) && s[0] == t[0] && i < |s| && i < |t|
    ensures s[i] == t[i]
  {
    if i > 0 {
      SameNodes(s, t, i - 1);
      assert s[i - 1].next == s[i - 1 + 1] && t[i - 1].next == t[i - 1 + 1];
    }
  }

  /** Two lists with the same head are the same list. */
  lemma {:induction false} HeadDecides<E, H>(s: seq<Link<E, H>>, t: seq<Link<E, H>>)
    requires Ring(s) && Ring(t) && s[0] == t[0]
    ensures s == t
  {
    NotLonger(s, t);
    NotLonger(t, s);
    forall i | 0 <= i < |s| ensures s[i] == t[i] {
      SameNodes(s, t, i);
    }
  }

  lemma {:induction false} NotLonger<E, H>(s: seq<Link<E, H>>, t: seq<Link<E, H>>)
    requires Ring(s) && Ring(t) && s[0] == t[0]
    ensures |t| <= |s|
  {
    if |s| < |t| {
      SameNodes(s, t, |s| - 1);
    }
  }

  /** `list_contains_node`: equal head fields mean the node is in the list. */
  method ContainsNode<E, H>(l: Link<E, H>, n: Link<E, H>, ghost s: seq<Link<E, H>>, ghost t: seq<Link<E, H>>)
    returns (r: bool)
    requires Ring(s) && l == s[0] && Ring(t) && n in t
    ensures r <==> n in s
  {
    r := n.head == l.head;
    if r {
      HeadDecides(s, t);
    }
  }

  /** `list_isempty`. */
  method IsEmpty<E, H>(l: Link<E, H>, ghost s: seq<Link<E, H>>) returns (r: bool)
    requires Ring(s) && l == s[0]
    ensures r <==> |s| == 1
  {
    First(s);
    r := l.next == l;
  }
}
