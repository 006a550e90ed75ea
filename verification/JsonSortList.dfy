/** `sort_list` on the doubly linked child list itself (apps/cjson/cJSON_Utils.c:483-602): the nodes
    are relinked in place into the order of `JsonSort.MergeSort`.
    A predicate compared with `true` in a contract is proved as one fact, not conjunct by conjunct. */
module JsonSortList {
  import opened Basics
  import opened Json
  import opened JsonSort
  import opened JsonChildren

  /** The names of the items. */
  ghost predicate Named(s: seq<Item>, key: Item -> string)
    reads s`content
  {
    forall x :: x in s ==> x.content.name == Some(key(x))
  }

  /** From position `i` on, neighbours point at each other. */
  ghost predicate Chain(s: seq<Item>, i: nat)
    reads s`next, s`prev
  {
    forall x :: i <= x < |s| - 1 ==> s[x].next == s[x + 1] && s[x + 1].prev == s[x]
  }

  ghost predicate Ends(s: seq<Item>, i: nat)
    reads s`next
  {
    i < |s| ==> s[|s| - 1].next == null
  }

  /** The test for a list that is already sorted. */
  method AlreadyRising(list: Item, ghost s: seq<Item>, ghost key: Item -> string, cs: bool) returns (r: bool)
    requires Chained(s) && Named(s, key) && |s| > 0 && list == s[0]
    ensures r == Rising(s, key, cs, 0)
  {
    var current := list;
    ghost var i := 0;
    while current.next != null && KeyLess(current.content.name.value, current.next.content.name.value, cs)
      invariant i < |s| && current == s[i] && Rising(s, key, cs, 0) == Rising(s, key, cs, i)
      decreases |s| - i
    {
      assert current.next == s[i + 1];
      current := current.next;
      i := i + 1;
    }
    r := current.next == null;
  }

  /** Walking two cursors, one twice as fast. */
  method Middle(list: Item, ghost s: seq<Item>) returns (second: Item?)
    requires Chained(s) && |s| > 0 && list == s[0]
    ensures second == At(s, (|s| + 1) / 2)
  {
    second := list;
    var current: Item? := list;
    ghost var k := 0;
    while current != null
      invariant k <= (|s| + 1) / 2 && second == At(s, k) && current == At(s, 2 * k)
      decreases |s| - k
    {
      assert second == s[k] && second.next == At(s, k + 1);
      second := second.next;
      assert current == s[2 * k] && current.next == At(s, 2 * k + 1);
      current := current.next;
      if current != null {
        current := current.next;
      }
      k := k + 1;
    }
  }

  /** Cutting a list in two before `second`. */
  method Split(second: Item, ghost s: seq<Item>, ghost h: nat)
    requires Chained(s) && 0 < h < |s| && second == s[h]
    modifies s`next, s`prev
    ensures Chained(s[..h]) && Chained(s[h..])
  {
    assert second.prev == s[h - 1];
    second.prev.next := null;
    second.prev := null;
  }

  ghost predicate Apart(s: seq<Item>, i: nat, t: seq<Item>, j: nat) {
    forall x, y :: i <= x < |s| && j <= y < |t| ==> s[x] != t[y]
  }

  /** What the merge loop keeps: `done` is the merged part, `a[i..]` and `b[j..]` are still to come. */
  ghost predicate Merging(done: seq<Item>, a: seq<Item>, i: nat, b: seq<Item>, j: nat)
    reads done`next, done`prev, a`next, a`prev, b`next, b`prev
  {
    && i <= |a| && j <= |b|
    && Chain(done, 0) && Chain(a, i) && Chain(b, j) && Ends(a, i) && Ends(b, j)
    && NoRepeat(done) && NoRepeat(a) && NoRepeat(b)
    && Apart(done, 0, a, i) && Apart(done, 0, b, j) && Apart(a, i, b, j)
  }

  /** Appending the head of a list to the merged part. */
  method Link(tail: Item?, smaller: Item, ghost done: seq<Item>)
    requires Chain(done, 0) && NoRepeat(done + [smaller])
    requires tail == Last(done)
    modifies (if tail == null then {} else {tail})`next, smaller`prev
    ensures Chain(done + [smaller], 0)
    ensures tail != null ==> tail.prev == old(tail.prev)
  {
    if tail != null {
      assert (done + [smaller])[|done| - 1] == tail && (done + [smaller])[|done|] == smaller;
      tail.next := smaller;
      smaller.prev := tail;
    }
  }

  /** Taking the head of one list; the other is `b`. */
  method Take(tail: Item?, smaller: Item, ghost done: seq<Item>, ghost a: seq<Item>, ghost i: nat, ghost b: seq<Item>,
      ghost j: nat)
    requires Merging(done, a, i, b, j) && i < |a| && smaller == a[i]
    requires tail == Last(done)
    modifies (if tail == null then {} else {tail})`next, smaller`prev
    ensures Merging(done + [smaller], a, i + 1, b, j)
    ensures smaller.next == At(a, i + 1)
  {
    Link(tail, smaller, done);
  }

  lemma {:induction false} MergingMirror(done: seq<Item>, a: seq<Item>, i: nat, b: seq<Item>, j: nat)
    requires Merging(done, a, i, b, j)
    ensures Merging(done, b, j, a, i)
  {
  }

  /** Appending the rest of one list when the other is used up. */
  method Finish(tail: Item, rest: Item, ghost done: seq<Item>, ghost a: seq<Item>, ghost i: nat)
    requires i < |a| && rest == a[i] && |done| > 0 && tail == done[|done| - 1]
    requires Chain(done, 0) && Chain(a, i) && Ends(a, i) && NoRepeat(done) && NoRepeat(a) && Apart(done, 0, a, i)
    modifies tail`next, rest`prev
    ensures Chained(done + a[i..])
  {
    tail.next := rest;
    rest.prev := tail;
  }

  /** One turn of the merge loop. */
  method TakeSmaller(first: Item, second: Item, tail: Item?, ghost done: seq<Item>, ghost a: seq<Item>, ghost i: nat,
      ghost b: seq<Item>, ghost j: nat, ghost key: Item -> string, cs: bool)
    returns (smaller: Item, first': Item?, second': Item?, ghost i': nat, ghost j': nat)
    requires Merging(done, a, i, b, j) == true && i < |a| && j < |b| && first == a[i] && second == b[j]
    requires Named([first, second], key)
    requires tail == Last(done)
    modifies (if tail == null then {} else {tail})`next, first`prev, second`prev
    ensures Merging(done + [smaller], a, i', b, j') == true && first' == At(a, i') && second' == At(b, j')
    ensures Merge(a, i, b, j, key, cs) == [smaller] + Merge(a, i', b, j', key, cs)
    ensures smaller in [first, second] && i <= i' && j <= j' && i' + j' == i + j + 1
  {
    first', second', i', j' := first, second, i, j;
    if KeyLess(first.content.name.value, second.content.name.value, cs) {
      smaller := first;
      Take(tail, smaller, done, a, i, b, j);
      first', i' := smaller.next, i + 1;
    } else {
      smaller := second;
      MergingMirror(done, a, i, b, j);
      Take(tail, smaller, done, b, j, a, i);
      MergingMirror(done + [smaller], b, j + 1, a, i);
      second', j' := smaller.next, j + 1;
    }
  }

  /** Merging two sorted lists by relinking. */
  method MergeLists(a0: Item, b0: Item, ghost a: seq<Item>, ghost b: seq<Item>, ghost key: Item -> string, cs: bool)
    returns (result: Item)
    requires Chained(a) && Chained(b) && Named(a, key) && Named(b, key) && Apart(a, 0, b, 0) && |a| > 0 && |b| > 0
    requires a0 == a[0] && b0 == b[0]
    modifies a`next, a`prev, b`next, b`prev
    ensures Chained(Merge(a, 0, b, 0, key, cs)) == true && result == At(Merge(a, 0, b, 0, key, cs), 0)
  {
    var first: Item?, second: Item?, tail: Item?, head: Item? := a0, b0, null, null;
    ghost var i, j, done := 0, 0, [];
    ghost var all := Merge(a, 0, b, 0, key, cs);
    while first != null && second != null
      invariant Merging(done, a, i, b, j) == true && first == At(a, i) && second == At(b, j)
      invariant all == done + Merge(a, i, b, j, key, cs)
      invariant tail == Last(done) && head == At(done, 0)
      invariant i + j == |done| && (i < |a| || j < |b|)
      invariant tail == null || tail in a || tail in b
      decreases |a| - i + |b| - j
    {
      var smaller;
      ghost var rest := Merge(a, i, b, j, key, cs);
      smaller, first, second, i, j := TakeSmaller(first, second, tail, done, a, i, b, j, key, cs);
      Regroup(done, smaller, Merge(a, i, b, j, key, cs), rest);
      if head == null {
        head := smaller;
      }
      tail := smaller;
      done := done + [smaller];
    }
    if first != null {
      Finish(tail, first, done, a, i);
    } else {
      Finish(tail, second, done, b, j);
    }
    result := head;
  }

  lemma {:induction false} Regroup(done: seq<Item>, x: Item, rest: seq<Item>, was: seq<Item>)
    requires was == [x] + rest
    ensures done + was == done + [x] + rest
  {
  }

  /** The sorted nodes are the nodes. */
  lemma {:induction false} SameItems(s: seq<Item>, key: Item -> string, cs: bool)
    ensures |MergeSort(s, key, cs)| == |s|
    ensures forall i :: 0 <= i < |s| ==> MergeSort(s, key, cs)[i] in s
  {
    MergeSortSorts(s, key, cs);
    var t := MergeSort(s, key, cs);
    assert |multiset(t)| == |t| && |multiset(s)| == |s|;
    forall i | 0 <= i < |s| ensures t[i] in s {
      assert t[i] in multiset(t);
    }
  }

  lemma {:induction false} StillApart(p: seq<Item>, q: seq<Item>, key: Item -> string, cs: bool)
    requires Apart(p, 0, q, 0)
    ensures Apart(MergeSort(p, key, cs), 0, q, 0)
    ensures Apart(MergeSort(p, key, cs), 0, MergeSort(q, key, cs), 0)
  {
    SameItems(p, key, cs);
    SameItems(q, key, cs);
  }

  /** Sorting the two halves and merging them. */
  method SortHalves(first: Item, second: Item, ghost p: seq<Item>, ghost q: seq<Item>, ghost key: Item -> string,
      cs: bool)
    returns (result: Item)
    requires Chained(p) && Chained(q) && Named(p, key) && Named(q, key) && Apart(p, 0, q, 0) && |p| > 0 && |q| > 0
    requires first == p[0] && second == q[0]
    modifies p`next, p`prev, q`next, q`prev
    ensures Chained(Merge(MergeSort(p, key, cs), 0, MergeSort(q, key, cs), 0, key, cs)) == true
    ensures result == At(Merge(MergeSort(p, key, cs), 0, MergeSort(q, key, cs), 0, key, cs), 0)
    decreases |p| + |q|, 0
  {
    ghost var sortedP, sortedQ := SortedHalves(p, q, key, cs);
    var first' := SortList(first, p, key, cs);
    assert Chained(q) == true;
    var second' := SortList(second, q, key, cs);
    assert Chained(sortedP) == true;
    result := MergeLists(first', second', sortedP, sortedQ, key, cs);
  }

  lemma {:induction false} SortedHalves(p: seq<Item>, q: seq<Item>, key: Item -> string, cs: bool)
    returns (sortedP: seq<Item>, sortedQ: seq<Item>)
    requires Apart(p, 0, q, 0) && Named(p, key) && Named(q, key)
    ensures sortedP == MergeSort(p, key, cs) && |sortedP| == |p| && Named(sortedP, key)
    ensures (forall i :: 0 <= i < |p| ==> sortedP[i] in p)
    ensures sortedQ == MergeSort(q, key, cs) && |sortedQ| == |q| && Named(sortedQ, key)
    ensures (forall i :: 0 <= i < |q| ==> sortedQ[i] in q)
    ensures Apart(sortedP, 0, q, 0) == true && Apart(sortedP, 0, sortedQ, 0) == true
  {
    SameItems(p, key, cs);
    SameItems(q, key, cs);
    StillApart(p, q, key, cs);
    sortedP, sortedQ := MergeSort(p, key, cs), MergeSort(q, key, cs);
  }

  /** `sort_list`: the nodes of the list, relinked in sorted order with correct interior links. */
  method SortList(list: Item?, ghost s: seq<Item>, ghost key: Item -> string, cs: bool) returns (result: Item?)
    requires Chained(s) && Named(s, key) && list == At(s, 0)
    modifies s`next, s`prev
    ensures Chained(MergeSort(s, key, cs)) == true && result == At(MergeSort(s, key, cs), 0)
    decreases |s|, 1
  {
    if list == null || list.next == null {
      return list;
    }
    var rising := AlreadyRising(list, s, key, cs);
    if rising {
      return list;
    }
    var second := Middle(list, s);
    ghost var h := (|s| + 1) / 2;
    Split(second, s, h);
    result := SortHalves(list, second, s[..h], s[h..], key, cs);
  }
}
