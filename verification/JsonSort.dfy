/** Sorting the members of an object by key: `sort_list` of apps/cjson/cJSON_Utils.c:483-602, first
    as a function on sequences, then in place on the doubly linked child list. */
module JsonSort {
  import opened Json

  ghost predicate Sorted<T>(s: seq<T>, key: T -> string, cs: bool) {
    forall i, j :: 0 <= i < j < |s| ==> !KeyLess(key(s[j]), key(s[i]), cs)
  }

  /** Each key below the next: the test that leaves a list alone. */
  predicate Rising<T>(s: seq<T>, key: T -> string, cs: bool, i: nat)
    decreases |s| - i
  {
    i + 1 < |s| ==> KeyLess(key(s[i]), key(s[i + 1]), cs) && Rising(s, key, cs, i + 1)
  }

  /** Merging `a[i..]` and `b[j..]`, the second list first where keys are equal. */
  function Merge<T>(a: seq<T>, i: nat, b: seq<T>, j: nat, key: T -> string, cs: bool): seq<T>
    requires i <= |a| && j <= |b|
    decreases |a| - i + |b| - j
  {
    if i == |a| then b[j..]
    else if j == |b| then a[i..]
    else if KeyLess(key(a[i]), key(b[j]), cs) then [a[i]] + Merge(a, i + 1, b, j, key, cs)
    else [b[j]] + Merge(a, i, b, j + 1, key, cs)
  }

  function MergeSort<T>(s: seq<T>, key: T -> string, cs: bool): seq<T>
    decreases |s|
  {
    if |s| <= 1 || Rising(s, key, cs, 0) then s
    else
      var h := (|s| + 1) / 2;
      Merge(MergeSort(s[..h], key, cs), 0, MergeSort(s[h..], key, cs), 0, key, cs)
  }

  // ----- the result is sorted and has the same elements -----

  lemma {:induction false} RisingBelow<T>(s: seq<T>, key: T -> string, cs: bool, i: nat, j: nat)
    requires i < j < |s| && Rising(s, key, cs, i)
    ensures KeyLess(key(s[i]), key(s[j]), cs)
    decreases j
  {
    if i + 1 < j {
      RisingBelow(s, key, cs, i, j - 1);
      RisingFrom(s, key, cs, i, j - 1);
      KeyOrder(key(s[i]), key(s[j - 1]), key(s[j]), cs);
    }
  }

  lemma {:induction false} RisingFrom<T>(s: seq<T>, key: T -> string, cs: bool, i: nat, j: nat)
    requires i <= j < |s| && Rising(s, key, cs, i)
    ensures Rising(s, key, cs, j)
    decreases j - i
  {
    if i < j {
      RisingFrom(s, key, cs, i + 1, j);
    }
  }

  lemma {:induction false} RisingSorted<T>(s: seq<T>, key: T -> string, cs: bool)
    requires Rising(s, key, cs, 0)
    ensures Sorted(s, key, cs)
  {
    forall i, j | 0 <= i < j < |s| ensures !KeyLess(key(s[j]), key(s[i]), cs) {
      RisingFrom(s, key, cs, 0, i);
      RisingBelow(s, key, cs, i, j);
      KeyOrder(key(s[i]), key(s[j]), key(s[i]), cs);
    }
  }

  lemma {:induction false} Suffix<T>(s: seq<T>, i: nat)
    requires i < |s|
    ensures multiset(s[i..]) == multiset{s[i]} + multiset(s[i + 1..])
  {
    assert s[i..] == [s[i]] + s[i + 1..];
  }

  lemma {:induction false} MergeElements<T>(a: seq<T>, i: nat, b: seq<T>, j: nat, key: T -> string, cs: bool)
    requires i <= |a| && j <= |b|
    ensures multiset(Merge(a, i, b, j, key, cs)) == multiset(a[i..]) + multiset(b[j..])
    decreases |a| - i + |b| - j
  {
    if i == |a| || j == |b| {
      assert multiset(a[|a|..]) == multiset{} && multiset(b[|b|..]) == multiset{};
    } else if KeyLess(key(a[i]), key(b[j]), cs) {
      MergeElements(a, i + 1, b, j, key, cs);
      Suffix(a, i);
    } else {
      MergeElements(a, i, b, j + 1, key, cs);
      Suffix(b, j);
    }
  }

  /** Nothing in a merge is below a key that is below nothing in the two lists. */
  lemma {:induction false} MergeAbove<T>(a: seq<T>, i: nat, b: seq<T>, j: nat, key: T -> string, cs: bool, low: string)
    requires i <= |a| && j <= |b|
    requires forall x :: i <= x < |a| ==> !KeyLess(key(a[x]), low, cs)
    requires forall x :: j <= x < |b| ==> !KeyLess(key(b[x]), low, cs)
    ensures forall x :: 0 <= x < |Merge(a, i, b, j, key, cs)| ==> !KeyLess(key(Merge(a, i, b, j, key, cs)[x]), low, cs)
    decreases |a| - i + |b| - j
  {
    if i < |a| && j < |b| {
      if KeyLess(key(a[i]), key(b[j]), cs) {
        MergeAbove(a, i + 1, b, j, key, cs, low);
      } else {
        MergeAbove(a, i, b, j + 1, key, cs, low);
      }
    }
  }

  /** Putting an element that nothing is below in front. */
  lemma {:induction false} SortedCons<T>(e: T, s: seq<T>, key: T -> string, cs: bool)
    requires Sorted(s, key, cs) && forall x :: 0 <= x < |s| ==> !KeyLess(key(s[x]), key(e), cs)
    ensures Sorted([e] + s, key, cs)
  {
  }

  lemma {:induction false} NotLess(a: string, b: string, c: string, cs: bool)
    requires !KeyLess(b, a, cs) && !KeyLess(c, b, cs)
    ensures !KeyLess(c, a, cs)
  {
    KeyOrder(a, b, c, cs);
    KeyOrder(b, c, a, cs);
    KeyOrder(c, a, b, cs);
  }

  lemma {:induction false} MergeSorted<T>(a: seq<T>, i: nat, b: seq<T>, j: nat, key: T -> string, cs: bool)
    requires i <= |a| && j <= |b| && Sorted(a, key, cs) && Sorted(b, key, cs)
    ensures Sorted(Merge(a, i, b, j, key, cs), key, cs)
    decreases |a| - i + |b| - j
  {
    if i < |a| && j < |b| {
      KeyOrder(key(a[i]), key(b[j]), key(a[i]), cs);
      KeyOrder(key(b[j]), key(b[j]), key(a[i]), cs);
      if KeyLess(key(a[i]), key(b[j]), cs) {
        MergeSorted(a, i + 1, b, j, key, cs);
        forall x | j <= x < |b| ensures !KeyLess(key(b[x]), key(a[i]), cs) {
          if x > j {
            NotLess(key(a[i]), key(b[j]), key(b[x]), cs);
          }
        }
        MergeAbove(a, i + 1, b, j, key, cs, key(a[i]));
        SortedCons(a[i], Merge(a, i + 1, b, j, key, cs), key, cs);
      } else {
        MergeSorted(a, i, b, j + 1, key, cs);
        forall x | i <= x < |a| ensures !KeyLess(key(a[x]), key(b[j]), cs) {
          if x > i {
            NotLess(key(b[j]), key(a[i]), key(a[x]), cs);
          }
        }
        MergeAbove(a, i, b, j + 1, key, cs, key(b[j]));
        SortedCons(b[j], Merge(a, i, b, j + 1, key, cs), key, cs);
      }
    }
  }

  /** `sort_list` sorts: the same elements, ordered by key. */
  lemma {:induction false} MergeSortSorts<T>(s: seq<T>, key: T -> string, cs: bool)
    ensures Sorted(MergeSort(s, key, cs), key, cs) && multiset(MergeSort(s, key, cs)) == multiset(s)
    decreases |s|
  {
    if |s| <= 1 {
    } else if Rising(s, key, cs, 0) {
      RisingSorted(s, key, cs);
    } else {
      var h := (|s| + 1) / 2;
      var a, b := MergeSort(s[..h], key, cs), MergeSort(s[h..], key, cs);
      MergeSortSorts(s[..h], key, cs);
      MergeSortSorts(s[h..], key, cs);
      MergeSorted(a, 0, b, 0, key, cs);
      MergeElements(a, 0, b, 0, key, cs);
      assert a[0..] == a && b[0..] == b;
      assert s == s[..h] + s[h..];
    }
  }
}
