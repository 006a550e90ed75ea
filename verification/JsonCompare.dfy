/** The two equalities of documents: `compare_json` (apps/cjson/cJSON_Utils.c:605-690), which walks
    sorted members side by side, and `cJSON_Compare` (apps/cjson/cJSON.c:2977-3100), which looks
    every member up in the other object. */
module JsonCompare {
  import opened Json
  import opened JsonSort
  import opened JsonView

  // ----- sorted members -----

  function MemberKey(m: Member): string {
    m.key
  }

  /** The members of an object after `sort_object`. */
  function SortMembers(ms: seq<Member>, cs: bool): seq<Member> {
    MergeSort(ms, MemberKey, cs)
  }

  predicate Ascending(ms: seq<Member>, cs: bool) {
    forall i, j :: 0 <= i < j < |ms| ==> KeyLess(ms[i].key, ms[j].key, cs)
  }

  lemma {:induction false} TwoPlaces<T>(s: seq<T>, x: T)
    requires multiset(s)[x] >= 2
    ensures exists i, j :: 0 <= i < j < |s| && s[i] == x && s[j] == x
  {
    var n := |s| - 1;
    assert s == s[..n] + [s[n]];
    if multiset(s[..n])[x] >= 2 {
      TwoPlaces(s[..n], x);
      var i, j :| 0 <= i < j < n && s[..n][i] == x && s[..n][j] == x;
      assert s[i] == x && s[j] == x;
    } else {
      assert x in s[..n] && s[n] == x;
      var i :| 0 <= i < n && s[i] == x;
    }
  }

  lemma {:induction false} DistinctReordered(ms: seq<Member>, ns: seq<Member>, cs: bool)
    requires multiset(ms) == multiset(ns) && Distinct(ms, cs)
    ensures Distinct(ns, cs)
  {
    forall i, j | 0 <= i < j < |ns| ensures Fold(ns[i].key, cs) != Fold(ns[j].key, cs) {
      assert ns[i] in multiset(ns) && ns[j] in multiset(ns);
      if ns[i] == ns[j] {
        assert ns == ns[..j] + ns[j..];
        assert ns[i] in ns[..j] && ns[j] in ns[j..];
        TwoPlaces(ms, ns[i]);
        assert false;
      } else {
        var a :| 0 <= a < |ms| && ms[a] == ns[i];
        var b :| 0 <= b < |ms| && ms[b] == ns[j];
        assert a != b;
      }
    }
  }

  /** Sorting distinct members gives them in strictly ascending order and says the same. */
  lemma {:induction false} SortedMembers(ms: seq<Member>, cs: bool)
    requires Keyed(Object(ms), cs)
    ensures Ascending(SortMembers(ms, cs), cs) && Keyed(Object(SortMembers(ms, cs)), cs)
    ensures Map(SortMembers(ms, cs), cs) == Map(ms, cs)
    ensures forall m :: m in SortMembers(ms, cs) <==> m in ms
  {
    var ns := SortMembers(ms, cs);
    MergeSortSorts(ms, MemberKey, cs);
    DistinctReordered(ms, ns, cs);
    MapReorder(ms, ns, cs);
    forall i, j | 0 <= i < j < |ns| ensures KeyLess(ns[i].key, ns[j].key, cs) {
      KeyOrder(ns[i].key, ns[j].key, ns[i].key, cs);
      assert !KeyLess(MemberKey(ns[j]), MemberKey(ns[i]), cs);
    }
    forall m ensures m in ns <==> m in ms {
      assert m in ns <==> m in multiset(ns);
      assert m in ms <==> m in multiset(ms);
    }
    forall i | 0 <= i < |ns| ensures Keyed(ns[i].value, cs) {
      assert ns[i] in ms;
    }
  }

  lemma {:induction false} AscendingDistinct(ms: seq<Member>, cs: bool)
    requires Ascending(ms, cs)
    ensures Distinct(ms, cs)
  {
    forall i, j | 0 <= i < j < |ms| ensures Fold(ms[i].key, cs) != Fold(ms[j].key, cs) {
      KeyOrder(ms[i].key, ms[j].key, ms[i].key, cs);
    }
  }

  /** A key between two neighbours of an ascending list is not in it. */
  lemma {:induction false} Absent(key: string, ms: seq<Member>, j: nat, cs: bool)
    requires Ascending(ms, cs) && j <= |ms|
    requires forall x :: 0 <= x < j ==> KeyLess(ms[x].key, key, cs)
    requires j < |ms| ==> KeyLess(key, ms[j].key, cs)
    ensures Fold(key, cs) !in Map(ms, cs)
  {
    AscendingDistinct(ms, cs);
    forall x | 0 <= x < |ms| ensures Fold(ms[x].key, cs) != Fold(key, cs) {
      KeyOrder(ms[x].key, key, key, cs);
      if j <= x {
        KeyOrder(key, ms[j].key, ms[x].key, cs);
        KeyOrder(key, ms[x].key, key, cs);
      }
    }
    if Fold(key, cs) in Map(ms, cs) {
      var x := FromMap(ms, Fold(key, cs), cs);
    }
  }

  // ----- compare_json -----

  /** Two sorted objects agree so far in keys and values. */
  ghost predicate AgreeTo(a: seq<Member>, b: seq<Member>, n: nat, cs: bool)
    requires n <= |a| && n <= |b|
  {
    forall x :: 0 <= x < n ==>
        Fold(a[x].key, cs) == Fold(b[x].key, cs) && Near(View(a[x].value, cs), View(b[x].value, cs))
  }

  /** The next member of `a` has no counterpart in `b`. */
  lemma {:induction false} NoCounterpart(a: seq<Member>, b: seq<Member>, n: nat, cs: bool)
    requires Ascending(a, cs) && Ascending(b, cs) && n < |a| && n <= |b|
    requires forall x :: 0 <= x < n ==> Fold(a[x].key, cs) == Fold(b[x].key, cs)
    requires n < |b| ==> KeyLess(a[n].key, b[n].key, cs)
    ensures Map(a, cs).Keys != Map(b, cs).Keys
  {
    forall x | 0 <= x < n ensures KeyLess(b[x].key, a[n].key, cs) {
      KeyOrder(a[x].key, b[x].key, a[n].key, cs);
    }
    Absent(a[n].key, b, n, cs);
    AscendingDistinct(a, cs);
    InMap(a, n, cs);
  }

  lemma {:induction false} AllAgree(a: seq<Member>, b: seq<Member>, cs: bool)
    requires Ascending(a, cs) && Ascending(b, cs) && |a| == |b| && AgreeTo(a, b, |a|, cs)
    ensures Near(Record(Map(a, cs)), Record(Map(b, cs)))
  {
    AscendingDistinct(a, cs);
    AscendingDistinct(b, cs);
    var f, g := Map(a, cs), Map(b, cs);
    forall k | k in f ensures k in g && Near(f[k], g[k]) {
      var i := FromMap(a, k, cs);
      InMap(b, i, cs);
    }
    forall k | k in g ensures k in f {
      var i := FromMap(b, k, cs);
      InMap(a, i, cs);
    }
    assert f.Keys == g.Keys;
  }

  lemma {:induction false} ValuesDiffer(a: seq<Member>, b: seq<Member>, n: nat, cs: bool)
    requires Ascending(a, cs) && Ascending(b, cs) && n < |a| && n < |b| && Fold(a[n].key, cs) == Fold(b[n].key, cs)
    requires !Near(View(a[n].value, cs), View(b[n].value, cs))
    ensures !Near(Record(Map(a, cs)), Record(Map(b, cs)))
  {
    AscendingDistinct(a, cs);
    AscendingDistinct(b, cs);
    InMap(a, n, cs);
    InMap(b, n, cs);
  }

  method CompareMembers(a: seq<Member>, b: seq<Member>, cs: bool, ghost whole: Json) returns (r: bool)
    requires Ascending(a, cs) && Ascending(b, cs) && Keyed(Object(a), cs) && Keyed(Object(b), cs)
    requires whole.Object? && forall m :: m in a ==> m in whole.members
    ensures r == Near(Record(Map(a, cs)), Record(Map(b, cs)))
    decreases whole, 0
  {
    var i := 0;
    while i < |a| && i < |b|
      invariant i <= |a| && i <= |b| && AgreeTo(a, b, i, cs)
    {
      KeyOrder(a[i].key, b[i].key, a[i].key, cs);
      if CompareKeys(a[i].key, b[i].key, cs) != 0 {
        if KeyLess(a[i].key, b[i].key, cs) {
          NoCounterpart(a, b, i, cs);
        } else {
          NoCounterpart(b, a, i, cs);
        }
        return false;
      }
      KeysEqual(a[i].key, b[i].key, cs);
      assert a[i] in whole.members;
      var identical := CompareJson(a[i].value, b[i].value, cs);
      if !identical {
        ValuesDiffer(a, b, i, cs);
        return false;
      }
      i := i + 1;
    }
    if i < |a| {
      NoCounterpart(a, b, i, cs);
      return false;
    }
    if i < |b| {
      NoCounterpart(b, a, i, cs);
      return false;
    }
    AllAgree(a, b, cs);
    return true;
  }

  /** `compare_json` decides equality up to member order and rounding. */
  method CompareJson(a: Json, b: Json, cs: bool) returns (r: bool)
    requires Keyed(a, cs) && Keyed(b, cs)
    ensures r == Near(View(a, cs), View(b, cs))
    decreases a, 1
  {
    if !SameType(a, b) {
      return false;
    }
    match a {
      case Number(i, d) =>
        return i == b.valueint && CompareDouble(d, b.valuedouble);
      case Str(t) =>
        return t == b.text;
      case Array(items) =>
        var i := 0;
        while i < |items| && i < |b.items|
          invariant i <= |items| && i <= |b.items|
          invariant forall x :: 0 <= x < i ==> Near(View(items[x], cs), View(b.items[x], cs))
        {
          var identical := CompareJson(items[i], b.items[i], cs);
          if !identical {
            assert View(a, cs).docs[i] == View(items[i], cs) && View(b, cs).docs[i] == View(b.items[i], cs);
            return false;
          }
          i := i + 1;
        }
        return i == |items| && i == |b.items|;
      case Object(ms) =>
        SortedMembers(ms, cs);
        SortedMembers(b.members, cs);
        r := CompareMembers(SortMembers(ms, cs), SortMembers(b.members, cs), cs, a);
      case _ =>
        return true;
    }
  }

  // ----- cJSON_Compare -----

  predicate AlikeAtom(a: Json, b: Json) {
    && SameType(a, b) && !a.Invalid?
    && (a.Number? ==> CompareDouble(a.valuedouble, b.valuedouble))
    && (a.Str? || a.Raw? ==> a.text == b.text)
  }

  /** What `cJSON_Compare` decides: unlike `Near` it ignores `valueint`, compares raw texts and
      finds no invalid item equal to anything. */
  predicate Alike(a: Doc, b: Doc)
    decreases a
  {
    match a
    case Atom(x) => b.Atom? && AlikeAtom(x, b.leaf)
    case List(xs) => b.List? && |xs| == |b.docs| && forall i :: 0 <= i < |xs| ==> Alike(xs[i], b.docs[i])
    case Record(m) => b.Record? && m.Keys == b.fields.Keys && forall k :: k in m ==> Alike(m[k], b.fields[k])
  }

  lemma {:induction false} AlikeSymmetric(a: Doc, b: Doc)
    ensures Alike(a, b) == Alike(b, a)
    decreases a
  {
    match a {
      case Atom(_) =>
      case List(xs) =>
        if b.List? && |xs| == |b.docs| {
          forall i | 0 <= i < |xs| ensures Alike(xs[i], b.docs[i]) == Alike(b.docs[i], xs[i]) {
            AlikeSymmetric(xs[i], b.docs[i]);
          }
        }
      case Record(m) =>
        if b.Record? && m.Keys == b.fields.Keys {
          forall k | k in m ensures Alike(m[k], b.fields[k]) == Alike(b.fields[k], m[k]) {
            AlikeSymmetric(m[k], b.fields[k]);
          }
        }
    }
  }

  /** Each member of `a` has an equal counterpart in `b`: one of the two passes over objects. */
  method Included(a: Json, b: Json, cs: bool) returns (r: bool)
    requires a.Object? && b.Object? && Keyed(a, cs) && Keyed(b, cs)
    ensures r <==> forall k :: k in Map(a.members, cs) ==>
        k in Map(b.members, cs) && Alike(Map(a.members, cs)[k], Map(b.members, cs)[k])
    decreases Depth(a) + Depth(b), 0
  {
    var ms, ns := a.members, b.members;
    ghost var f, g := Map(ms, cs), Map(ns, cs);
    var i := 0;
    while i < |ms|
      invariant i <= |ms|
      invariant forall x :: 0 <= x < i ==>
          Fold(ms[x].key, cs) in g && Alike(View(ms[x].value, cs), g[Fold(ms[x].key, cs)])
    {
      var found := Find(ns, ms[i].key, cs);
      FindInMap(ns, ms[i].key, cs);
      InMap(ms, i, cs);
      if found == |ns| {
        return false;
      }
      DepthMember(a, i);
      DepthMember(b, found);
      var same := Compare(ms[i].value, ns[found].value, cs);
      if !same {
        return false;
      }
      i := i + 1;
    }
    forall k | k in f ensures k in g && Alike(f[k], g[k]) {
      var x := FromMap(ms, k, cs);
    }
    return true;
  }

  lemma {:induction false} IncludedBothWays(f: map<string, Doc>, g: map<string, Doc>)
    requires forall k :: k in f ==> k in g && Alike(f[k], g[k])
    requires forall k :: k in g ==> k in f && Alike(g[k], f[k])
    ensures Alike(Record(f), Record(g))
  {
    assert f.Keys == g.Keys;
  }

  lemma {:induction false} NotIncluded(f: map<string, Doc>, g: map<string, Doc>, k: string)
    requires k in g && !(k in f && Alike(g[k], f[k]))
    ensures !Alike(Record(f), Record(g))
  {
    assert k in g.Keys;
    if k in f {
      AlikeSymmetric(f[k], g[k]);
    }
  }

  /** `cJSON_Compare`. */
  method Compare(a: Json, b: Json, cs: bool) returns (r: bool)
    requires Keyed(a, cs) && Keyed(b, cs)
    ensures r == Alike(View(a, cs), View(b, cs))
    decreases Depth(a) + Depth(b), 2
  {
    if !SameType(a, b) || a.Invalid? {
      return false;
    }
    match a {
      case Number(_, d) =>
        return CompareDouble(d, b.valuedouble);
      case Str(t) =>
        return t == b.text;
      case Raw(t) =>
        return t == b.text;
      case Array(items) =>
        var i := 0;
        while i < |items| && i < |b.items|
          invariant i <= |items| && i <= |b.items|
          invariant forall x :: 0 <= x < i ==> Alike(View(items[x], cs), View(b.items[x], cs))
        {
          DepthItem(a, i);
          DepthItem(b, i);
          var same := Compare(items[i], b.items[i], cs);
          if !same {
            assert View(a, cs).docs[i] == View(items[i], cs) && View(b, cs).docs[i] == View(b.items[i], cs);
            return false;
          }
          i := i + 1;
        }
        return i == |items| && i == |b.items|;
      case Object(_) =>
        r := CompareObjects(a, b, cs);
      case _ =>
        return true;
    }
  }

  method CompareObjects(a: Json, b: Json, cs: bool) returns (r: bool)
    requires a.Object? && b.Object? && Keyed(a, cs) && Keyed(b, cs)
    ensures r == Alike(View(a, cs), View(b, cs))
    decreases Depth(a) + Depth(b), 1
  {
    ghost var f, g := Map(a.members, cs), Map(b.members, cs);
    r := Included(a, b, cs);
    if r {
      r := Included(b, a, cs);
      if r {
        IncludedBothWays(f, g);
      } else {
        ghost var k :| k in g && !(k in f && Alike(g[k], f[k]));
        NotIncluded(f, g, k);
      }
    } else {
      ghost var k :| k in f && !(k in g && Alike(f[k], g[k]));
      NotIncluded(g, f, k);
      AlikeSymmetric(Record(f), Record(g));
    }
  }
}
