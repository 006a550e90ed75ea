/** What a document says, apart from the order of its members: arrays are sequences, objects are
    maps from folded keys. The two equalities, the patches and the merge patches are all stated on
    this view. */
module JsonView {
  import opened Basics
  import opened Json

  datatype Doc = Atom(leaf: Json) | List(docs: seq<Doc>) | Record(fields: map<string, Doc>)

  function View(j: Json, cs: bool): Doc
    decreases j
  {
    match j
    case Array(items) => List(seq(|items|, i requires 0 <= i < |items| => View(items[i], cs)))
    case Object(ms) => Record(Fields(ms, |ms|, cs))
    case _ => Atom(j)
  }

  /** The first `n` members as a map. */
  function Fields(ms: seq<Member>, n: nat, cs: bool): map<string, Doc>
    requires n <= |ms|
    decreases ms, n
  {
    if n == 0 then map[] else Fields(ms, n - 1, cs)[Fold(ms[n - 1].key, cs) := View(ms[n - 1].value, cs)]
  }

  function Map(ms: seq<Member>, cs: bool): map<string, Doc> {
    Fields(ms, |ms|, cs)
  }

  ghost predicate HoldsMember(f: map<string, Doc>, m: Member, cs: bool) {
    Fold(m.key, cs) in f && f[Fold(m.key, cs)] == View(m.value, cs)
  }

  ghost predicate KeyAmong(ms: seq<Member>, k: string, cs: bool) {
    exists i :: 0 <= i < |ms| && Fold(ms[i].key, cs) == k
  }

  /** `f` holds exactly the members of an object. */
  ghost predicate Holds(f: map<string, Doc>, ms: seq<Member>, cs: bool) {
    && (forall i :: 0 <= i < |ms| ==> HoldsMember(f, ms[i], cs))
    && (forall k :: k in f ==> KeyAmong(ms, k, cs))
  }

  lemma {:induction false} FieldsIn(ms: seq<Member>, n: nat, i: nat, cs: bool)
    requires Distinct(ms, cs) && i < n <= |ms|
    ensures Fold(ms[i].key, cs) in Fields(ms, n, cs) && Fields(ms, n, cs)[Fold(ms[i].key, cs)] == View(ms[i].value, cs)
  {
    if i < n - 1 {
      FieldsIn(ms, n - 1, i, cs);
    }
  }

  lemma {:induction false} FieldsFrom(ms: seq<Member>, n: nat, k: string, cs: bool) returns (i: nat)
    requires n <= |ms| && k in Fields(ms, n, cs)
    ensures i < n && Fold(ms[i].key, cs) == k
  {
    if Fold(ms[n - 1].key, cs) == k {
      i := n - 1;
    } else {
      i := FieldsFrom(ms, n - 1, k, cs);
    }
  }

  lemma {:induction false} InMap(ms: seq<Member>, i: nat, cs: bool)
    requires Distinct(ms, cs) && i < |ms|
    ensures Fold(ms[i].key, cs) in Map(ms, cs) && Map(ms, cs)[Fold(ms[i].key, cs)] == View(ms[i].value, cs)
  {
    FieldsIn(ms, |ms|, i, cs);
  }

  lemma {:induction false} FromMap(ms: seq<Member>, k: string, cs: bool) returns (i: nat)
    requires Distinct(ms, cs) && k in Map(ms, cs)
    ensures i < |ms| && Fold(ms[i].key, cs) == k && Map(ms, cs)[k] == View(ms[i].value, cs)
  {
    i := FieldsFrom(ms, |ms|, k, cs);
    InMap(ms, i, cs);
  }

  lemma {:induction false} MapHolds(ms: seq<Member>, cs: bool)
    requires Distinct(ms, cs)
    ensures Holds(Map(ms, cs), ms, cs)
  {
    forall i | 0 <= i < |ms| ensures HoldsMember(Map(ms, cs), ms[i], cs) {
      InMap(ms, i, cs);
    }
    forall k | k in Map(ms, cs) ensures KeyAmong(ms, k, cs) {
      var i := FromMap(ms, k, cs);
    }
  }

  /** A map that holds the members is the view of the object, whatever their order. */
  lemma {:induction false} HoldsUnique(f: map<string, Doc>, ms: seq<Member>, cs: bool)
    requires Distinct(ms, cs) && Holds(f, ms, cs)
    ensures f == Map(ms, cs)
  {
    var g := Map(ms, cs);
    forall k | k in f ensures k in g && g[k] == f[k] {
      assert KeyAmong(ms, k, cs);
      var i :| 0 <= i < |ms| && Fold(ms[i].key, cs) == k;
      InMap(ms, i, cs);
      assert HoldsMember(f, ms[i], cs);
    }
    forall k | k in g ensures k in f {
      var i := FromMap(ms, k, cs);
      assert HoldsMember(f, ms[i], cs);
    }
  }

  /** Looking a key up in the list and in the map comes to the same. */
  lemma {:induction false} FindInMap(ms: seq<Member>, key: string, cs: bool)
    requires Distinct(ms, cs)
    ensures Find(ms, key, cs) <= |ms|
    ensures Find(ms, key, cs) < |ms| <==> Fold(key, cs) in Map(ms, cs)
    ensures Find(ms, key, cs) < |ms| ==> Map(ms, cs)[Fold(key, cs)] == View(ms[Find(ms, key, cs)].value, cs)
  {
    FindFromFirst(ms, key, cs, 0);
    var i := Find(ms, key, cs);
    if i < |ms| {
      InMap(ms, i, cs);
    } else if Fold(key, cs) in Map(ms, cs) {
      var k := FromMap(ms, Fold(key, cs), cs);
    }
  }

  // ----- edits -----

  lemma {:induction false} FieldsPrefix(ms: seq<Member>, m: Member, n: nat, cs: bool)
    requires n <= |ms|
    ensures Fields(ms + [m], n, cs) == Fields(ms, n, cs)
  {
    if n > 0 {
      FieldsPrefix(ms, m, n - 1, cs);
    }
  }

  lemma {:induction false} AppendKeyed(ms: seq<Member>, m: Member, cs: bool)
    requires Keyed(Object(ms), cs) && Keyed(m.value, cs) && Fold(m.key, cs) !in Map(ms, cs)
    ensures Keyed(Object(ms + [m]), cs)
  {
    forall i | 0 <= i < |ms| ensures Fold(ms[i].key, cs) != Fold(m.key, cs) {
      InMap(ms, i, cs);
    }
  }

  /** Appending a member with a new key. */
  lemma {:induction false} MapAppend(ms: seq<Member>, m: Member, cs: bool)
    requires Keyed(Object(ms), cs) && Keyed(m.value, cs) && Fold(m.key, cs) !in Map(ms, cs)
    ensures Keyed(Object(ms + [m]), cs)
    ensures Map(ms + [m], cs) == Map(ms, cs)[Fold(m.key, cs) := View(m.value, cs)]
  {
    FieldsPrefix(ms, m, |ms|, cs);
    AppendKeyed(ms, m, cs);
  }

  lemma {:induction false} RemoveKeyed(ms: seq<Member>, i: nat, cs: bool)
    requires Keyed(Object(ms), cs) && i < |ms|
    ensures Keyed(Object(Without(ms, i)), cs)
    ensures Distinct(Without(ms, i), cs)
  {
    var r := Without(ms, i);
    forall k, l | 0 <= k < l < |r| ensures Fold(r[k].key, cs) != Fold(r[l].key, cs) {
      assert r[k] == ms[if k < i then k else k + 1] && r[l] == ms[if l < i then l else l + 1];
    }
    forall x | 0 <= x < |r| ensures Keyed(r[x].value, cs) {
      assert r[x] == ms[if x < i then x else x + 1];
    }
  }

  lemma {:induction false} RemoveAmong(ms: seq<Member>, i: nat, k: string, cs: bool)
    requires i < |ms| && KeyAmong(ms, k, cs) && k != Fold(ms[i].key, cs)
    ensures KeyAmong(Without(ms, i), k, cs)
  {
    var y :| 0 <= y < |ms| && Fold(ms[y].key, cs) == k;
    assert Without(ms, i)[if y < i then y else y - 1] == ms[y];
  }

  lemma {:induction false} RemoveHolds(ms: seq<Member>, i: nat, f: map<string, Doc>, cs: bool)
    requires Distinct(ms, cs) && i < |ms| && Holds(f, ms, cs)
    ensures Holds(f - {Fold(ms[i].key, cs)}, Without(ms, i), cs)
  {
    var r, g := Without(ms, i), f - {Fold(ms[i].key, cs)};
    forall k | k in g ensures KeyAmong(r, k, cs) {
      RemoveAmong(ms, i, k, cs);
    }
    forall x | 0 <= x < |r| ensures HoldsMember(g, r[x], cs) {
      var y := if x < i then x else x + 1;
      assert r[x] == ms[y] && HoldsMember(f, ms[y], cs);
      assert Fold(ms[y].key, cs) != Fold(ms[i].key, cs);
    }
  }

  /** Removing a member. */
  lemma {:induction false} MapRemove(ms: seq<Member>, i: nat, cs: bool)
    requires Keyed(Object(ms), cs) && i < |ms|
    ensures Keyed(Object(Without(ms, i)), cs)
    ensures Map(Without(ms, i), cs) == Map(ms, cs) - {Fold(ms[i].key, cs)}
  {
    MapHolds(ms, cs);
    RemoveKeyed(ms, i, cs);
    RemoveHolds(ms, i, Map(ms, cs), cs);
    HoldsUnique(Map(ms, cs) - {Fold(ms[i].key, cs)}, Without(ms, i), cs);
  }

  lemma {:induction false} UpdateHolds(ms: seq<Member>, r: seq<Member>, i: nat, v: Json, f: map<string, Doc>, cs: bool)
    requires Distinct(ms, cs) && i < |ms| && Holds(f, ms, cs) && r == ms[i := Member(ms[i].key, v)]
    ensures Holds(f[Fold(ms[i].key, cs) := View(v, cs)], r, cs)
  {
    var g := f[Fold(ms[i].key, cs) := View(v, cs)];
    forall k | k in g ensures KeyAmong(r, k, cs) {
      if k == Fold(ms[i].key, cs) {
        assert Fold(r[i].key, cs) == k;
      } else {
        assert KeyAmong(ms, k, cs);
        var y :| 0 <= y < |ms| && Fold(ms[y].key, cs) == k;
        assert r[y] == ms[y];
      }
    }
    forall x | 0 <= x < |r| ensures HoldsMember(g, r[x], cs) {
      assert x != i ==> r[x] == ms[x] && HoldsMember(f, ms[x], cs);
    }
  }

  lemma {:induction false} UpdateKeyed(ms: seq<Member>, r: seq<Member>, i: nat, v: Json, cs: bool)
    requires Keyed(Object(ms), cs) && Keyed(v, cs) && i < |ms| && r == ms[i := Member(ms[i].key, v)]
    ensures Keyed(Object(r), cs) && Distinct(r, cs)
  {
    forall k, l | 0 <= k < l < |r| ensures Fold(r[k].key, cs) != Fold(r[l].key, cs) {
      assert r[k].key == ms[k].key && r[l].key == ms[l].key;
    }
  }

  /** Changing the value of a member in place. */
  lemma {:induction false} MapUpdate(ms: seq<Member>, r: seq<Member>, i: nat, v: Json, cs: bool)
    requires Keyed(Object(ms), cs) && Keyed(v, cs) && i < |ms| && r == ms[i := Member(ms[i].key, v)]
    ensures Keyed(Object(r), cs)
    ensures Map(r, cs) == Map(ms, cs)[Fold(ms[i].key, cs) := View(v, cs)]
  {
    MapHolds(ms, cs);
    UpdateKeyed(ms, r, i, v, cs);
    UpdateHolds(ms, r, i, v, Map(ms, cs), cs);
    HoldsUnique(Map(ms, cs)[Fold(ms[i].key, cs) := View(v, cs)], r, cs);
  }

  /** The same members in another order. */
  lemma {:induction false} MapReorder(ms: seq<Member>, ns: seq<Member>, cs: bool)
    requires multiset(ms) == multiset(ns) && Distinct(ms, cs) && Distinct(ns, cs)
    ensures Map(ms, cs) == Map(ns, cs)
  {
    forall x | 0 <= x < |ns| ensures HoldsMember(Map(ms, cs), ns[x], cs) {
      assert ns[x] in multiset(ns);
      var y :| 0 <= y < |ms| && ms[y] == ns[x];
      InMap(ms, y, cs);
    }
    forall k | k in Map(ms, cs) ensures KeyAmong(ns, k, cs) {
      var y := FromMap(ms, k, cs);
      assert ms[y] in multiset(ms);
      var x :| 0 <= x < |ns| && ns[x] == ms[y];
    }
    HoldsUnique(Map(ms, cs), ns, cs);
  }

  // ----- equality up to member order and rounding -----

  function Abs(x: real): real {
    if x < 0.0 then -x else x
  }

  /** `compare_double`: the difference is at most 2^-52 of the larger magnitude. */
  predicate CompareDouble(a: real, b: real) {
    var maxVal := if Abs(a) > Abs(b) then Abs(a) else Abs(b);
    Abs(a - b) * 4503599627370496.0 <= maxVal
  }

  predicate NearAtom(a: Json, b: Json) {
    && SameType(a, b)
    && (a.Number? ==> a.valueint == b.valueint && CompareDouble(a.valuedouble, b.valuedouble))
    && (a.Str? ==> a.text == b.text)
  }

  predicate Near(a: Doc, b: Doc)
    decreases a
  {
    match a
    case Atom(x) => b.Atom? && NearAtom(x, b.leaf)
    case List(xs) => b.List? && |xs| == |b.docs| && forall i :: 0 <= i < |xs| ==> Near(xs[i], b.docs[i])
    case Record(m) => b.Record? && m.Keys == b.fields.Keys && forall k :: k in m ==> Near(m[k], b.fields[k])
  }
}
