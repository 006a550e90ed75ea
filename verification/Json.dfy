/** JSON documents as the cJSON library holds them (apps/cjson/cJSON.h, apps/cjson/cJSON.c):
    trees of items, the members of an object in the order of their child list. A character stands
    for one byte of a C string, so no string holds NUL. */
module Json {
  import opened Basics

  datatype Json =
    | Invalid
    | False
    | True
    | Null
    | Number(valueint: int, valuedouble: real)
    | Str(text: string)
    | Raw(text: string)
    | Array(items: seq<Json>)
    | Object(members: seq<Member>)

  datatype Member = Member(key: string, value: Json)

  /** `type & 0xFF` of two items is the same. */
  predicate SameType(a: Json, b: Json) {
    match a
    case Invalid => b.Invalid?
    case False => b.False?
    case True => b.True?
    case Null => b.Null?
    case Number(_, _) => b.Number?
    case Str(_) => b.Str?
    case Raw(_) => b.Raw?
    case Array(_) => b.Array?
    case Object(_) => b.Object?
  }

  // ----- keys -----

  /** `tolower` in the C locale. */
  function Lower(c: char): char {
    if 'A' <= c <= 'Z' then c + 32 as char else c
  }

  /** The form of a key that a case-sensitive or case-insensitive comparison looks at. */
  function Fold(s: string, caseSensitive: bool): (r: string)
    ensures |r| == |s|
  {
    if caseSensitive then s else seq(|s|, i requires 0 <= i < |s| => Lower(s[i]))
  }

  predicate NoUpper(s: string) {
    forall i :: 0 <= i < |s| ==> !('A' <= s[i] <= 'Z')
  }

  lemma {:induction false} FoldNoUpper(s: string, caseSensitive: bool)
    requires NoUpper(s)
    ensures Fold(s, caseSensitive) == s
  {
  }

  /** `strcmp` from position `i` on. */
  function CompareFrom(a: string, b: string, i: nat): int
    decreases |a| - i
  {
    if i >= |a| || i >= |b| then (if i < |a| then 1 else 0) - (if i < |b| then 1 else 0)
    else if a[i] < b[i] then -1
    else if a[i] > b[i] then 1
    else CompareFrom(a, b, i + 1)
  }

  /** `compare_strings` of two keys. */
  function CompareKeys(a: string, b: string, caseSensitive: bool): int {
    CompareFrom(Fold(a, caseSensitive), Fold(b, caseSensitive), 0)
  }

  lemma {:induction false} CompareEqual(a: string, b: string, i: nat)
    requires i <= |a| && i <= |b| && a[..i] == b[..i]
    ensures CompareFrom(a, b, i) == 0 <==> a == b
    decreases |a| - i
  {
    if i < |a| && i < |b| && a[i] == b[i] {
      assert a[..i + 1] == b[..i + 1];
      CompareEqual(a, b, i + 1);
    } else if i >= |a| && i >= |b| {
      assert a == a[..i] && b == b[..i];
    } else {
      assert a != b;
    }
  }

  lemma {:induction false} CompareAntisymmetric(a: string, b: string, i: nat)
    ensures CompareFrom(a, b, i) == -CompareFrom(b, a, i)
    decreases |a| - i
  {
    if i < |a| && i < |b| && a[i] == b[i] {
      CompareAntisymmetric(a, b, i + 1);
    }
  }

  lemma {:induction false} CompareTransitive(a: string, b: string, c: string, i: nat)
    requires CompareFrom(a, b, i) <= 0 && CompareFrom(b, c, i) < 0
    ensures CompareFrom(a, c, i) < 0
    decreases |a| - i
  {
    if i < |a| && i < |b| && i < |c| && a[i] == b[i] == c[i] {
      CompareTransitive(a, b, c, i + 1);
    }
  }

  /** Keys are the same for a comparison exactly when their folded forms are. */
  lemma {:induction false} KeysEqual(a: string, b: string, caseSensitive: bool)
    ensures CompareKeys(a, b, caseSensitive) == 0 <==> Fold(a, caseSensitive) == Fold(b, caseSensitive)
  {
    CompareEqual(Fold(a, caseSensitive), Fold(b, caseSensitive), 0);
  }

  predicate KeyLess(a: string, b: string, caseSensitive: bool) {
    CompareKeys(a, b, caseSensitive) < 0
  }

  lemma {:induction false} KeyOrder(a: string, b: string, c: string, cs: bool)
    ensures !KeyLess(a, a, cs)
    ensures KeyLess(a, b, cs) ==> Fold(a, cs) != Fold(b, cs) && !KeyLess(b, a, cs)
    ensures KeyLess(a, b, cs) && KeyLess(b, c, cs) ==> KeyLess(a, c, cs)
    ensures KeyLess(a, b, cs) || KeyLess(b, a, cs) || Fold(a, cs) == Fold(b, cs)
    ensures CompareKeys(a, b, cs) > 0 <==> KeyLess(b, a, cs)
    ensures Fold(a, cs) == Fold(b, cs) ==>
      (KeyLess(a, c, cs) <==> KeyLess(b, c, cs)) && (KeyLess(c, a, cs) <==> KeyLess(c, b, cs))
  {
    var x, y, z := Fold(a, cs), Fold(b, cs), Fold(c, cs);
    KeysEqual(a, a, cs);
    KeysEqual(a, b, cs);
    CompareAntisymmetric(x, y, 0);
    if KeyLess(a, b, cs) && KeyLess(b, c, cs) {
      CompareTransitive(x, y, z, 0);
    }
  }

  // ----- looking up members -----

  /** The first member from `i` on whose key matches, or `|ms|`: the loop of `get_object_item`. */
  function FindFrom(ms: seq<Member>, key: string, caseSensitive: bool, i: nat): nat
    decreases |ms| - i
  {
    if i >= |ms| then |ms|
    else if Fold(ms[i].key, caseSensitive) == Fold(key, caseSensitive) then i
    else FindFrom(ms, key, caseSensitive, i + 1)
  }

  function Find(ms: seq<Member>, key: string, caseSensitive: bool): nat {
    FindFrom(ms, key, caseSensitive, 0)
  }

  lemma {:induction false} FindFromFirst(ms: seq<Member>, key: string, cs: bool, i: nat)
    requires i <= |ms|
    ensures i <= FindFrom(ms, key, cs, i) <= |ms|
    ensures FindFrom(ms, key, cs, i) < |ms| ==> Fold(ms[FindFrom(ms, key, cs, i)].key, cs) == Fold(key, cs)
    ensures forall k :: i <= k < FindFrom(ms, key, cs, i) ==> Fold(ms[k].key, cs) != Fold(key, cs)
    decreases |ms| - i
  {
    if i < |ms| && Fold(ms[i].key, cs) != Fold(key, cs) {
      FindFromFirst(ms, key, cs, i + 1);
    }
  }

  /** No two members have the same key. */
  predicate Distinct(ms: seq<Member>, cs: bool) {
    forall i, j :: 0 <= i < j < |ms| ==> Fold(ms[i].key, cs) != Fold(ms[j].key, cs)
  }

  /** Every object of a document has distinct keys. */
  predicate Keyed(j: Json, cs: bool)
    decreases j
  {
    match j
    case Array(items) => forall i :: 0 <= i < |items| ==> Keyed(items[i], cs)
    case Object(ms) => Distinct(ms, cs) && forall i :: 0 <= i < |ms| ==> Keyed(ms[i].value, cs)
    case _ => true
  }

  /** How deep arrays and objects are nested. */
  function Depth(j: Json): nat
    decreases j
  {
    match j
    case Array(items) => 1 + DepthItems(items, |items|)
    case Object(ms) => 1 + DepthMembers(ms, |ms|)
    case _ => 0
  }

  function Max(a: nat, b: nat): nat {
    if a < b then b else a
  }

  function DepthItems(items: seq<Json>, n: nat): nat
    requires n <= |items|
    decreases items, n
  {
    if n == 0 then 0 else Max(DepthItems(items, n - 1), Depth(items[n - 1]))
  }

  function DepthMembers(ms: seq<Member>, n: nat): nat
    requires n <= |ms|
    decreases ms, n
  {
    if n == 0 then 0 else Max(DepthMembers(ms, n - 1), Depth(ms[n - 1].value))
  }

  lemma {:induction false} DepthItemsMax(items: seq<Json>, n: nat, i: nat)
    requires i < n <= |items|
    ensures Depth(items[i]) <= DepthItems(items, n)
  {
    if i < n - 1 {
      DepthItemsMax(items, n - 1, i);
    }
  }

  lemma {:induction false} DepthMembersMax(ms: seq<Member>, n: nat, i: nat)
    requires i < n <= |ms|
    ensures Depth(ms[i].value) <= DepthMembers(ms, n)
  {
    if i < n - 1 {
      DepthMembersMax(ms, n - 1, i);
    }
  }

  lemma {:induction false} DepthItem(j: Json, i: nat)
    requires j.Array? && i < |j.items|
    ensures Depth(j.items[i]) < Depth(j)
  {
    DepthItemsMax(j.items, |j.items|, i);
  }

  lemma {:induction false} DepthMember(j: Json, i: nat)
    requires j.Object? && i < |j.members|
    ensures Depth(j.members[i].value) < Depth(j)
  {
    DepthMembersMax(j.members, |j.members|, i);
  }

  // ----- numbers -----

  const INT_MAX: nat := 0x7FFF_FFFF
  const INT_MIN: int := -0x8000_0000

  /** The `int` nearest to an integer, as parsing and creating numbers set it. */
  function Saturated(n: int): int {
    if n >= INT_MAX then INT_MAX else if n <= INT_MIN then INT_MIN else n
  }
}
