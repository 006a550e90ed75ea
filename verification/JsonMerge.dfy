/** JSON Merge Patch: `merge_patch` of apps/cjson/cJSON_Utils.c:1321-1378 against the function of
    section 2 of RFC 7396. */
module JsonMerge {
  import opened Basics
  import opened Json
  import opened JsonView

  // ----- the function of RFC 7396 -----

  const NULL: Doc := Atom(Null)

  function Base(target: Doc): map<string, Doc> {
    if target.Record? then target.fields else map[]
  }

  /** The value a key has, or anything that is not an object if it has none. */
  function Old(f: map<string, Doc>, k: string): Doc {
    if k in f then f[k] else NULL
  }

  function RfcMerge(target: Doc, patch: Doc): Doc
    decreases patch
  {
    if patch.Record? then
      var f, p := Base(target), patch.fields;
      Record(map k | k in f.Keys + p.Keys && !(k in p && p[k] == NULL) ::
          if k in p then RfcMerge(Old(f, k), p[k]) else f[k])
    else patch
  }

  /** Merging the same patch twice is merging it once. */
  lemma {:induction false} MergeIdempotent(target: Doc, patch: Doc)
    ensures RfcMerge(RfcMerge(target, patch), patch) == RfcMerge(target, patch)
    decreases patch
  {
    if patch.Record? {
      var p := patch.fields;
      var once := RfcMerge(target, patch).fields;
      var twice := RfcMerge(Record(once), patch).fields;
      forall k | k in p && p[k] != NULL ensures k in once && k in twice && twice[k] == once[k] {
        MergeIdempotent(Old(Base(target), k), p[k]);
      }
      assert once.Keys == twice.Keys;
      assert once == twice;
    }
  }

  // ----- merge_patch -----

  /** The target once the first `n` members of a patch have been merged in. */
  ghost predicate Merged(f: map<string, Doc>, base: map<string, Doc>, ms: seq<Member>, n: nat, cs: bool) {
    && n <= |ms|
    && (forall x :: 0 <= x < n ==> MergedMember(f, base, ms[x], cs))
    && (forall k :: (k in f || k in base) && !KeyAmong(ms[..n], k, cs) ==> k in f && k in base && f[k] == base[k])
  }

  ghost predicate MergedMember(f: map<string, Doc>, base: map<string, Doc>, m: Member, cs: bool) {
    var k, v := Fold(m.key, cs), View(m.value, cs);
    if v == NULL then k !in f else k in f && f[k] == RfcMerge(Old(base, k), v)
  }

  lemma {:induction false} AmongMore(ms: seq<Member>, n: nat, k: string, cs: bool)
    requires n < |ms|
    ensures KeyAmong(ms[..n + 1], k, cs) <==> KeyAmong(ms[..n], k, cs) || k == Fold(ms[n].key, cs)
  {
    var less, more := ms[..n], ms[..n + 1];
    assert more == less + [ms[n]];
    if KeyAmong(less, k, cs) {
      var i :| 0 <= i < n && Fold(less[i].key, cs) == k;
      assert more[i] == less[i];
    } else if k == Fold(ms[n].key, cs) {
      assert Fold(more[n].key, cs) == k;
    } else {
      forall i | 0 <= i <= n ensures Fold(more[i].key, cs) != k {
        assert i < n ==> more[i] == less[i];
      }
    }
  }

  lemma {:induction false} MergedNext(f: map<string, Doc>, g: map<string, Doc>, base: map<string, Doc>, ms: seq<Member>,
      n: nat, cs: bool)
    requires Distinct(ms, cs) && n < |ms| && Merged(f, base, ms, n, cs) && MergedMember(g, base, ms[n], cs)
    requires forall k :: k != Fold(ms[n].key, cs) ==> SameAt(f, g, k)
    ensures Merged(g, base, ms, n + 1, cs)
  {
    forall x | 0 <= x < n ensures MergedMember(g, base, ms[x], cs) {
      assert MergedMember(f, base, ms[x], cs) && SameAt(f, g, Fold(ms[x].key, cs));
      assert Fold(ms[x].key, cs) != Fold(ms[n].key, cs);
    }
    forall k | (k in g || k in base) && !KeyAmong(ms[..n + 1], k, cs) ensures k in g && k in base && g[k] == base[k] {
      AmongMore(ms, n, k, cs);
      assert SameAt(f, g, k);
    }
  }

  /** The key of a later member is still as it was. */
  lemma {:induction false} NotYet(f: map<string, Doc>, base: map<string, Doc>, ms: seq<Member>, n: nat, cs: bool)
    requires Distinct(ms, cs) && n < |ms| && Merged(f, base, ms, n, cs)
    ensures Old(f, Fold(ms[n].key, cs)) == Old(base, Fold(ms[n].key, cs))
  {
    forall i | 0 <= i < n ensures Fold(ms[..n][i].key, cs) != Fold(ms[n].key, cs) {
      assert ms[..n][i] == ms[i];
    }
  }

  ghost predicate SameAt(f: map<string, Doc>, g: map<string, Doc>, k: string) {
    (k in f <==> k in g) && (k in f ==> f[k] == g[k])
  }

  lemma {:induction false} SameMap(f: map<string, Doc>, g: map<string, Doc>)
    requires forall k :: SameAt(f, g, k)
    ensures f == g
  {
    forall k ensures k in f <==> k in g {
      assert SameAt(f, g, k);
    }
    forall k | k in f ensures f[k] == g[k] {
      assert SameAt(f, g, k);
    }
  }

  lemma {:induction false} MergedKey(f: map<string, Doc>, target: Doc, ms: seq<Member>, k: string, cs: bool)
    requires Distinct(ms, cs) && Merged(f, Base(target), ms, |ms|, cs)
    ensures SameAt(f, RfcMerge(target, Record(Map(ms, cs))).fields, k)
  {
    assert ms[..|ms|] == ms;
    if k in Map(ms, cs) {
      var i := FromMap(ms, k, cs);
      assert MergedMember(f, Base(target), ms[i], cs);
    } else {
      forall i | 0 <= i < |ms| ensures Fold(ms[i].key, cs) != k {
        InMap(ms, i, cs);
      }
    }
  }

  lemma {:induction false} MergedAll(f: map<string, Doc>, target: Doc, ms: seq<Member>, cs: bool)
    requires Distinct(ms, cs) && Merged(f, Base(target), ms, |ms|, cs)
    ensures Record(f) == RfcMerge(target, Record(Map(ms, cs)))
  {
    var g := RfcMerge(target, Record(Map(ms, cs))).fields;
    forall k ensures SameAt(f, g, k) {
      MergedKey(f, target, ms, k, cs);
    }
    SameMap(f, g);
  }

  /** Taking the member with a key out of an object, if there is one. */
  method DetachMember(ms: seq<Member>, key: string, cs: bool) returns (rest: seq<Member>, taken: Option<Json>)
    requires Keyed(Object(ms), cs)
    ensures Keyed(Object(rest), cs) && Map(rest, cs) == Map(ms, cs) - {Fold(key, cs)}
    ensures taken.Some? <==> Fold(key, cs) in Map(ms, cs)
    ensures taken.Some? ==> Keyed(taken.value, cs) && Map(ms, cs)[Fold(key, cs)] == View(taken.value, cs)
  {
    var i := Find(ms, key, cs);
    FindInMap(ms, key, cs);
    FindFromFirst(ms, key, cs, 0);
    if i < |ms| {
      MapRemove(ms, i, cs);
      rest, taken := Without(ms, i), Some(ms[i].value);
    } else {
      rest, taken := ms, None;
      assert Map(ms, cs) == Map(ms, cs) - {Fold(key, cs)};
    }
  }

  /** What the merge of a target has as its view. */
  function Seen(target: Option<Json>, cs: bool): Doc {
    match target
    case None => NULL
    case Some(j) => View(j, cs)
  }

  /** One member of a patch. */
  method MergeMember(ms: seq<Member>, m: Member, cs: bool) returns (ns: seq<Member>)
    requires Keyed(Object(ms), cs) && Keyed(m.value, cs)
    ensures Keyed(Object(ns), cs) && MergedMember(Map(ns, cs), Map(ms, cs), m, cs)
    ensures forall k :: k != Fold(m.key, cs) ==> SameAt(Map(ms, cs), Map(ns, cs), k)
    decreases m.value, 2
  {
    var rest, taken := DetachMember(ms, m.key, cs);
    if m.value.Null? {
      ns := rest;
    } else {
      var replacement := MergePatch(taken, m.value, cs);
      MapAppend(rest, Member(m.key, replacement), cs);
      ns := rest + [Member(m.key, replacement)];
    }
  }

  /** `merge_patch` computes the function of RFC 7396. */
  method MergePatch(target: Option<Json>, patch: Json, cs: bool) returns (r: Json)
    requires Keyed(patch, cs) && (target.Some? ==> Keyed(target.value, cs))
    ensures Keyed(r, cs) && View(r, cs) == RfcMerge(Seen(target, cs), View(patch, cs))
    decreases patch, 1
  {
    if !patch.Object? {
      return patch;
    }
    var ms := patch.members;
    var cur := if target.Some? && target.value.Object? then target.value.members else [];
    ghost var base := Base(Seen(target, cs));
    var i := 0;
    while i < |ms|
      invariant i <= |ms| && Keyed(Object(cur), cs) && Merged(Map(cur, cs), base, ms, i, cs)
    {
      var next := MergeMember(cur, ms[i], cs);
      NotYet(Map(cur, cs), base, ms, i, cs);
      MergedNext(Map(cur, cs), Map(next, cs), base, ms, i, cs);
      cur := next;
      i := i + 1;
    }
    MergedAll(Map(cur, cs), Seen(target, cs), ms, cs);
    r := Object(cur);
  }
}
