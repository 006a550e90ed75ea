/** Generating merge patches: `generate_merge_patch` of apps/cjson/cJSON_Utils.c:1390-1465, and
    exactly when merging the generated patch leads from one document to the other.
    A predicate compared with `true` in a contract is proved as one fact, not conjunct by conjunct. */
module JsonMergeDiff {
  import opened Basics
  import opened Json
  import opened JsonView
  import opened JsonCompare
  import opened JsonDiff
  import opened JsonMerge

  // ----- the patch as a function of the two views -----

  /** What the patch of two objects has at a key. */
  function Entry(a: Doc, b: Doc, k: string): Option<Doc>
    requires a.Record? && b.Record?
    decreases b, 0
  {
    if k !in b.fields then (if k in a.fields then Some(NULL) else None)
    else if k !in a.fields then Some(b.fields[k])
    else if Near(a.fields[k], b.fields[k]) then None
    else Gen(a.fields[k], b.fields[k])
  }

  function Entries(a: Doc, b: Doc): map<string, Doc>
    requires a.Record? && b.Record?
    decreases b, 1
  {
    map k | k in a.fields.Keys + b.fields.Keys && Entry(a, b, k).Some? :: Entry(a, b, k).value
  }

  /** The patch, or nothing if no member of two objects has changed. */
  function Gen(a: Doc, b: Doc): Option<Doc>
    decreases b, 2
  {
    if !a.Record? || !b.Record? then Some(b)
    else if Entries(a, b) == map[] then None
    else Some(Record(Entries(a, b)))
  }

  /** Nothing is generated for two objects exactly when they are equal. */
  lemma {:induction false} GenNone(a: Doc, b: Doc)
    requires a.Record? && b.Record?
    ensures Gen(a, b).None? <==> Near(a, b)
    decreases b
  {
    var f, g := a.fields, b.fields;
    forall k | k in f.Keys + g.Keys ensures Entry(a, b, k).None? <==> k in f && k in g && Near(f[k], g[k]) {
      if k in f && k in g && f[k].Record? && g[k].Record? {
        GenNone(f[k], g[k]);
      }
    }
    if Near(a, b) {
      assert Entries(a, b) == map[];
    } else {
      var k :| k in f.Keys + g.Keys && !(k in f && k in g && Near(f[k], g[k]));
      assert k in Entries(a, b);
    }
  }

  /** The target once the generated patch has been merged into it. */
  function Result(a: Doc, b: Doc): Doc {
    match Gen(a, b)
    case None => a
    case Some(p) => RfcMerge(a, p)
  }

  predicate Kept(a: Doc, b: Doc, k: string)
    requires b.Record? && k in b.fields
  {
    k in Base(a) && Near(Base(a)[k], b.fields[k])
  }

  /** A merge patch cannot set a member to null, so every member that changes, and every member
      below it reached through objects, must not be null. */
  predicate Expressible(a: Doc, b: Doc)
    decreases b
  {
    b.Record? ==> forall k :: k in b.fields ==>
        Kept(a, b, k) || (b.fields[k] != NULL && Expressible(Old(Base(a), k), b.fields[k]))
  }

  /** What a key has in the result. */
  ghost predicate AtKey(r: map<string, Doc>, a: Doc, b: Doc, k: string)
    requires b.Record?
  {
    if k !in b.fields then k !in r
    else if Kept(a, b, k) then k in r && r[k] == Base(a)[k]
    else if b.fields[k] == NULL then k !in r
    else k in r && r[k] == Result(Old(Base(a), k), b.fields[k])
  }

  lemma {:induction false} ResultKey(a: Doc, b: Doc, k: string)
    requires b.Record? && !(a.Record? && Near(a, b))
    ensures Result(a, b).Record? && AtKey(Result(a, b).fields, a, b, k)
  {
    if a.Record? {
      GenNone(a, b);
      var p := Entries(a, b);
      assert k in p <==> k in a.fields.Keys + b.fields.Keys && Entry(a, b, k).Some?;
      MergeKey(a, p, k);
      if k in b.fields && k !in a.fields {
        assert Gen(NULL, b.fields[k]) == Some(b.fields[k]);
      } else if k in b.fields && !Near(a.fields[k], b.fields[k]) {
        GenSome(a.fields[k], b.fields[k]);
      }
    }
  }

  lemma {:induction false} MergeKey(a: Doc, p: map<string, Doc>, k: string)
    ensures var r := RfcMerge(a, Record(p)).fields;
      if k in p then (if p[k] == NULL then k !in r else k in r && r[k] == RfcMerge(Old(Base(a), k), p[k]))
      else (k in r <==> k in Base(a)) && (k in r ==> r[k] == Base(a)[k])
  {
  }

  lemma {:induction false} GenSome(a: Doc, b: Doc)
    requires !Near(a, b)
    ensures Gen(a, b).Some? && (Gen(a, b).value == NULL <==> b == NULL)
  {
    if a.Record? && b.Record? {
      GenNone(a, b);
    }
  }

  lemma {:induction false} NearBase(a: Doc, b: Doc)
    requires a.Record? && b.Record? && Near(a, b)
    ensures Result(a, b) == a && Expressible(a, b)
  {
    GenNone(a, b);
  }

  /** Merging the generated patch gives the second document exactly when it is expressible. */
  lemma {:induction false} GeneratedExactly(a: Doc, b: Doc)
    ensures Near(Result(a, b), b) <==> Expressible(a, b)
    decreases b
  {
    if !b.Record? {
      NearReflexive(b);
    } else if a.Record? && Near(a, b) {
      NearBase(a, b);
    } else {
      var r, g := Base(Result(a, b)), b.fields;
      forall k ensures k in r ==> k in g {
        ResultKey(a, b, k);
      }
      forall k | k in g
        ensures k in r && Near(r[k], g[k]) <==> Kept(a, b, k) || (g[k] != NULL && Expressible(Old(Base(a), k), g[k]))
      {
        ResultKey(a, b, k);
        GeneratedExactly(Old(Base(a), k), g[k]);
      }
      ResultKey(a, b, "");
      NearByKey(r, g);
    }
  }

  /** {"a": null} cannot be reached from {}: the generated patch is {"a": null} too, and leaves {} as it is. */
  lemma {:induction false} NullCannotBeSet()
    ensures var a, b := View(Object([]), true), View(Object([Member("a", Null)]), true);
      Gen(a, b) == Some(b) && RfcMerge(a, b) == a && !Near(a, b) && !Expressible(a, b)
  {
    var a, b, ms := Record(map[]), Record(map["a" := NULL]), [Member("a", Null)];
    assert Fields(ms, 1, true) == Fields(ms, 0, true)["a" := NULL];
    assert View(Object([]), true) == a && View(Object(ms), true) == b;
    assert "a" in b.fields && "a" !in a.fields;
    assert Entry(a, b, "a") == Some(NULL);
    assert Entries(a, b) == b.fields;
    var r := RfcMerge(a, b).fields;
    forall k ensures k !in r {
      MergeKey(a, b.fields, k);
    }
  }

  lemma {:induction false} NearByKey(r: map<string, Doc>, g: map<string, Doc>)
    requires forall k :: k in r ==> k in g
    ensures Near(Record(r), Record(g)) <==> forall k :: k in g ==> k in r && Near(r[k], g[k])
  {
    if forall k :: k in g ==> k in r && Near(r[k], g[k]) {
      assert r.Keys == g.Keys;
    } else {
      var k :| k in g && !(k in r && Near(r[k], g[k]));
      assert k in g.Keys;
    }
  }

  /** No null member can be reached through objects. */
  predicate NullFree(b: Doc)
    decreases b
  {
    b.Record? ==> forall k :: k in b.fields ==> b.fields[k] != NULL && NullFree(b.fields[k])
  }

  /** Such a document can be reached from anywhere, and only such a one can. */
  lemma {:induction false} NullFreeExpressible(a: Doc, b: Doc)
    ensures NullFree(b) ==> Expressible(a, b)
    ensures !a.Record? ==> (NullFree(b) <==> Expressible(a, b))
    decreases b
  {
    if b.Record? {
      forall k | k in b.fields
        ensures NullFree(b.fields[k]) ==> Expressible(Old(Base(a), k), b.fields[k])
        ensures !a.Record? ==> (NullFree(b.fields[k]) <==> Expressible(Old(Base(a), k), b.fields[k]))
      {
        NullFreeExpressible(Old(Base(a), k), b.fields[k]);
      }
    }
  }

  // ----- generate_merge_patch -----

  /** Distinct keys without upper case: the generator walks sorted members with `strcmp` whatever the
      sort did, and below the top it always ignores case. */
  predicate LowerKeys(j: Json)
    decreases j
  {
    match j
    case Array(items) => forall i :: 0 <= i < |items| ==> LowerKeys(items[i])
    case Object(ms) => Distinct(ms, true) && forall i :: 0 <= i < |ms| ==> NoUpper(ms[i].key) && LowerKeys(ms[i].value)
    case _ => true
  }

  /** On such documents case does not matter. */
  lemma {:induction false} LowerView(j: Json, cs: bool)
    requires LowerKeys(j)
    ensures Keyed(j, cs) && View(j, cs) == View(j, true)
    decreases j, 1
  {
    match j {
      case Array(items) =>
        forall i | 0 <= i < |items| ensures Keyed(items[i], cs) && View(items[i], cs) == View(items[i], true) {
          LowerView(items[i], cs);
        }
        assert View(j, cs).docs == View(j, true).docs;
      case Object(ms) =>
        forall i | 0 <= i < |ms| ensures Keyed(ms[i].value, cs) && Fold(ms[i].key, cs) == ms[i].key {
          LowerView(ms[i].value, cs);
          FoldNoUpper(ms[i].key, cs);
        }
        LowerFields(ms, |ms|, cs, j);
      case _ =>
    }
  }

  lemma {:induction false} LowerFields(ms: seq<Member>, n: nat, cs: bool, whole: Json)
    requires whole == Object(ms) && LowerKeys(whole) && n <= |ms|
    ensures Fields(ms, n, cs) == Fields(ms, n, true)
    decreases whole, 0, n
  {
    if n > 0 {
      LowerFields(ms, n - 1, cs, whole);
      LowerView(ms[n - 1].value, cs);
      FoldNoUpper(ms[n - 1].key, cs);
    }
  }

  /** Sorting the members of such an object, with or without regard to case. */
  lemma {:induction false} LowerSorted(ms: seq<Member>, cs: bool)
    requires LowerKeys(Object(ms))
    ensures var ns := SortMembers(ms, cs);
      LowerKeys(Object(ns)) && Ascending(ns, true) && Map(ns, true) == Map(ms, true) && forall m :: m in ns ==> m in ms
  {
    LowerView(Object(ms), cs);
    SortedMembers(ms, cs);
    var ns := SortMembers(ms, cs);
    forall i | 0 <= i < |ns| ensures NoUpper(ns[i].key) && LowerKeys(ns[i].value) && Fold(ns[i].key, cs) == ns[i].key {
      assert ns[i] in ms;
      FoldNoUpper(ns[i].key, cs);
    }
    forall i, j | 0 <= i < j < |ns| ensures KeyLess(ns[i].key, ns[j].key, true) {
      assert KeyLess(ns[i].key, ns[j].key, cs);
    }
    AscendingDistinct(ns, true);
    LowerView(Object(ns), cs);
  }

  ghost predicate Behind(fs: seq<Member>, i: nat, ts: seq<Member>, j: nat, k: string) {
    KeyIn(fs, 0, i, k, true) || KeyIn(ts, 0, j, k, true)
  }

  /** The patch so far: the entries of the keys behind the two cursors. */
  ghost predicate Collected(out: seq<Member>, a: Doc, b: Doc, fs: seq<Member>, i: nat, ts: seq<Member>, j: nat) {
    && a.Record? && b.Record? && i <= |fs| && j <= |ts|
    && LowerKeys(Object(out))
    && (forall k :: EntryAt(Map(out, true), a, b, Behind(fs, i, ts, j, k), k))
  }

  ghost predicate EntryAt(f: map<string, Doc>, a: Doc, b: Doc, behind: bool, k: string)
    requires a.Record? && b.Record?
  {
    (k in f <==> behind && Entry(a, b, k).Some?) && (k in f ==> f[k] == Entry(a, b, k).value)
  }

  /** Moving a cursor past `key`, whose entry is nothing. */
  lemma {:induction false} CollectNothing(out: seq<Member>, a: Doc, b: Doc, fs: seq<Member>, i: nat, ts: seq<Member>,
      j: nat, i': nat, j': nat, key: string)
    requires Collected(out, a, b, fs, i, ts, j) && i' <= |fs| && j' <= |ts|
    requires forall k :: k != key ==> (Behind(fs, i', ts, j', k) <==> Behind(fs, i, ts, j, k))
    requires Entry(a, b, key).None?
    ensures Collected(out, a, b, fs, i', ts, j')
  {
    forall k ensures EntryAt(Map(out, true), a, b, Behind(fs, i', ts, j', k), k) {
      assert EntryAt(Map(out, true), a, b, Behind(fs, i, ts, j, k), k);
    }
  }

  /** Moving a cursor past `key`, whose entry is appended. */
  lemma {:induction false} CollectOne(out: seq<Member>, a: Doc, b: Doc, fs: seq<Member>, i: nat, ts: seq<Member>,
      j: nat, i': nat, j': nat, m: Member)
    requires Collected(out, a, b, fs, i, ts, j) && i' <= |fs| && j' <= |ts|
    requires forall k :: k != m.key ==> (Behind(fs, i', ts, j', k) <==> Behind(fs, i, ts, j, k))
    requires !Behind(fs, i, ts, j, m.key) && Behind(fs, i', ts, j', m.key)
    requires NoUpper(m.key) && LowerKeys(m.value) && Entry(a, b, m.key) == Some(View(m.value, true))
    ensures Collected(out + [m], a, b, fs, i', ts, j')
  {
    LowerView(Object(out), true);
    LowerView(m.value, true);
    assert EntryAt(Map(out, true), a, b, Behind(fs, i, ts, j, m.key), m.key);
    MapAppend(out, m, true);
    forall k ensures EntryAt(Map(out + [m], true), a, b, Behind(fs, i', ts, j', k), k) {
      assert EntryAt(Map(out, true), a, b, Behind(fs, i, ts, j, k), k);
    }
  }

  lemma {:induction false} KeyInMore(ms: seq<Member>, n: nat, k: string)
    requires n < |ms|
    ensures KeyIn(ms, 0, n + 1, k, true) <==> KeyIn(ms, 0, n, k, true) || k == ms[n].key
  {
    if k == ms[n].key {
      assert Fold(ms[n].key, true) == k;
    }
  }

  /** Advancing the cursors puts exactly the passed keys behind. */
  lemma {:induction false} BehindMore(fs: seq<Member>, i: nat, ts: seq<Member>, j: nat, k: string)
    ensures i < |fs| ==> (Behind(fs, i + 1, ts, j, k) <==> Behind(fs, i, ts, j, k) || k == fs[i].key)
    ensures j < |ts| ==> (Behind(fs, i, ts, j + 1, k) <==> Behind(fs, i, ts, j, k) || k == ts[j].key)
    ensures i < |fs| && j < |ts| && fs[i].key == ts[j].key ==>
      (Behind(fs, i + 1, ts, j + 1, k) <==> Behind(fs, i, ts, j, k) || k == fs[i].key)
  {
    if i < |fs| {
      KeyInMore(fs, i, k);
    }
    if j < |ts| {
      KeyInMore(ts, j, k);
    }
  }

  /** The next key is not behind. */
  lemma {:induction false} NextNotBehind(fs: seq<Member>, i: nat, ts: seq<Member>, j: nat)
    requires Interleaved(fs, i, ts, j, true)
    ensures i < |fs| ==> !Behind(fs, i, ts, j, fs[i].key)
    ensures j < |ts| ==> !Behind(fs, i, ts, j, ts[j].key)
  {
    if i < |fs| {
      forall x | 0 <= x < i ensures fs[x].key != fs[i].key { Differs(fs[x].key, fs[i].key, true); }
      forall y | 0 <= y < j ensures ts[y].key != fs[i].key { Differs(ts[y].key, fs[i].key, true); }
    }
    if j < |ts| {
      forall x | 0 <= x < i ensures fs[x].key != ts[j].key { Differs(fs[x].key, ts[j].key, true); }
      forall y | 0 <= y < j ensures ts[y].key != ts[j].key { Differs(ts[y].key, ts[j].key, true); }
    }
  }

  /** The two objects of a walk, as maps and as sorted lists. */
  ghost predicate Walked(a: Doc, b: Doc, fs: seq<Member>, ts: seq<Member>) {
    && a == Record(Map(fs, true)) && b == Record(Map(ts, true))
    && LowerKeys(Object(fs)) && LowerKeys(Object(ts)) && Ascending(fs, true) && Ascending(ts, true)
  }

  lemma {:induction false} EntryFirst(a: Doc, b: Doc, fs: seq<Member>, i: nat, ts: seq<Member>, j: nat)
    requires Walked(a, b, fs, ts) && Interleaved(fs, i, ts, j, true) && i < |fs|
    requires (j < |ts| ==> KeyLess(fs[i].key, ts[j].key, true))
    ensures Entry(a, b, fs[i].key) == Some(NULL)
  {
    InMap(fs, i, true);
    Absent(fs[i].key, ts, j, true);
  }

  lemma {:induction false} EntrySecond(a: Doc, b: Doc, fs: seq<Member>, i: nat, ts: seq<Member>, j: nat)
    requires Walked(a, b, fs, ts) && Interleaved(fs, i, ts, j, true) && j < |ts|
    requires (i < |fs| ==> KeyLess(ts[j].key, fs[i].key, true))
    ensures Entry(a, b, ts[j].key) == Some(View(ts[j].value, true))
  {
    InMap(ts, j, true);
    Absent(ts[j].key, fs, i, true);
  }

  lemma {:induction false} EntryBoth(a: Doc, b: Doc, fs: seq<Member>, i: nat, ts: seq<Member>, j: nat)
    requires Walked(a, b, fs, ts) && i < |fs| && j < |ts| && fs[i].key == ts[j].key
    ensures Entry(a, b, fs[i].key) == if Near(View(fs[i].value, true), View(ts[j].value, true)) then None
        else Gen(View(fs[i].value, true), View(ts[j].value, true))
  {
    InMap(fs, i, true);
    InMap(ts, j, true);
  }

  lemma {:induction false} CollectedAll(out: seq<Member>, a: Doc, b: Doc, fs: seq<Member>, ts: seq<Member>)
    requires Walked(a, b, fs, ts) && Collected(out, a, b, fs, |fs|, ts, |ts|)
    ensures Map(out, true) == Entries(a, b)
  {
    forall k ensures SameAt(Map(out, true), Entries(a, b), k) {
      assert EntryAt(Map(out, true), a, b, Behind(fs, |fs|, ts, |ts|, k), k);
      if k in Map(fs, true) {
        var x := FromMap(fs, k, true);
      } else if k in Map(ts, true) {
        var y := FromMap(ts, k, true);
      }
    }
    SameMap(Map(out, true), Entries(a, b));
  }

  /** The walk meets a key that only one object has. */
  lemma {:induction false} PassOne(out: seq<Member>, a: Doc, b: Doc, fs: seq<Member>, i: nat, ts: seq<Member>, j: nat,
      first: bool)
    returns (m: Member)
    requires Walked(a, b, fs, ts) == true && Collected(out, a, b, fs, i, ts, j) == true
    requires Interleaved(fs, i, ts, j, true) == true
    requires if first then i < |fs| && (j < |ts| ==>
        KeyLess(fs[i].key, ts[j].key, true)) else j < |ts| && (i < |fs| ==> KeyLess(ts[j].key, fs[i].key, true))
    ensures m == if first then Member(fs[i].key, Null) else ts[j]
    ensures var i', j' := if first then i + 1 else i, if first then j else j + 1;
      Collected(out + [m], a, b, fs, i', ts, j') && Interleaved(fs, i', ts, j', true)
  {
    NextNotBehind(fs, i, ts, j);
    forall k {
      BehindMore(fs, i, ts, j, k);
    }
    if first {
      EntryFirst(a, b, fs, i, ts, j);
      OrderFirst(fs, i, ts, j, true);
      m := Member(fs[i].key, Null);
      CollectOne(out, a, b, fs, i, ts, j, i + 1, j, m);
    } else {
      EntrySecond(a, b, fs, i, ts, j);
      OrderSecond(fs, i, ts, j, true);
      m := ts[j];
      CollectOne(out, a, b, fs, i, ts, j, i, j + 1, m);
    }
  }

  /** The walk meets a key that both objects have. */
  lemma {:induction false} PassShared(out: seq<Member>, a: Doc, b: Doc, fs: seq<Member>, i: nat, ts: seq<Member>,
      j: nat, more: Option<Json>)
    returns (ms: seq<Member>)
    requires Walked(a, b, fs, ts) == true && Collected(out, a, b, fs, i, ts, j) == true
    requires Interleaved(fs, i, ts, j, true) == true
    requires i < |fs| && j < |ts| && fs[i].key == ts[j].key
    requires more.None? <==> Entry(a, b, fs[i].key).None?
    requires more.Some? ==> LowerKeys(more.value) && Entry(a, b, fs[i].key) == Some(View(more.value, true))
    ensures ms == if more.Some? then [Member(ts[j].key, more.value)] else []
    ensures Collected(out + ms, a, b, fs, i + 1, ts, j + 1) && Interleaved(fs, i + 1, ts, j + 1, true)
  {
    NextNotBehind(fs, i, ts, j);
    forall k {
      BehindMore(fs, i, ts, j, k);
    }
    OrderBoth(fs, i, ts, j, true);
    if more.Some? {
      ms := [Member(ts[j].key, more.value)];
      CollectOne(out, a, b, fs, i, ts, j, i + 1, j + 1, Member(ts[j].key, more.value));
    } else {
      ms := [];
      assert out + [] == out;
      CollectNothing(out, a, b, fs, i, ts, j, i + 1, j + 1, ts[j].key);
    }
  }

  /** A key that both objects have: nothing if the values are equal, else the patch between them. */
  method GenerateShared(f: Json, t: Json, cs: bool) returns (more: Option<Json>)
    requires LowerKeys(f) && LowerKeys(t)
    ensures more.None? ==> Near(View(f, true), View(t, true)) || Gen(View(f, true), View(t, true)).None?
    ensures more.Some? ==> !Near(View(f, true), View(t, true)) && LowerKeys(more.value)
    ensures more.Some? ==> Gen(View(f, true), View(t, true)) == Some(View(more.value, true))
    decreases f, 2
  {
    LowerView(f, cs);
    LowerView(t, cs);
    var same := CompareJson(f, t, cs);
    if same {
      return None;
    }
    more := GenerateMergePatch(f, t, false);
  }

  /** The walk over the sorted members. */
  method GenerateMembers(fs: seq<Member>, ts: seq<Member>, cs: bool, ghost a: Doc, ghost b: Doc, ghost whole: Json)
    returns (out: seq<Member>)
    requires Walked(a, b, fs, ts) == true && whole.Object? && forall m :: m in fs ==> m in whole.members
    ensures LowerKeys(Object(out)) && Map(out, true) == Entries(a, b)
    decreases whole, 0
  {
    out := [];
    var i, j := 0, 0;
    while i < |fs| || j < |ts|
      invariant i <= |fs| && j <= |ts| && Collected(out, a, b, fs, i, ts, j) == true
      invariant Interleaved(fs, i, ts, j, true) == true
      decreases |fs| - i + |ts| - j
    {
      var diff := if i == |fs| then 1 else if j == |ts| then -1 else CompareKeys(fs[i].key, ts[j].key, true);
      if i < |fs| && j < |ts| {
        KeyOrder(fs[i].key, ts[j].key, fs[i].key, true);
      }
      if diff != 0 {
        ghost var m := PassOne(out, a, b, fs, i, ts, j, diff < 0);
        out := out + [if diff < 0 then Member(fs[i].key, Null) else ts[j]];
        i, j := if diff < 0 then i + 1 else i, if diff < 0 then j else j + 1;
        continue;
      }
      assert fs[i] in whole.members;
      var more := GenerateShared(fs[i].value, ts[j].value, cs);
      EntryBoth(a, b, fs, i, ts, j);
      ghost var ms := PassShared(out, a, b, fs, i, ts, j, more);
      out := out + if more.Some? then [Member(ts[j].key, more.value)] else [];
      i, j := i + 1, j + 1;
    }
    CollectedAll(out, a, b, fs, ts);
  }

  /** `generate_merge_patch`. */
  method GenerateMergePatch(from: Json, to: Json, cs: bool) returns (patch: Option<Json>)
    requires LowerKeys(from) && LowerKeys(to)
    ensures patch.None? <==> Gen(View(from, true), View(to, true)).None?
    ensures patch.Some? ==>
      LowerKeys(patch.value) && Gen(View(from, true), View(to, true)) == Some(View(patch.value, true))
    ensures patch.None? ==> Near(View(from, true), View(to, true))
    ensures patch.Some? ==> (Near(RfcMerge(View(from, true), View(patch.value, true)), View(to, true)) <==>
        Expressible(View(from, true), View(to, true)))
    decreases from, 1
  {
    GeneratedExactly(View(from, true), View(to, true));
    if !to.Object? || !from.Object? {
      return Some(to);
    }
    LowerSorted(from.members, cs);
    LowerSorted(to.members, cs);
    var out := GenerateMembers(SortMembers(from.members, cs), SortMembers(to.members, cs), cs, View(from, true),
        View(to, true), from);
    if out == [] {
      GenNone(View(from, true), View(to, true));
      return None;
    }
    InMap(out, 0, true);
    patch := Some(Object(out));
  }
}
