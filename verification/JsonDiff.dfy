/** The differ: `create_patches` of apps/cjson/cJSON_Utils.c:1141-1279 and what applying its patches
    comes to. */
module JsonDiff {
  import opened Basics
  import opened Json
  import opened JsonView
  import opened JsonCompare
  import opened JsonPointer
  import opened JsonPatch
  import opened JsonTurns
  import opened JsonPlain

  // ----- paths under a prefix -----

  function Absolute(prefix: seq<string>, r: Rel): Json {
    Compose(r.op, Text(prefix + r.tokens, 0), r.value)
  }

  function AbsoluteAll(prefix: seq<string>, rs: seq<Rel>): (ps: seq<Json>)
    ensures |ps| == |rs| && forall i :: 0 <= i < |rs| ==> ps[i] == Absolute(prefix, rs[i])
  {
    seq(|rs|, i requires 0 <= i < |rs| => Absolute(prefix, rs[i]))
  }

  lemma {:induction false} AbsoluteAppend(prefix: seq<string>, rs: seq<Rel>, ss: seq<Rel>)
    ensures AbsoluteAll(prefix, rs + ss) == AbsoluteAll(prefix, rs) + AbsoluteAll(prefix, ss)
  {
  }

  lemma {:induction false} AbsoluteLift(prefix: seq<string>, t: string, rs: seq<Rel>)
    ensures AbsoluteAll(prefix, LiftAll(t, rs)) == AbsoluteAll(prefix + [t], rs)
  {
    forall i | 0 <= i < |rs| ensures Absolute(prefix, Lift(t, rs[i])) == Absolute(prefix + [t], rs[i]) {
      assert prefix + ([t] + rs[i].tokens) == prefix + [t] + rs[i].tokens;
    }
  }

  lemma {:induction false} TextMore(prefix: seq<string>, t: string)
    ensures Text(prefix + [t], 0) == Text(prefix, 0) + "/" + t
  {
    TextSnoc(prefix + [t], |prefix|, 0);
    assert (prefix + [t])[..|prefix|] == prefix;
  }

  lemma {:induction false} NearReflexive(d: Doc)
    ensures Near(d, d)
    decreases d
  {
    match d {
      case Atom(_) =>
      case List(xs) =>
        forall i | 0 <= i < |xs| ensures Near(xs[i], xs[i]) {
          NearReflexive(xs[i]);
        }
      case Record(m) =>
        forall k | k in m ensures Near(m[k], m[k]) {
          NearReflexive(m[k]);
        }
    }
  }

  // ----- patches made so far -----

  /** Patches made so far for a document, and the document they lead to. */
  ghost predicate Made(patches: seq<Json>, prefix: seq<string>, rs: seq<Rel>, d: Doc, e: Doc, cs: bool) {
    patches == AbsoluteAll(prefix, rs) && Turns(rs, d, e, cs)
  }

  lemma {:induction false} MadeMore(patches: seq<Json>, more: seq<Json>, prefix: seq<string>, rs: seq<Rel>,
      ss: seq<Rel>, d: Doc, e: Doc, f: Doc, cs: bool)
    requires Made(patches, prefix, rs, d, e, cs) && Made(more, prefix, ss, e, f, cs)
    ensures Made(patches + more, prefix, rs + ss, d, f, cs)
  {
    AbsoluteAppend(prefix, rs, ss);
    TurnsThen(rs, ss, d, e, f, cs);
  }

  /** One more patch, at a token below the prefix. */
  lemma {:induction false} MadeStep(patches: seq<Json>, prefix: seq<string>, rs: seq<Rel>, op: Op, t: string,
      value: Option<Json>, d: Doc, e: Doc, f: Doc, cs: bool)
    requires Made(patches, prefix, rs, d, e, cs) && Turns([Rel(op, [t], value)], e, f, cs)
    ensures Made(patches + [Compose(op, Text(prefix, 0) + "/" + t, value)], prefix, rs + [Rel(op, [t], value)], d, f,
        cs)
  {
    TextMore(prefix, t);
    assert AbsoluteAll(prefix, [Rel(op, [t], value)]) == [Compose(op, Text(prefix + [t], 0), value)];
    MadeMore(patches, [Compose(op, Text(prefix + [t], 0), value)], prefix, rs, [Rel(op, [t], value)], d, e, f, cs);
  }

  /** The patches of an item. */
  lemma {:induction false} MadeItem(patches: seq<Json>, more: seq<Json>, prefix: seq<string>, rs: seq<Rel>,
      ss: seq<Rel>, d: Doc, cur: seq<Doc>, i: nat, e: Doc, cs: bool)
    requires Made(patches, prefix, rs, d, List(cur), cs) && i < |cur|
    requires Made(more, prefix + [Decimal(i)], ss, cur[i], e, cs)
    ensures Made(patches + more, prefix, rs + LiftAll(Decimal(i), ss), d, List(cur[i := e]), cs)
  {
    TurnsItem(cur, i, ss, e, cs);
    AbsoluteLift(prefix, Decimal(i), ss);
    MadeMore(patches, more, prefix, rs, LiftAll(Decimal(i), ss), d, List(cur), List(cur[i := e]), cs);
  }

  /** The patches of the value of a key. */
  lemma {:induction false} MadeMember(patches: seq<Json>, more: seq<Json>, prefix: seq<string>, rs: seq<Rel>,
      ss: seq<Rel>, d: Doc, cur: map<string, Doc>, key: string, e: Doc, cs: bool)
    requires Made(patches, prefix, rs, d, Record(cur), cs) && GoodKey(key, cs) && Fold(key, cs) in cur
    requires Made(more, prefix + [Encode(key)], ss, cur[Fold(key, cs)], e, cs)
    ensures Made(patches + more, prefix, rs + LiftAll(Encode(key), ss), d, Record(cur[Fold(key, cs) := e]), cs)
  {
    TurnsMember(key, ss, cur, e, cs);
    AbsoluteLift(prefix, Encode(key), ss);
    MadeMore(patches, more, prefix, rs, LiftAll(Encode(key), ss), d, Record(cur), Record(cur[Fold(key, cs) := e]), cs);
  }

  lemma {:induction false} MadeNothing(prefix: seq<string>, d: Doc, cs: bool)
    ensures Made([], prefix, [], d, d, cs)
  {
    TurnsNothing(d, cs);
  }

  lemma {:induction false} MadeReplace(prefix: seq<string>, d: Doc, to: Json, cs: bool)
    requires Patchable(to, cs)
    ensures Made([Compose(Replace, Text(prefix, 0), Some(to))], prefix, [Rel(Replace, [], Some(to))], d, View(to, cs),
        cs)
  {
    TurnsReplace(to, d, cs);
    assert prefix + [] == prefix;
  }

  // ----- arrays -----

  /** One document has become the other: it compares equal to it, and is it if the two are made of fractions of
      denominator `q`. */
  ghost predicate Same(a: Doc, b: Doc, q: int) {
    Near(a, b) && (q > 0 ==> a == b)
  }

  /** The document is made of such fractions, if `q` is a denominator. */
  ghost predicate Grained(j: Json, q: int) {
    q > 0 ==> PlainJson(j, q)
  }

  /** The first `n` views of an array have become those of the other. */
  ghost predicate ItemsDone(cur: seq<Doc>, ts: seq<Json>, n: nat, cs: bool, q: int) {
    n <= |cur| && n <= |ts| && forall x :: 0 <= x < n ==> Same(cur[x], View(ts[x], cs), q)
  }

  lemma {:induction false} BelowItem(prefix: seq<string>, i: nat)
    requires SlashFree(prefix)
    ensures SlashFree(prefix + [Decimal(i)]) && Text(prefix + [Decimal(i)], 0) == Text(prefix, 0) + "/" + Decimal(i)
  {
    DecimalSlashFree(i);
    TextMore(prefix, Decimal(i));
  }

  lemma {:induction false} BelowKey(prefix: seq<string>, key: string)
    requires SlashFree(prefix)
    ensures SlashFree(prefix + [Encode(key)]) && Text(prefix + [Encode(key)], 0) == Text(prefix, 0) + "/" + Encode(key)
  {
    EncodedSlashFree(key, |key|);
    TextMore(prefix, Encode(key));
  }

  ghost predicate ItemsAhead(cur: seq<Doc>, fs: seq<Json>, n: nat, cs: bool) {
    |cur| == |fs| && forall x :: n <= x < |fs| ==> cur[x] == View(fs[x], cs)
  }

  lemma {:induction false} NearItems(fs: seq<Json>, ts: seq<Json>, i: nat, cs: bool)
    requires i < |fs| && i < |ts| && Near(View(Array(fs), cs), View(Array(ts), cs))
    ensures Near(View(fs[i], cs), View(ts[i], cs))
  {
    assert View(Array(fs), cs).docs[i] == View(fs[i], cs) && View(Array(ts), cs).docs[i] == View(ts[i], cs);
  }

  /** The patches of one item that both arrays have. */
  method DiffItem(path: string, fs: seq<Json>, ts: seq<Json>, index: nat, cs: bool, ghost q: int,
      ghost prefix: seq<string>,
      ghost cur: seq<Doc>)
    returns (more: seq<Json>, ghost ss: seq<Rel>, ghost result: Doc)
    requires path == Text(prefix, 0) && SlashFree(prefix) && Patchable(Array(fs), cs) && Patchable(Array(ts), cs)
    requires Grained(Array(fs), q) && Grained(Array(ts), q)
    requires index < |fs| && index < |ts| && ItemsDone(cur, ts, index, cs, q) && ItemsAhead(cur, fs, index, cs)
    ensures Made(more, prefix + [Decimal(index)], ss, cur[index], result, cs)
    ensures ItemsDone(cur[index := result], ts, index + 1, cs, q) && ItemsAhead(cur[index := result], fs, index + 1, cs)
    ensures Near(View(fs[index], cs), View(ts[index], cs)) ==> more == []
    decreases fs, 0
  {
    BelowItem(prefix, index);
    more, ss, result :=
        CreatePatches(path + "/" + Decimal(index), fs[index], ts[index], cs, q, prefix + [Decimal(index)]);
  }

  /** The items that both arrays have. */
  method DiffCommon(path: string, fs: seq<Json>, ts: seq<Json>, cs: bool, ghost q: int, ghost prefix: seq<string>)
    returns (patches: seq<Json>, index: nat, ghost rs: seq<Rel>, ghost cur: seq<Doc>)
    requires path == Text(prefix, 0) && SlashFree(prefix) && Patchable(Array(fs), cs) && Patchable(Array(ts), cs)
    requires Grained(Array(fs), q) && Grained(Array(ts), q)
    ensures index <= |fs| && index <= |ts| && (index == |fs| || index == |ts|) && |cur| == |fs|
    ensures Made(patches, prefix, rs, View(Array(fs), cs), List(cur), cs) && ItemsDone(cur, ts, index, cs, q)
    ensures Near(View(Array(fs), cs), View(Array(ts), cs)) ==> patches == []
    decreases fs, 1
  {
    ghost var d := View(Array(fs), cs);
    patches, index, rs, cur := [], 0, [], d.docs;
    MadeNothing(prefix, d, cs);
    while index < |fs| && index < |ts|
      invariant index <= |fs| && index <= |ts|
      invariant Made(patches, prefix, rs, d, List(cur), cs) && ItemsDone(cur, ts, index, cs, q)
      invariant ItemsAhead(cur, fs, index, cs)
      invariant Near(d, View(Array(ts), cs)) ==> patches == []
    {
      var more;
      ghost var ss, result;
      more, ss, result := DiffItem(path, fs, ts, index, cs, q, prefix, cur);
      MadeItem(patches, more, prefix, rs, ss, d, cur, index, result, cs);
      if Near(d, View(Array(ts), cs)) {
        NearItems(fs, ts, index, cs);
      }
      patches, rs, cur := patches + more, rs + LiftAll(Decimal(index), ss), cur[index := result];
      index := index + 1;
    }
  }

  /** Removing the items that only the first array has: always at the same index. */
  method DiffShrink(path: string, index: nat, count: nat, cs: bool, earlier: seq<Json>, ghost prefix: seq<string>,
      ghost earlierRs: seq<Rel>, ghost d: Doc, ghost start: seq<Doc>)
    returns (patches: seq<Json>, ghost rs: seq<Rel>)
    requires path == Text(prefix, 0) && |start| == index + count && Made(earlier, prefix, earlierRs, d, List(start), cs)
    ensures Made(patches, prefix, rs, d, List(start[..index]), cs) && (count == 0 ==> patches == earlier)
  {
    ghost var cur := start;
    var left := count;
    patches, rs := earlier, earlierRs;
    while left > 0
      invariant 0 <= left <= count && |cur| == index + left && cur[..index] == start[..index]
      invariant (left == count ==> patches == earlier)
      invariant Made(patches, prefix, rs, d, List(cur), cs)
    {
      var t := Decimal(index);
      TurnsPop(cur, index, cs);
      MadeStep(patches, prefix, rs, Remove, t, None, d, List(cur), List(Without(cur, index)), cs);
      patches, rs, cur :=
          patches + [Compose(Remove, path + "/" + t, None)], rs + [Rel(Remove, [t], None)], Without(cur, index);
      left := left - 1;
    }
    assert cur == start[..index];
  }

  /** Adding the items that only the second array has: always at the end. */
  method DiffGrow(path: string, ts: seq<Json>, from: nat, cs: bool, ghost q: int, earlier: seq<Json>,
      ghost prefix: seq<string>,
      ghost earlierRs: seq<Rel>, ghost d: Doc, ghost start: seq<Doc>)
    returns (patches: seq<Json>, ghost rs: seq<Rel>, ghost cur: seq<Doc>)
    requires path == Text(prefix, 0) && Patchable(Array(ts), cs) && ItemsDone(start, ts, from, cs, q) && |start| == from
    requires Made(earlier, prefix, earlierRs, d, List(start), cs)
    ensures Made(patches, prefix, rs, d, List(cur), cs) && ItemsDone(cur, ts, |ts|, cs, q) && |cur| == |ts|
    ensures from == |ts| ==> patches == earlier
  {
    cur := start;
    var index := from;
    patches, rs := earlier, earlierRs;
    while index < |ts|
      invariant index == |cur| <= |ts| && Made(patches, prefix, rs, d, List(cur), cs)
      invariant ItemsDone(cur, ts, index, cs, q)
      invariant from <= index && (index == from ==> patches == earlier)
    {
      TurnsPush(cur, ts[index], cs);
      NearReflexive(View(ts[index], cs));
      MadeStep(patches, prefix, rs, Add, "-", Some(ts[index]), d, List(cur), List(cur + [View(ts[index], cs)]), cs);
      patches, rs, cur := patches + [Compose(Add, path + "/" + "-", Some(ts[index]))], rs
          + [Rel(Add, ["-"], Some(ts[index]))], cur + [View(ts[index], cs)];
      index := index + 1;
    }
  }

  method DiffItems(path: string, fs: seq<Json>, ts: seq<Json>, cs: bool, ghost q: int, ghost prefix: seq<string>)
    returns (patches: seq<Json>, ghost rs: seq<Rel>, ghost result: Doc)
    requires path == Text(prefix, 0) && SlashFree(prefix) && Patchable(Array(fs), cs) && Patchable(Array(ts), cs)
    requires Grained(Array(fs), q) && Grained(Array(ts), q)
    ensures Made(patches, prefix, rs, View(Array(fs), cs), result, cs) && Same(result, View(Array(ts), cs), q)
    ensures Near(View(Array(fs), cs), View(Array(ts), cs)) ==> patches == []
    decreases fs, 2
  {
    var index;
    ghost var cur, last;
    ghost var d := View(Array(fs), cs);
    patches, index, rs, cur := DiffCommon(path, fs, ts, cs, q, prefix);
    patches, rs := DiffShrink(path, index, |fs| - index, cs, patches, prefix, rs, d, cur);
    assert ItemsDone(cur[..index], ts, index, cs, q);
    patches, rs, last := DiffGrow(path, ts, index, cs, q, patches, prefix, rs, d, cur[..index]);
    result := List(last);
  }

  // ----- objects -----

  ghost predicate KeyIn(ms: seq<Member>, lo: nat, hi: nat, k: string, cs: bool) {
    exists x :: lo <= x < hi <= |ms| && Fold(ms[x].key, cs) == k
  }

  /** The walk over two sorted lists: `cur` holds `fs[i..]` as it is and something near `ts[..j]`,
      and everything behind one cursor is below everything ahead of the other. */
  ghost predicate Midway(cur: map<string, Doc>, fs: seq<Member>, i: nat, ts: seq<Member>, j: nat, cs: bool, q: int) {
    && i <= |fs| && j <= |ts|
    && (forall x :: i <= x < |fs| ==> Fold(fs[x].key, cs) in cur && cur[Fold(fs[x].key, cs)] == View(fs[x].value, cs))
    && (forall y :: 0 <= y < j ==>
        Fold(ts[y].key, cs) in cur && Same(cur[Fold(ts[y].key, cs)], View(ts[y].value, cs), q))
    && (forall k :: k in cur ==> KeyIn(fs, i, |fs|, k, cs) || KeyIn(ts, 0, j, k, cs))
  }

  ghost predicate Interleaved(fs: seq<Member>, i: nat, ts: seq<Member>, j: nat, cs: bool) {
    && i <= |fs| && j <= |ts| && Ascending(fs, cs) && Ascending(ts, cs)
    && (forall x, y :: i <= x < |fs| && 0 <= y < j ==> KeyLess(ts[y].key, fs[x].key, cs))
    && (forall x, y :: 0 <= x < i && j <= y < |ts| ==> KeyLess(fs[x].key, ts[y].key, cs))
  }

  lemma {:induction false} KeyInTail(ms: seq<Member>, i: nat, k: string, cs: bool)
    requires i < |ms| && KeyIn(ms, i, |ms|, k, cs) && k != Fold(ms[i].key, cs)
    ensures KeyIn(ms, i + 1, |ms|, k, cs)
  {
  }

  lemma {:induction false} MidRemove(cur: map<string, Doc>, fs: seq<Member>, i: nat, ts: seq<Member>, j: nat,
      gone: string, cs: bool, q: int)
    requires Midway(cur, fs, i, ts, j, cs, q) && i < |fs| && gone == Fold(fs[i].key, cs)
    requires forall x :: i < x < |fs| ==> Fold(fs[x].key, cs) != gone
    requires forall y :: 0 <= y < j ==> Fold(ts[y].key, cs) != gone
    ensures Midway(cur - {gone}, fs, i + 1, ts, j, cs, q)
  {
    forall k | k in cur && k != gone ensures KeyIn(fs, i + 1, |fs|, k, cs) || KeyIn(ts, 0, j, k, cs) {
      if KeyIn(fs, i, |fs|, k, cs) {
        KeyInTail(fs, i, k, cs);
      }
    }
  }

  lemma {:induction false} MidTake(cur: map<string, Doc>, fs: seq<Member>, i: nat, ts: seq<Member>, j: nat,
      added: string, e: Doc, cs: bool, q: int)
    requires Midway(cur, fs, i, ts, j, cs, q) && j < |ts| && added == Fold(ts[j].key, cs)
    requires Same(e, View(ts[j].value, cs), q)
    requires forall x :: i <= x < |fs| ==> Fold(fs[x].key, cs) != added
    requires forall y :: 0 <= y < j ==> Fold(ts[y].key, cs) != added
    ensures Midway(cur[added := e], fs, i, ts, j + 1, cs, q)
  {
    forall k | k in cur[added := e] ensures KeyIn(fs, i, |fs|, k, cs) || KeyIn(ts, 0, j + 1, k, cs) {
      if k != added && !KeyIn(fs, i, |fs|, k, cs) {
        assert KeyIn(ts, 0, j, k, cs);
      }
    }
  }

  lemma {:induction false} Differs(a: string, b: string, cs: bool)
    requires KeyLess(a, b, cs)
    ensures Fold(a, cs) != Fold(b, cs)
  {
    KeyOrder(a, b, a, cs);
  }

  /** Keys ahead in both lists differ from the next key of `fs` and from the keys behind. */
  lemma {:induction false} NextDiffers(fs: seq<Member>, i: nat, ts: seq<Member>, j: nat, cs: bool)
    requires Interleaved(fs, i, ts, j, cs)
    ensures i < |fs| ==> forall x :: i < x < |fs| ==> Fold(fs[x].key, cs) != Fold(fs[i].key, cs)
    ensures i < |fs| ==> forall y :: 0 <= y < j ==> Fold(ts[y].key, cs) != Fold(fs[i].key, cs)
    ensures j < |ts| ==> forall y :: 0 <= y < j ==> Fold(ts[y].key, cs) != Fold(ts[j].key, cs)
  {
    if i < |fs| {
      forall x | i < x < |fs| ensures Fold(fs[x].key, cs) != Fold(fs[i].key, cs) {
        Differs(fs[i].key, fs[x].key, cs);
      }
      forall y | 0 <= y < j ensures Fold(ts[y].key, cs) != Fold(fs[i].key, cs) {
        Differs(ts[y].key, fs[i].key, cs);
      }
    }
    if j < |ts| {
      forall y | 0 <= y < j ensures Fold(ts[y].key, cs) != Fold(ts[j].key, cs) {
        Differs(ts[y].key, ts[j].key, cs);
      }
    }
  }

  lemma {:induction false} OrderFirst(fs: seq<Member>, i: nat, ts: seq<Member>, j: nat, cs: bool)
    requires Interleaved(fs, i, ts, j, cs) && i < |fs| && (j < |ts| ==> KeyLess(fs[i].key, ts[j].key, cs))
    ensures Interleaved(fs, i + 1, ts, j, cs)
  {
    forall y | j <= y < |ts| ensures KeyLess(fs[i].key, ts[y].key, cs) {
      KeyOrder(fs[i].key, ts[j].key, ts[y].key, cs);
    }
  }

  lemma {:induction false} OrderSecond(fs: seq<Member>, i: nat, ts: seq<Member>, j: nat, cs: bool)
    requires Interleaved(fs, i, ts, j, cs) && j < |ts| && (i < |fs| ==> KeyLess(ts[j].key, fs[i].key, cs))
    ensures Interleaved(fs, i, ts, j + 1, cs)
  {
    forall x | i <= x < |fs| ensures KeyLess(ts[j].key, fs[x].key, cs) {
      KeyOrder(ts[j].key, fs[i].key, fs[x].key, cs);
    }
  }

  /** Passing a member that only `fs` has. */
  lemma {:induction false} PassRemoved(cur: map<string, Doc>, fs: seq<Member>, i: nat, ts: seq<Member>, j: nat,
      cs: bool, q: int)
    requires Midway(cur, fs, i, ts, j, cs, q) && Interleaved(fs, i, ts, j, cs) && i < |fs|
    requires (j < |ts| ==> KeyLess(fs[i].key, ts[j].key, cs))
    ensures Midway(cur - {Fold(fs[i].key, cs)}, fs, i + 1, ts, j, cs, q) && Interleaved(fs, i + 1, ts, j, cs)
  {
    NextDiffers(fs, i, ts, j, cs);
    MidRemove(cur, fs, i, ts, j, Fold(fs[i].key, cs), cs, q);
    OrderFirst(fs, i, ts, j, cs);
  }

  /** Passing a member of `ts` whose key now has a value near it. */
  lemma {:induction false} PassTaken(cur: map<string, Doc>, fs: seq<Member>, i: nat, ts: seq<Member>, j: nat, e: Doc,
      cs: bool, q: int)
    requires Midway(cur, fs, i, ts, j, cs, q) && Interleaved(fs, i, ts, j, cs) && j < |ts|
    requires (i < |fs| ==> KeyLess(ts[j].key, fs[i].key, cs))
    requires Same(e, View(ts[j].value, cs), q)
    ensures Midway(cur[Fold(ts[j].key, cs) := e], fs, i, ts, j + 1, cs, q) && Interleaved(fs, i, ts, j + 1, cs)
  {
    NextDiffers(fs, i, ts, j, cs);
    OrderSecond(fs, i, ts, j, cs);
    forall x | i <= x < |fs| ensures Fold(fs[x].key, cs) != Fold(ts[j].key, cs) {
      Differs(ts[j].key, fs[x].key, cs);
    }
    MidTake(cur, fs, i, ts, j, Fold(ts[j].key, cs), e, cs, q);
  }

  /** Passing a member that both have: as if it were removed and put back. */
  lemma {:induction false} PassBoth(cur: map<string, Doc>, fs: seq<Member>, i: nat, ts: seq<Member>, j: nat, e: Doc,
      cs: bool, q: int)
    requires Midway(cur, fs, i, ts, j, cs, q) && Interleaved(fs, i, ts, j, cs) && i < |fs| && j < |ts|
    requires Fold(fs[i].key, cs) == Fold(ts[j].key, cs)
    requires Same(e, View(ts[j].value, cs), q)
    ensures Midway(cur[Fold(ts[j].key, cs) := e], fs, i + 1, ts, j + 1, cs, q) && Interleaved(fs, i + 1, ts, j + 1, cs)
  {
    var same := Fold(ts[j].key, cs);
    NextDiffers(fs, i, ts, j, cs);
    MidRemove(cur, fs, i, ts, j, same, cs, q);
    MidTake(cur - {same}, fs, i + 1, ts, j, same, e, cs, q);
    RemoveThenSet(cur, same, e);
    OrderBoth(fs, i, ts, j, cs);
  }

  lemma {:induction false} OrderBoth(fs: seq<Member>, i: nat, ts: seq<Member>, j: nat, cs: bool)
    requires Interleaved(fs, i, ts, j, cs) && i < |fs| && j < |ts| && Fold(fs[i].key, cs) == Fold(ts[j].key, cs)
    ensures Interleaved(fs, i + 1, ts, j + 1, cs)
  {
    forall x | i < x < |fs| ensures KeyLess(ts[j].key, fs[x].key, cs) {
      KeyOrder(fs[i].key, ts[j].key, fs[x].key, cs);
    }
    forall y | j < y < |ts| ensures KeyLess(fs[i].key, ts[y].key, cs) {
      KeyOrder(fs[i].key, ts[j].key, ts[y].key, cs);
    }
  }

  lemma {:induction false} AtStart(fs: seq<Member>, ts: seq<Member>, cs: bool, q: int)
    requires Ascending(fs, cs) && Ascending(ts, cs)
    ensures Midway(Map(fs, cs), fs, 0, ts, 0, cs, q) && Interleaved(fs, 0, ts, 0, cs)
  {
    AscendingDistinct(fs, cs);
    forall x | 0 <= x < |fs| ensures Fold(fs[x].key, cs) in Map(fs, cs) && Map(fs, cs)[Fold(fs[x].key, cs)]
        == View(fs[x].value, cs) {
      InMap(fs, x, cs);
    }
    forall k | k in Map(fs, cs) ensures KeyIn(fs, 0, |fs|, k, cs) {
      var x := FromMap(fs, k, cs);
    }
  }

  lemma {:induction false} AtEnd(cur: map<string, Doc>, fs: seq<Member>, ts: seq<Member>, cs: bool, q: int)
    requires Midway(cur, fs, |fs|, ts, |ts|, cs, q) && Ascending(ts, cs)
    ensures Same(Record(cur), Record(Map(ts, cs)), q)
  {
    AscendingDistinct(ts, cs);
    var g := Map(ts, cs);
    forall k | k in cur ensures k in g && Same(cur[k], g[k], q) {
      assert KeyIn(ts, 0, |ts|, k, cs);
      var y :| 0 <= y < |ts| && Fold(ts[y].key, cs) == k;
      InMap(ts, y, cs);
    }
    forall k | k in g ensures k in cur {
      var y := FromMap(ts, k, cs);
    }
    assert cur.Keys == g.Keys;
  }

  lemma {:induction false} BothNear(fs: seq<Member>, i: nat, ts: seq<Member>, j: nat, cs: bool)
    requires Ascending(fs, cs) && Ascending(ts, cs) && i < |fs| && j < |ts|
    requires Fold(fs[i].key, cs) == Fold(ts[j].key, cs)
    ensures Near(Record(Map(fs, cs)), Record(Map(ts, cs))) ==> Near(View(fs[i].value, cs), View(ts[j].value, cs))
  {
    AscendingDistinct(fs, cs);
    AscendingDistinct(ts, cs);
    InMap(fs, i, cs);
    InMap(ts, j, cs);
  }

  lemma {:induction false} OnlyFirst(fs: seq<Member>, i: nat, ts: seq<Member>, j: nat, cs: bool)
    requires Interleaved(fs, i, ts, j, cs) && i < |fs| && (j < |ts| ==> KeyLess(fs[i].key, ts[j].key, cs))
    ensures !Near(Record(Map(fs, cs)), Record(Map(ts, cs)))
  {
    AscendingDistinct(fs, cs);
    InMap(fs, i, cs);
    Absent(fs[i].key, ts, j, cs);
    assert Fold(fs[i].key, cs) in Map(fs, cs).Keys;
  }

  lemma {:induction false} OnlySecond(fs: seq<Member>, i: nat, ts: seq<Member>, j: nat, cs: bool)
    requires Interleaved(fs, i, ts, j, cs) && j < |ts| && (i < |fs| ==> KeyLess(ts[j].key, fs[i].key, cs))
    ensures !Near(Record(Map(fs, cs)), Record(Map(ts, cs)))
  {
    AscendingDistinct(ts, cs);
    InMap(ts, j, cs);
    Absent(ts[j].key, fs, i, cs);
    assert Fold(ts[j].key, cs) in Map(ts, cs).Keys;
  }

  // ----- create_patches -----

  predicate MembersOf(ms: seq<Member>, whole: Json) {
    whole.Object? && forall m :: m in ms ==> m in whole.members
  }

  /** The patches for a member that both objects have. */
  method DiffMember(path: string, f: Member, t: Member, cs: bool, ghost q: int, ghost prefix: seq<string>,
      ghost whole: Json)
    returns (more: seq<Json>, ghost ss: seq<Rel>, ghost result: Doc)
    requires path == Text(prefix, 0) && SlashFree(prefix) && whole.Object? && f in whole.members
    requires Patchable(f.value, cs) && Patchable(t.value, cs) && Grained(f.value, q) && Grained(t.value, q)
    ensures Made(more, prefix + [Encode(f.key)], ss, View(f.value, cs), result, cs)
    ensures Same(result, View(t.value, cs), q)
    ensures Near(View(f.value, cs), View(t.value, cs)) ==> more == []
    decreases whole, 0
  {
    BelowKey(prefix, f.key);
    more, ss, result := CreatePatches(path + "/" + Encode(f.key), f.value, t.value, cs, q, prefix + [Encode(f.key)]);
  }

  /** What the walk over sorted members keeps. */
  ghost predicate Walking(patches: seq<Json>, prefix: seq<string>, rs: seq<Rel>, cur: map<string, Doc>, fs: seq<Member>,
      i: nat, ts: seq<Member>, j: nat, cs: bool, q: int) {
    && Made(patches, prefix, rs, Record(Map(fs, cs)), Record(cur), cs)
    && Midway(cur, fs, i, ts, j, cs, q) && Interleaved(fs, i, ts, j, cs)
    && (Near(Record(Map(fs, cs)), Record(Map(ts, cs))) ==> patches == [])
  }

  lemma {:induction false} WalkRemove(path: string, patches: seq<Json>, prefix: seq<string>, rs: seq<Rel>,
      cur: map<string, Doc>, fs: seq<Member>, i: nat, ts: seq<Member>, j: nat, cs: bool, q: int)
    returns (rs': seq<Rel>, cur': map<string, Doc>)
    requires path == Text(prefix, 0) && Walking(patches, prefix, rs, cur, fs, i, ts, j, cs, q)
    requires Patchable(Object(fs), cs)
    requires i < |fs| && (j < |ts| ==> KeyLess(fs[i].key, ts[j].key, cs))
    ensures Walking(patches + [Compose(Remove, path + "/" + Encode(fs[i].key), None)], prefix, rs', cur', fs, i + 1, ts,
        j, cs, q)
  {
    rs', cur' := rs + [Rel(Remove, [Encode(fs[i].key)], None)], cur - {Fold(fs[i].key, cs)};
    TurnsRemove(fs[i].key, cur, cs);
    MadeStep(patches, prefix, rs, Remove, Encode(fs[i].key), None, Record(Map(fs, cs)), Record(cur), Record(cur'), cs);
    PassRemoved(cur, fs, i, ts, j, cs, q);
    OnlyFirst(fs, i, ts, j, cs);
  }

  lemma {:induction false} WalkAdd(path: string, patches: seq<Json>, prefix: seq<string>, rs: seq<Rel>, cur: map<string,
      Doc>, fs: seq<Member>, i: nat, ts: seq<Member>, j: nat, cs: bool, q: int)
    returns (rs': seq<Rel>, cur': map<string, Doc>)
    requires path == Text(prefix, 0) && Walking(patches, prefix, rs, cur, fs, i, ts, j, cs, q)
    requires Patchable(Object(ts), cs)
    requires j < |ts| && (i < |fs| ==> CompareKeys(fs[i].key, ts[j].key, cs) > 0)
    ensures Walking(patches + [Compose(Add, path + "/" + Encode(ts[j].key), Some(ts[j].value))], prefix, rs', cur', fs,
        i, ts, j + 1, cs, q)
  {
    if i < |fs| {
      KeyOrder(fs[i].key, ts[j].key, fs[i].key, cs);
    }
    rs', cur' := rs + [Rel(Add, [Encode(ts[j].key)], Some(ts[j].value))],
        cur[Fold(ts[j].key, cs) := View(ts[j].value, cs)];
    TurnsAdd(ts[j].key, ts[j].value, cur, cs);
    MadeStep(patches, prefix, rs, Add, Encode(ts[j].key), Some(ts[j].value), Record(Map(fs, cs)), Record(cur),
        Record(cur'), cs);
    NearReflexive(View(ts[j].value, cs));
    PassTaken(cur, fs, i, ts, j, View(ts[j].value, cs), cs, q);
    OnlySecond(fs, i, ts, j, cs);
  }

  lemma {:induction false} WalkBoth(patches: seq<Json>, more: seq<Json>, prefix: seq<string>, rs: seq<Rel>,
      ss: seq<Rel>, cur: map<string, Doc>, e: Doc, fs: seq<Member>, i: nat, ts: seq<Member>, j: nat, cs: bool, q: int)
    requires Walking(patches, prefix, rs, cur, fs, i, ts, j, cs, q) && Patchable(Object(fs), cs)
    requires i < |fs| && j < |ts| && Fold(fs[i].key, cs) == Fold(ts[j].key, cs) && Same(e, View(ts[j].value, cs), q)
    requires Made(more, prefix + [Encode(fs[i].key)], ss, View(fs[i].value, cs), e, cs)
    requires Near(View(fs[i].value, cs), View(ts[j].value, cs)) ==> more == []
    ensures Walking(patches + more, prefix, rs + LiftAll(Encode(fs[i].key), ss), cur[Fold(fs[i].key, cs) := e], fs, i
        + 1, ts, j + 1, cs, q)
  {
    MadeMember(patches, more, prefix, rs, ss, Record(Map(fs, cs)), cur, fs[i].key, e, cs);
    PassBoth(cur, fs, i, ts, j, e, cs, q);
    BothNear(fs, i, ts, j, cs);
  }

  lemma {:induction false} WalkStart(prefix: seq<string>, fs: seq<Member>, ts: seq<Member>, cs: bool, q: int)
    requires Ascending(fs, cs) && Ascending(ts, cs)
    ensures Walking([], prefix, [], Map(fs, cs), fs, 0, ts, 0, cs, q)
  {
    MadeNothing(prefix, Record(Map(fs, cs)), cs);
    AtStart(fs, ts, cs, q);
  }

  lemma {:induction false} WalkEnd(patches: seq<Json>, prefix: seq<string>, rs: seq<Rel>, cur: map<string, Doc>,
      fs: seq<Member>, ts: seq<Member>, cs: bool, q: int)
    requires Walking(patches, prefix, rs, cur, fs, |fs|, ts, |ts|, cs, q)
    ensures Made(patches, prefix, rs, Record(Map(fs, cs)), Record(cur), cs) && Same(Record(cur), Record(Map(ts, cs)), q)
    ensures Near(Record(Map(fs, cs)), Record(Map(ts, cs))) ==> patches == []
  {
    AtEnd(cur, fs, ts, cs, q);
  }

  /** The walk meets a member that both objects have. */
  method WalkMember(path: string, fs: seq<Member>, i: nat, ts: seq<Member>, j: nat, cs: bool, ghost q: int,
      patches: seq<Json>,
      ghost prefix: seq<string>, ghost rs: seq<Rel>, ghost cur: map<string, Doc>, ghost whole: Json)
    returns (patches': seq<Json>, ghost rs': seq<Rel>, ghost cur': map<string, Doc>)
    requires path == Text(prefix, 0) && SlashFree(prefix) && MembersOf(fs, whole) && Patchable(Object(fs), cs)
    requires Patchable(Object(ts), cs) && Grained(Object(fs), q) && Grained(Object(ts), q)
    requires i < |fs| && j < |ts| && Fold(fs[i].key, cs) == Fold(ts[j].key, cs)
    requires Walking(patches, prefix, rs, cur, fs, i, ts, j, cs, q)
    ensures Walking(patches', prefix, rs', cur', fs, i + 1, ts, j + 1, cs, q)
    decreases whole, 1
  {
    var more;
    ghost var ss, result;
    more, ss, result := DiffMember(path, fs[i], ts[j], cs, q, prefix, whole);
    WalkBoth(patches, more, prefix, rs, ss, cur, result, fs, i, ts, j, cs, q);
    patches', rs', cur' := patches + more, rs + LiftAll(Encode(fs[i].key), ss), cur[Fold(fs[i].key, cs) := result];
  }

  /** The walk meets a member that only the first object has. */
  method WalkFirst(path: string, fs: seq<Member>, i: nat, ts: seq<Member>, j: nat, cs: bool, ghost q: int,
      patches: seq<Json>,
      ghost prefix: seq<string>, ghost rs: seq<Rel>, ghost cur: map<string, Doc>)
    returns (patches': seq<Json>, ghost rs': seq<Rel>, ghost cur': map<string, Doc>)
    requires path == Text(prefix, 0) && Walking(patches, prefix, rs, cur, fs, i, ts, j, cs, q)
    requires Patchable(Object(fs), cs)
    requires i < |fs| && (j < |ts| ==> KeyLess(fs[i].key, ts[j].key, cs))
    ensures Walking(patches', prefix, rs', cur', fs, i + 1, ts, j, cs, q)
  {
    rs', cur' := WalkRemove(path, patches, prefix, rs, cur, fs, i, ts, j, cs, q);
    patches' := patches + [Compose(Remove, path + "/" + Encode(fs[i].key), None)];
  }

  /** The walk meets a member that only the second object has. */
  method WalkSecond(path: string, fs: seq<Member>, i: nat, ts: seq<Member>, j: nat, cs: bool, ghost q: int,
      patches: seq<Json>,
      ghost prefix: seq<string>, ghost rs: seq<Rel>, ghost cur: map<string, Doc>)
    returns (patches': seq<Json>, ghost rs': seq<Rel>, ghost cur': map<string, Doc>)
    requires path == Text(prefix, 0) && Walking(patches, prefix, rs, cur, fs, i, ts, j, cs, q)
    requires Patchable(Object(ts), cs)
    requires j < |ts| && (i < |fs| ==> CompareKeys(fs[i].key, ts[j].key, cs) > 0)
    ensures Walking(patches', prefix, rs', cur', fs, i, ts, j + 1, cs, q)
  {
    rs', cur' := WalkAdd(path, patches, prefix, rs, cur, fs, i, ts, j, cs, q);
    patches' := patches + [Compose(Add, path + "/" + Encode(ts[j].key), Some(ts[j].value))];
  }

  /** The walk meets a member that only one object has. */
  method WalkOne(path: string, fs: seq<Member>, i: nat, ts: seq<Member>, j: nat, cs: bool, ghost q: int, diff: int,
      patches: seq<Json>, ghost prefix: seq<string>, ghost rs: seq<Rel>, ghost cur: map<string, Doc>)
    returns (patches': seq<Json>, ghost rs': seq<Rel>, ghost cur': map<string, Doc>)
    requires path == Text(prefix, 0) && Patchable(Object(fs), cs) && Patchable(Object(ts), cs)
    requires Walking(patches, prefix, rs, cur, fs, i, ts, j, cs, q)
    requires if diff < 0 then i < |fs| && (j < |ts| ==>
        KeyLess(fs[i].key, ts[j].key, cs)) else j < |ts| && (i < |fs| ==> CompareKeys(fs[i].key, ts[j].key, cs) > 0)
    ensures diff < 0 ==> Walking(patches', prefix, rs', cur', fs, i + 1, ts, j, cs, q)
    ensures diff >= 0 ==> Walking(patches', prefix, rs', cur', fs, i, ts, j + 1, cs, q)
  {
    if diff < 0 {
      patches', rs', cur' := WalkFirst(path, fs, i, ts, j, cs, q, patches, prefix, rs, cur);
    } else {
      patches', rs', cur' := WalkSecond(path, fs, i, ts, j, cs, q, patches, prefix, rs, cur);
    }
  }

  /** The walk over the sorted members of two objects. */
  method DiffMembers(path: string, fs: seq<Member>, ts: seq<Member>, cs: bool, ghost q: int, ghost prefix: seq<string>,
      ghost whole: Json)
    returns (patches: seq<Json>, ghost rs: seq<Rel>, ghost cur: map<string, Doc>)
    requires path == Text(prefix, 0) && SlashFree(prefix) && MembersOf(fs, whole)
    requires Patchable(Object(fs), cs) && Patchable(Object(ts), cs) && Ascending(fs, cs) && Ascending(ts, cs)
    requires Grained(Object(fs), q) && Grained(Object(ts), q)
    ensures Made(patches, prefix, rs, Record(Map(fs, cs)), Record(cur), cs) && Same(Record(cur), Record(Map(ts, cs)), q)
    ensures Near(Record(Map(fs, cs)), Record(Map(ts, cs))) ==> patches == []
    decreases whole, 3
  {
    var i, j := 0, 0;
    patches, rs, cur := [], [], Map(fs, cs);
    WalkStart(prefix, fs, ts, cs, q);
    while i < |fs| || j < |ts|
      invariant i <= |fs| && j <= |ts| && Walking(patches, prefix, rs, cur, fs, i, ts, j, cs, q)
      decreases |fs| - i + |ts| - j
    {
      var diff := if i == |fs| then 1 else if j == |ts| then -1 else CompareKeys(fs[i].key, ts[j].key, cs);
      if diff == 0 {
        KeysEqual(fs[i].key, ts[j].key, cs);
        patches, rs, cur := WalkMember(path, fs, i, ts, j, cs, q, patches, prefix, rs, cur, whole);
        i, j := i + 1, j + 1;
        continue;
      }
      patches, rs, cur := WalkOne(path, fs, i, ts, j, cs, q, diff, patches, prefix, rs, cur);
      i, j := if diff < 0 then i + 1 else i, if diff < 0 then j else j + 1;
    }
    WalkEnd(patches, prefix, rs, cur, fs, ts, cs, q);
  }

  lemma {:induction false} SortedPatchable(ms: seq<Member>, cs: bool)
    requires Patchable(Object(ms), cs)
    ensures Patchable(Object(SortMembers(ms, cs)), cs) && Ascending(SortMembers(ms, cs), cs)
    ensures Map(SortMembers(ms, cs), cs) == Map(ms, cs) && MembersOf(SortMembers(ms, cs), Object(ms))
  {
    PatchableKeyed(Object(ms), cs);
    SortedMembers(ms, cs);
    var ns := SortMembers(ms, cs);
    forall i | 0 <= i < |ns| ensures GoodKey(ns[i].key, cs) && Patchable(ns[i].value, cs) {
      assert ns[i] in ms;
    }
  }

  lemma {:induction false} SortedGrained(ms: seq<Member>, cs: bool, q: int)
    requires Grained(Object(ms), q) && MembersOf(SortMembers(ms, cs), Object(ms))
    ensures Grained(Object(SortMembers(ms, cs)), q)
  {
  }

  /** `create_patches`: the patches, put under the path, turn every document with the view of `from`
      into one that compares equal to `to`. */
  method CreatePatches(path: string, from: Json, to: Json, cs: bool, ghost q: int, ghost prefix: seq<string>)
    returns (patches: seq<Json>, ghost rs: seq<Rel>, ghost result: Doc)
    requires path == Text(prefix, 0) && SlashFree(prefix) && Patchable(from, cs) && Patchable(to, cs)
    requires Grained(from, q) && Grained(to, q)
    ensures Made(patches, prefix, rs, View(from, cs), result, cs) && Same(result, View(to, cs), q)
    ensures Near(View(from, cs), View(to, cs)) ==> patches == []
    decreases from, 4
  {
    var same := SameType(from, to);
    if same {
      match from {
        case Array(fs) =>
          patches, rs, result := DiffItems(path, fs, to.items, cs, q, prefix);
          return;
        case Object(fs) =>
          SortedPatchable(fs, cs);
          SortedPatchable(to.members, cs);
          SortedGrained(fs, cs, q);
          SortedGrained(to.members, cs, q);
          ghost var cur;
          patches, rs, cur := DiffMembers(path, SortMembers(fs, cs), SortMembers(to.members, cs), cs, q, prefix, from);
          result := Record(cur);
          return;
        case Number(i, d) => same := i == to.valueint && CompareDouble(d, to.valuedouble);
        case Str(s) => same := s == to.text;
        case _ =>
      }
    }
    if same {
      if q > 0 {
        PlainAtoms(from, to, cs, q);
      }
      patches, rs, result := [], [], View(from, cs);
      MadeNothing(prefix, View(from, cs), cs);
    } else {
      patches, rs, result := [Compose(Replace, path, Some(to))], [Rel(Replace, [], Some(to))], View(to, cs);
      MadeReplace(prefix, View(from, cs), to, cs);
      NearReflexive(View(to, cs));
    }
  }

  // ----- the whole difference -----

  lemma {:induction false} AppliesAs(j: Json, rs: seq<Rel>, n: nat, cs: bool)
    requires n <= |rs| && Iterate(j, rs, n, Nexts(cs)).Some?
    ensures FoldTo(j, AbsoluteAll([], rs), n, Applying(cs)) == Outcome(0, Iterate(j, rs, n, Nexts(cs)).value)
  {
    if n > 0 {
      var before, after := LastStep(j, rs, n, cs);
      AppliesAs(j, rs, n - 1, cs);
      OneApplied(before, rs[n - 1], cs);
    }
  }

  lemma {:induction false} OneApplied(j: Json, r: Rel, cs: bool)
    ensures Applying(cs)(j, Absolute([], r)) == ApplyRel(j, r, cs)
  {
    assert [] + r.tokens == r.tokens;
    ApplyComposed(j, r.op, Text(r.tokens, 0), r.value, cs);
  }

  lemma {:induction false} MadeApplies(patches: seq<Json>, rs: seq<Rel>, d: Doc, e: Doc, j: Json, cs: bool)
    requires Made(patches, [], rs, d, e, cs) && Patchable(j, cs) && View(j, cs) == d
    ensures ApplyAll(j, patches, cs).status == 0 && View(ApplyAll(j, patches, cs).doc, cs) == e
  {
    assert Reaches(Run(j, rs, cs), e, cs);
    AppliesAs(j, rs, |rs|, cs);
  }

  lemma {:induction false} NoPatches(patches: seq<Json>, rs: seq<Rel>, d: Doc, e: Doc, j: Json, cs: bool)
    requires Made(patches, [], rs, d, e, cs) && Patchable(j, cs) && View(j, cs) == d
    ensures patches == [] ==> d == e
  {
    assert Reaches(Run(j, rs, cs), e, cs);
  }

  /** `cJSONUtils_GeneratePatches`: diff then apply. Applied in order to any patchable document that
      says the same as `from`, the patches all succeed and leave a document that compares equal to `to`, and says just
      what `to` does if both are made of fractions of some denominator; and there are none exactly when the two
      compared equal already. */
  method GeneratePatches(from: Json, to: Json, cs: bool, ghost q: int) returns (patches: Json)
    requires Patchable(from, cs) && Patchable(to, cs) && Grained(from, q) && Grained(to, q)
    ensures patches.Array? && (patches.items == [] <==> Near(View(from, cs), View(to, cs)))
    ensures forall j :: Patchable(j, cs) && View(j, cs) == View(from, cs) ==>
      var o := ApplyAll(j, patches.items, cs); o.status == 0 && Same(View(o.doc, cs), View(to, cs), q)
  {
    var ps;
    ghost var rs, result;
    ps, rs, result := CreatePatches("", from, to, cs, q, []);
    patches := Array(ps);
    NoPatches(ps, rs, View(from, cs), result, from, cs);
    forall j | Patchable(j, cs) && View(j, cs) == View(from, cs)
      ensures var o := ApplyAll(j, ps, cs); o.status == 0 && Same(View(o.doc, cs), View(to, cs), q)
    {
      MadeApplies(ps, rs, View(from, cs), result, j, cs);
    }
  }
}
