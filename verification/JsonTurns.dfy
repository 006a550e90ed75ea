/** What a list of patches does to every document with a given view: the laws by which the patches
    of a difference are put together.
    A predicate compared with `true` in a contract is proved as one fact, not conjunct by conjunct. */
module JsonTurns {
  import opened Basics
  import opened Json
  import opened JsonView
  import opened JsonPointer
  import opened JsonPatch

  /** A patch whose path is relative to the document it is applied to. */
  datatype Rel = Rel(op: Op, tokens: seq<string>, value: Option<Json>)

  function ApplyRel(j: Json, r: Rel, cs: bool): Outcome {
    Apply(j, r.op, Text(r.tokens, 0), r.value, cs)
  }

  predicate GoodKey(key: string, cs: bool) {
    Survives(key) && (cs ==> NoUpper(key))
  }

  /** The documents patches are promised to work on: distinct keys that survive as path tokens, in
      lower case if case counts, and arrays whose indices fit `size_t`. */
  predicate Patchable(j: Json, cs: bool)
    decreases j
  {
    match j
    case Array(items) => |items| < SIZE_LIMIT && forall i :: 0 <= i < |items| ==> Patchable(items[i], cs)
    case Object(ms) => Distinct(ms, cs) && forall i :: 0 <= i < |ms| ==>
        GoodKey(ms[i].key, cs) && Patchable(ms[i].value, cs)
    case _ => true
  }

  lemma {:induction false} PatchableKeyed(j: Json, cs: bool)
    requires Patchable(j, cs)
    ensures Keyed(j, cs)
    decreases j
  {
    match j {
      case Array(items) =>
        forall i | 0 <= i < |items| ensures Keyed(items[i], cs) {
          PatchableKeyed(items[i], cs);
        }
      case Object(ms) =>
        forall i | 0 <= i < |ms| ensures Keyed(ms[i].value, cs) {
          PatchableKeyed(ms[i].value, cs);
        }
      case _ =>
    }
  }

  // ----- paths -----

  lemma {:induction false} TextSnoc(tokens: seq<string>, n: nat, k: nat)
    requires k <= n < |tokens| && n == |tokens| - 1
    ensures Text(tokens, k) == Text(tokens[..n], k) + "/" + tokens[n]
    decreases n - k
  {
    if k < n {
      TextSnoc(tokens, n, k + 1);
    } else {
      assert Text(tokens, n + 1) == "" && Text(tokens[..n], n) == "";
    }
  }

  lemma {:induction false} SplitLast(front: string, t: string, s: string)
    requires s == front + "/" + t && '/' !in t
    ensures |front| < |s| && LastSlash(s, |s|) == Some(|front|) && s[..|front|] == front && s[|front| + 1..] == t
  {
    var k := |front|;
    assert s[k] == '/';
    assert forall x :: k < x < |s| ==> s[x] == t[x - k - 1];
  }

  /** Splitting a pointer text at its last slash. */
  lemma {:induction false} LastToken(tokens: seq<string>, n: nat)
    requires SlashFree(tokens) && n == |tokens| - 1
    ensures var s, k := Text(tokens, 0), |Text(tokens[..n], 0)|;
      k < |s| && LastSlash(s, |s|) == Some(k) && s[..k] == Text(tokens[..n], 0) && s[k + 1..] == tokens[n]
    ensures Tokens(Text(tokens[..n], 0), 0) == tokens[..n]
  {
    TextSnoc(tokens, n, 0);
    var front := tokens[..n];
    SplitLast(Text(front, 0), tokens[n], Text(tokens, 0));
    assert "" + Text(front, 0) == Text(front, 0);
    TokensOfText("", front, 0, Text(front, 0));
  }

  lemma {:induction false} PathEdits(j: Json, tokens: seq<string>, n: nat, value: Json, cs: bool)
    requires SlashFree(tokens) && n == |tokens| - 1
    ensures Text(tokens, 0) != ""
    ensures DetachPath(j, Text(tokens, 0), cs) == EditAt(j, tokens[..n], 0, Detach(tokens[n]), cs)
    ensures PutPath(j, Text(tokens, 0), value, cs) == EditAt(j, tokens[..n], 0, Put(tokens[n], value), cs)
  {
    LastToken(tokens, n);
  }

  function Under(j: Json, i: nat, o: Outcome): Outcome
    requires i < Count(j)
  {
    Outcome(o.status, WithChild(j, i, o.doc))
  }

  lemma {:induction false} ShiftEdit(j: Json, all: seq<string>, tokens: seq<string>, k: nat, e: Edit, cs: bool)
    requires k <= |tokens| == |all| - 1 && forall x :: 0 <= x < |tokens| ==> all[x + 1] == tokens[x]
    ensures EditAt(j, all, k + 1, e, cs) == EditAt(j, tokens, k, e, cs)
    decreases |tokens| - k
  {
    if k < |tokens| {
      assert all[k + 1] == tokens[k];
      var s := Step(j, tokens[k], cs);
      if s.Some? {
        ShiftEdit(Child(j, s.value), all, tokens, k + 1, e, cs);
      }
    }
  }

  lemma {:induction false} LiftEdit(j: Json, t: string, i: nat, front: seq<string>, e: Edit, cs: bool)
    requires Step(j, t, cs) == Some(i)
    ensures EditAt(j, [t] + front, 0, e, cs) == Under(j, i, EditAt(Child(j, i), front, 0, e, cs))
  {
    ShiftEdit(Child(j, i), [t] + front, front, 0, e, cs);
    assert ([t] + front)[0] == t;
  }

  /** Editing below a child. */
  lemma {:induction false} LiftPaths(j: Json, t: string, i: nat, tokens: seq<string>, value: Json, cs: bool)
    requires Step(j, t, cs) == Some(i) && '/' !in t && SlashFree(tokens) && |tokens| > 0
    ensures Text(tokens, 0) != "" && Text([t] + tokens, 0) != ""
    ensures DetachPath(j, Text([t] + tokens, 0), cs) == Under(j, i, DetachPath(Child(j, i), Text(tokens, 0), cs))
    ensures PutPath(j, Text([t] + tokens, 0), value, cs)
        == Under(j, i, PutPath(Child(j, i), Text(tokens, 0), value, cs))
  {
    var n := |tokens| - 1;
    assert ([t] + tokens)[..n + 1] == [t] + tokens[..n];
    PathEdits(j, [t] + tokens, n + 1, value, cs);
    PathEdits(Child(j, i), tokens, n, value, cs);
    LiftEdit(j, t, i, tokens[..n], Detach(tokens[n]), cs);
    LiftEdit(j, t, i, tokens[..n], Put(tokens[n], value), cs);
  }

  lemma {:induction false} SameKeysFound(ms: seq<Member>, ns: seq<Member>, t: string, cs: bool, i: nat)
    requires |ms| == |ns| && i <= |ms| && forall x :: 0 <= x < |ms| ==> ms[x].key == ns[x].key
    ensures FindToken(ms, t, cs, i) == FindToken(ns, t, cs, i)
    decreases |ms| - i
  {
    if i < |ms| {
      SameKeysFound(ms, ns, t, cs, i + 1);
    }
  }

  /** Changing a child leaves the token leading to it. */
  lemma {:induction false} StepAgain(j: Json, t: string, i: nat, c: Json, d: Json, cs: bool)
    requires Step(j, t, cs) == Some(i)
    ensures var k := WithChild(j, i, c);
      && i < Count(k) && Step(k, t, cs) == Some(i) && Child(k, i) == c
      && WithChild(k, i, d) == WithChild(j, i, d)
  {
    if j.Object? {
      SameKeysFound(j.members, WithChild(j, i, c).members, t, cs, 0);
    }
  }

  lemma {:induction false} LiftApply(j: Json, t: string, i: nat, r: Rel, cs: bool)
    requires Step(j, t, cs) == Some(i) && '/' !in t && SlashFree(r.tokens) && |r.tokens| > 0
    requires ApplyRel(Child(j, i), r, cs).status == 0
    ensures ApplyRel(j, Rel(r.op, [t] + r.tokens, r.value), cs) == Under(j, i, ApplyRel(Child(j, i), r, cs))
  {
    var v := if r.value.Some? then r.value.value else Null;
    LiftPaths(j, t, i, r.tokens, v, cs);
    if r.op.Replace? {
      var c := DetachPath(Child(j, i), Text(r.tokens, 0), cs).doc;
      StepAgain(j, t, i, c, PutPath(c, Text(r.tokens, 0), v, cs).doc, cs);
      LiftPaths(WithChild(j, i, c), t, i, r.tokens, v, cs);
    }
  }

  // ----- a member or an item -----

  /** Patching at one token: the path is "/" and the token. */
  lemma {:induction false} ApplyHere(j: Json, t: string, value: Json, cs: bool)
    requires '/' !in t
    ensures Text([t], 0) != ""
    ensures DetachPath(j, Text([t], 0), cs) == Perform(j, Detach(t), cs)
    ensures PutPath(j, Text([t], 0), value, cs) == Perform(j, Put(t, value), cs)
  {
    assert [t][..0] == [];
    PathEdits(j, [t], 0, value, cs);
  }

  /** Among good keys the lookup that ignores case finds the same member. */
  lemma {:induction false} SameFind(ms: seq<Member>, key: string, cs: bool)
    requires Patchable(Object(ms), cs) && GoodKey(key, cs)
    ensures Find(ms, key, false) == Find(ms, key, cs)
  {
    if cs {
      forall i | 0 <= i < |ms| ensures Fold(ms[i].key, false) == Fold(ms[i].key, true) {
        FoldNoUpper(ms[i].key, false);
      }
      FoldNoUpper(key, false);
      FindFromFirst(ms, key, true, 0);
      FindFromFirst(ms, key, false, 0);
    }
  }

  lemma {:induction false} PatchableWithout(ms: seq<Member>, i: nat, cs: bool)
    requires Patchable(Object(ms), cs) && i < |ms|
    ensures Patchable(Object(Without(ms, i)), cs) && Map(Without(ms, i), cs) == Map(ms, cs) - {Fold(ms[i].key, cs)}
  {
    PatchableKeyed(Object(ms), cs);
    MapRemove(ms, i, cs);
    var r := Without(ms, i);
    forall x | 0 <= x < |r| ensures GoodKey(r[x].key, cs) && Patchable(r[x].value, cs) {
      assert r[x] == ms[if x < i then x else x + 1];
    }
  }

  lemma {:induction false} PatchableAppend(ms: seq<Member>, m: Member, cs: bool)
    requires Patchable(Object(ms), cs) && Patchable(m.value, cs) && GoodKey(m.key, cs)
    requires Fold(m.key, cs) !in Map(ms, cs)
    ensures Patchable(Object(ms + [m]), cs) && Map(ms + [m], cs) == Map(ms, cs)[Fold(m.key, cs) := View(m.value, cs)]
  {
    PatchableKeyed(Object(ms), cs);
    PatchableKeyed(m.value, cs);
    MapAppend(ms, m, cs);
  }

  /** Removing a member by its escaped key. */
  lemma {:induction false} DetachMember(ms: seq<Member>, key: string, cs: bool)
    requires Patchable(Object(ms), cs) && GoodKey(key, cs) && Fold(key, cs) in Map(ms, cs)
    ensures var o := Perform(Object(ms), Detach(Encode(key)), cs);
      o.status == 0 && o.doc.Object? && Patchable(o.doc, cs) && Map(o.doc.members, cs) == Map(ms, cs) - {Fold(key, cs)}
  {
    SameFind(ms, key, cs);
    FindInMap(ms, key, cs);
    var i := Find(ms, key, cs);
    FindFromFirst(ms, key, cs, 0);
    PatchableWithout(ms, i, cs);
  }

  lemma {:induction false} RemoveThenSet(f: map<string, Doc>, k: string, v: Doc)
    ensures (f - {k})[k := v] == f[k := v]
  {
  }

  /** The object without the member that has the key. */
  lemma {:induction false} Cleared(ms: seq<Member>, key: string, cs: bool) returns (rest: seq<Member>)
    requires Patchable(Object(ms), cs)
    ensures rest == if Find(ms, key, cs) < |ms| then Without(ms, Find(ms, key, cs)) else ms
    ensures Patchable(Object(rest), cs) && Map(rest, cs) == Map(ms, cs) - {Fold(key, cs)}
  {
    FindInMap(ms, key, cs);
    var i := Find(ms, key, cs);
    FindFromFirst(ms, key, cs, 0);
    rest := ms;
    if i < |ms| {
      PatchableWithout(ms, i, cs);
      rest := Without(ms, i);
    }
  }

  /** Setting a member by its escaped key. */
  lemma {:induction false} PutMember(ms: seq<Member>, key: string, value: Json, cs: bool)
    requires Patchable(Object(ms), cs) && GoodKey(key, cs) && Patchable(value, cs)
    ensures var o := Perform(Object(ms), Put(Encode(key), value), cs);
      o.status == 0 && o.doc.Object? && Patchable(o.doc, cs) && Map(o.doc.members, cs)
          == Map(ms, cs)[Fold(key, cs) := View(value, cs)]
  {
    var rest := Cleared(ms, key, cs);
    PatchableAppend(rest, Member(key, value), cs);
    RemoveThenSet(Map(ms, cs), Fold(key, cs), View(value, cs));
  }

  // ----- patching one child -----

  function Lift(t: string, r: Rel): Rel {
    Rel(r.op, [t] + r.tokens, r.value)
  }

  /** A patch that a difference may contain: its tokens are slash-free, and at the root it replaces. */
  predicate Proper(r: Rel) {
    SlashFree(r.tokens) && (|r.tokens| == 0 ==> r.op.Replace? && r.value.Some?)
  }

  /** Taking a member out, with what is left. */
  lemma {:induction false} TakeMember(ms: seq<Member>, key: string, cs: bool) returns (rest: seq<Member>)
    requires Patchable(Object(ms), cs) && GoodKey(key, cs) && Fold(key, cs) in Map(ms, cs)
    ensures Perform(Object(ms), Detach(Encode(key)), cs) == Outcome(0, Object(rest))
    ensures Patchable(Object(rest), cs) && Map(rest, cs) == Map(ms, cs) - {Fold(key, cs)}
  {
    DetachMember(ms, key, cs);
    rest := Perform(Object(ms), Detach(Encode(key)), cs).doc.members;
  }

  /** Putting a member where there is none with its key. */
  lemma {:induction false} PutNew(ms: seq<Member>, key: string, c: Json, cs: bool)
    requires Patchable(Object(ms), cs) && GoodKey(key, cs) && Fold(key, cs) !in Map(ms, cs) && Patchable(c, cs)
    ensures Perform(Object(ms), Put(Encode(key), c), cs) == Outcome(0, Object(ms + [Member(key, c)]))
    ensures Patchable(Object(ms + [Member(key, c)]), cs)
    ensures Map(ms + [Member(key, c)], cs) == Map(ms, cs)[Fold(key, cs) := View(c, cs)]
  {
    FindInMap(ms, key, cs);
    PutMember(ms, key, c, cs);
  }

  /** Replacing at one token: taking out, then putting in. */
  lemma {:induction false} ReplaceHere(j: Json, t: string, between: Json, c: Json, after: Json, cs: bool)
    requires '/' !in t && Perform(j, Detach(t), cs) == Outcome(0, between)
    requires Perform(between, Put(t, c), cs) == Outcome(0, after)
    ensures ApplyRel(j, Rel(Replace, [t], Some(c)), cs) == Outcome(0, after)
  {
    ApplyHere(j, t, c, cs);
    ApplyHere(between, t, c, cs);
  }

  /** Replacing the value of a key: the member is taken out and a new one put at the end. */
  lemma {:induction false} ReplaceMember(ms: seq<Member>, key: string, c: Json, cs: bool) returns (rest: seq<Member>)
    requires Patchable(Object(ms), cs) && GoodKey(key, cs) && Fold(key, cs) in Map(ms, cs) && Patchable(c, cs)
    ensures ApplyRel(Object(ms), Rel(Replace, [Encode(key)], Some(c)), cs)
        == Outcome(0, Object(rest + [Member(key, c)]))
    ensures Patchable(Object(rest + [Member(key, c)]), cs)
    ensures Map(rest + [Member(key, c)], cs) == Map(ms, cs)[Fold(key, cs) := View(c, cs)]
  {
    EncodedSlashFree(key, |key|);
    rest := TakeMember(ms, key, cs);
    PutNew(rest, key, c, cs);
    ReplaceHere(Object(ms), Encode(key), Object(rest), c, Object(rest + [Member(key, c)]), cs);
    RemoveThenSet(Map(ms, cs), Fold(key, cs), View(c, cs));
  }

  lemma {:induction false} ChangeMember(ms: seq<Member>, ns: seq<Member>, i: nat, c: Json, cs: bool)
    requires Patchable(Object(ms), cs) && i < |ms| && Patchable(c, cs) && ns == ms[i := Member(ms[i].key, c)]
    ensures Patchable(Object(ns), cs) && Map(ns, cs) == Map(ms, cs)[Fold(ms[i].key, cs) := View(c, cs)]
  {
    PatchableKeyed(Object(ms), cs);
    PatchableKeyed(c, cs);
    MapUpdate(ms, ns, i, c, cs);
  }

  /** Under the key of a member: the patched value becomes the value of the key. */
  lemma {:induction false} LiftMember(ms: seq<Member>, key: string, i: nat, r: Rel, c: Json, cs: bool)
    returns (ns: seq<Member>, k: nat)
    requires Patchable(Object(ms), cs) && GoodKey(key, cs) && i < |ms| && Fold(ms[i].key, cs) == Fold(key, cs)
    requires Proper(r)
    requires ApplyRel(ms[i].value, r, cs) == Outcome(0, c) && Patchable(c, cs)
    ensures ApplyRel(Object(ms), Lift(Encode(key), r), cs) == Outcome(0, Object(ns)) && Patchable(Object(ns), cs)
    ensures k < |ns| && Fold(ns[k].key, cs) == Fold(key, cs) && ns[k].value == c
    ensures Map(ns, cs) == Map(ms, cs)[Fold(key, cs) := View(c, cs)]
  {
    if |r.tokens| == 0 {
      assert [Encode(key)] + r.tokens == [Encode(key)];
      InMap(ms, i, cs);
      var rest := ReplaceMember(ms, key, c, cs);
      ns, k := rest + [Member(key, c)], |rest|;
    } else {
      EncodedSlashFree(key, |key|);
      StepToKey(ms, key, i, cs);
      LiftApply(Object(ms), Encode(key), i, r, cs);
      ns, k := ms[i := Member(ms[i].key, c)], i;
      ChangeMember(ms, ns, i, c, cs);
    }
  }

  lemma {:induction false} StepToKey(ms: seq<Member>, key: string, i: nat, cs: bool)
    requires Distinct(ms, cs) && i < |ms| && Fold(ms[i].key, cs) == Fold(key, cs)
    ensures Step(Object(ms), Encode(key), cs) == Some(i)
  {
    var r := FindToken(ms, Encode(key), cs, 0);
    MatchEncoded(ms[i].key, key, cs);
    if r < |ms| {
      MatchEncoded(ms[r].key, key, cs);
    }
  }

  lemma {:induction false} DetachItem(items: seq<Json>, i: nat, cs: bool)
    requires i < |items| < SIZE_LIMIT
    ensures Perform(Array(items), Detach(Decimal(i)), cs) == Outcome(0, Array(Without(items, i)))
  {
    DecodeDecimal(i);
    DecimalSurvives(i);
  }

  lemma {:induction false} PutItem(items: seq<Json>, i: nat, c: Json, cs: bool)
    requires i <= |items| < SIZE_LIMIT
    ensures Perform(Array(items), Put(Decimal(i), c), cs) == Outcome(0, Array(items[..i] + [c] + items[i..]))
  {
    DecodeDecimal(i);
    DecimalSurvives(i);
    assert Decimal(i)[0] != '-';
  }

  lemma {:induction false} OutAndIn<T>(items: seq<T>, i: nat, c: T)
    requires i < |items|
    ensures Without(items, i)[..i] + [c] + Without(items, i)[i..] == items[i := c]
  {
  }

  lemma {:induction false} ReplaceItem(items: seq<Json>, i: nat, c: Json, cs: bool)
    requires i < |items| < SIZE_LIMIT
    ensures ApplyRel(Array(items), Rel(Replace, [Decimal(i)], Some(c)), cs) == Outcome(0, Array(items[i := c]))
  {
    DecimalSlashFree(i);
    ApplyHere(Array(items), Decimal(i), c, cs);
    DetachItem(items, i, cs);
    var rest := Without(items, i);
    ApplyHere(Array(rest), Decimal(i), c, cs);
    PutItem(rest, i, c, cs);
    OutAndIn(items, i, c);
  }

  /** Under the index of an item: the patched value becomes the item. */
  lemma {:induction false} LiftItem(items: seq<Json>, i: nat, r: Rel, c: Json, cs: bool)
    requires i < |items| < SIZE_LIMIT && Proper(r)
    requires ApplyRel(items[i], r, cs) == Outcome(0, c)
    ensures ApplyRel(Array(items), Lift(Decimal(i), r), cs) == Outcome(0, Array(items[i := c]))
  {
    if |r.tokens| == 0 {
      assert [Decimal(i)] + r.tokens == [Decimal(i)];
      ReplaceItem(items, i, c, cs);
    } else {
      DecimalSlashFree(i);
      DecodeDecimal(i);
      LiftApply(Array(items), Decimal(i), i, r, cs);
    }
  }

  lemma {:induction false} DecimalSurvives(i: nat)
    ensures Decoded(Decimal(i)) == Decimal(i)
  {
    var key := Decimal(i);
    DecimalSlashFree(i);
    PlainKeysSurvive(key);
    PlainEncoded(key, |key|);
    assert key[..|key|] == key;
  }

  // ----- runs -----

  function Iterate<S, E>(s: S, es: seq<E>, n: nat, next: (S, E) -> Option<S>): Option<S>
    requires n <= |es|
  {
    if n == 0 then Some(s)
    else match Iterate(s, es, n - 1, next)
      case None => None
      case Some(before) => next(before, es[n - 1])
  }

  lemma {:induction false} IteratePrefix<S, E>(s: S, es: seq<E>, fs: seq<E>, n: nat, next: (S, E) -> Option<S>)
    requires n <= |es|
    ensures Iterate(s, es + fs, n, next) == Iterate(s, es, n, next)
  {
    if n > 0 {
      IteratePrefix(s, es, fs, n - 1, next);
    }
  }

  lemma {:induction false} IterateAppend<S, E>(s: S, es: seq<E>, fs: seq<E>, n: nat, next: (S, E) -> Option<S>)
    requires n <= |fs| && Iterate(s, es, |es|, next).Some?
    ensures Iterate(s, es + fs, |es| + n, next) == Iterate(Iterate(s, es, |es|, next).value, fs, n, next)
  {
    if n == 0 {
      IteratePrefix(s, es, fs, |es|, next);
    } else {
      IterateAppend(s, es, fs, n - 1, next);
    }
  }

  /** One patch, if it succeeds and leaves a patchable document. */
  function Next(j: Json, r: Rel, cs: bool): Option<Json> {
    var o := ApplyRel(j, r, cs);
    if o.status == 0 && Patchable(o.doc, cs) then Some(o.doc) else None
  }

  function Nexts(cs: bool): (Json, Rel) -> Option<Json> {
    (j, r) => Next(j, r, cs)
  }

  /** The document after all the patches. */
  function Run(j: Json, rs: seq<Rel>, cs: bool): Option<Json> {
    Iterate(j, rs, |rs|, Nexts(cs))
  }

  /** The patches turn every patchable document with view `d` into one with view `e`. */
  ghost predicate Turns(rs: seq<Rel>, d: Doc, e: Doc, cs: bool) {
    && (forall i :: 0 <= i < |rs| ==> Proper(rs[i]))
    && (forall j :: Patchable(j, cs) && View(j, cs) == d ==> Reaches(Run(j, rs, cs), e, cs))
  }

  ghost predicate Reaches(o: Option<Json>, e: Doc, cs: bool) {
    o.Some? && Patchable(o.value, cs) && View(o.value, cs) == e
  }

  lemma {:induction false} TurnsNothing(d: Doc, cs: bool)
    ensures Turns([], d, d, cs)
  {
  }

  /** One list of patches after another. */
  lemma {:induction false} TurnsThen(rs: seq<Rel>, ss: seq<Rel>, d: Doc, e: Doc, f: Doc, cs: bool)
    requires Turns(rs, d, e, cs) && Turns(ss, e, f, cs)
    ensures Turns(rs + ss, d, f, cs)
  {
    forall j | Patchable(j, cs) && View(j, cs) == d ensures Reaches(Run(j, rs + ss, cs), f, cs) {
      var k := Run(j, rs, cs);
      assert Reaches(k, e, cs);
      assert Reaches(Run(k.value, ss, cs), f, cs);
      IterateAppend(j, rs, ss, |ss|, Nexts(cs));
    }
  }

  /** A single patch. */
  lemma {:induction false} RunOne(j: Json, r: Rel, c: Json, cs: bool)
    requires ApplyRel(j, r, cs) == Outcome(0, c) && Patchable(c, cs)
    ensures Run(j, [r], cs) == Some(c)
  {
    assert Next(j, r, cs) == Some(c);
    assert Nexts(cs)(j, r) == Some(c);
    assert Iterate(j, [r], 0, Nexts(cs)) == Some(j);
  }

  lemma {:induction false} TurnsReplace(value: Json, d: Doc, cs: bool)
    requires Patchable(value, cs)
    ensures Turns([Rel(Replace, [], Some(value))], d, View(value, cs), cs)
  {
    var r := Rel(Replace, [], Some(value));
    forall j | Patchable(j, cs) && View(j, cs) == d ensures Run(j, [r], cs) == Some(value) {
      RunOne(j, r, value, cs);
    }
  }

  lemma {:induction false} TurnsRemove(key: string, f: map<string, Doc>, cs: bool)
    requires GoodKey(key, cs) && Fold(key, cs) in f
    ensures Turns([Rel(Remove, [Encode(key)], None)], Record(f), Record(f - {Fold(key, cs)}), cs)
  {
    var r := Rel(Remove, [Encode(key)], None);
    EncodedSlashFree(key, |key|);
    forall j | Patchable(j, cs) && View(j, cs) == Record(f)
      ensures Reaches(Run(j, [r], cs), Record(f - {Fold(key, cs)}), cs)
    {
      ApplyHere(j, Encode(key), Null, cs);
      DetachMember(j.members, key, cs);
      RunOne(j, r, ApplyRel(j, r, cs).doc, cs);
    }
  }

  lemma {:induction false} TurnsAdd(key: string, value: Json, f: map<string, Doc>, cs: bool)
    requires GoodKey(key, cs) && Patchable(value, cs)
    ensures Turns([Rel(Add, [Encode(key)], Some(value))], Record(f), Record(f[Fold(key, cs) := View(value, cs)]), cs)
  {
    var r := Rel(Add, [Encode(key)], Some(value));
    EncodedSlashFree(key, |key|);
    forall j | Patchable(j, cs) && View(j, cs) == Record(f)
      ensures Reaches(Run(j, [r], cs), Record(f[Fold(key, cs) := View(value, cs)]), cs)
    {
      ApplyHere(j, Encode(key), value, cs);
      PutMember(j.members, key, value, cs);
      RunOne(j, r, ApplyRel(j, r, cs).doc, cs);
    }
  }

  lemma {:induction false} ViewWithout(items: seq<Json>, n: nat, cs: bool)
    requires n < |items| && Patchable(Array(items), cs)
    ensures Patchable(Array(Without(items, n)), cs)
    ensures View(Array(Without(items, n)), cs).docs == Without(View(Array(items), cs).docs, n)
  {
    var rest := Without(items, n);
    forall x | 0 <= x < |rest| ensures Patchable(rest[x], cs) && View(rest[x], cs)
        == Without(View(Array(items), cs).docs, n)[x] {
      assert rest[x] == items[if x < n then x else x + 1];
    }
  }

  lemma {:induction false} ViewPushed(items: seq<Json>, value: Json, cs: bool)
    requires Patchable(Array(items), cs) && Patchable(value, cs) && |items| + 1 < SIZE_LIMIT
    ensures Patchable(Array(items + [value]), cs)
    ensures View(Array(items + [value]), cs).docs == View(Array(items), cs).docs + [View(value, cs)]
  {
  }

  lemma {:induction false} TurnsPop(xs: seq<Doc>, n: nat, cs: bool)
    requires n < |xs|
    ensures Turns([Rel(Remove, [Decimal(n)], None)], List(xs), List(Without(xs, n)), cs)
  {
    var r := Rel(Remove, [Decimal(n)], None);
    DecimalSlashFree(n);
    forall j | Patchable(j, cs) && View(j, cs) == List(xs)
      ensures Reaches(Run(j, [r], cs), List(Without(xs, n)), cs)
    {
      ApplyHere(j, Decimal(n), Null, cs);
      DetachItem(j.items, n, cs);
      ViewWithout(j.items, n, cs);
      RunOne(j, r, Array(Without(j.items, n)), cs);
    }
  }

  lemma {:induction false} TurnsPush(xs: seq<Doc>, value: Json, cs: bool)
    requires Patchable(value, cs) && |xs| + 1 < SIZE_LIMIT
    ensures Turns([Rel(Add, ["-"], Some(value))], List(xs), List(xs + [View(value, cs)]), cs)
  {
    var r := Rel(Add, ["-"], Some(value));
    assert Decoded("-") == "-";
    forall j | Patchable(j, cs) && View(j, cs) == List(xs)
      ensures Reaches(Run(j, [r], cs), List(xs + [View(value, cs)]), cs)
    {
      ApplyHere(j, "-", value, cs);
      ViewPushed(j.items, value, cs);
      RunOne(j, r, Array(j.items + [value]), cs);
    }
  }

  // ----- patches of a child -----

  function LiftAll(t: string, rs: seq<Rel>): (ss: seq<Rel>)
    ensures |ss| == |rs| && forall i :: 0 <= i < |rs| ==> ss[i] == Lift(t, rs[i])
  {
    seq(|rs|, i requires 0 <= i < |rs| => Lift(t, rs[i]))
  }

  lemma {:induction false} LiftProper(t: string, rs: seq<Rel>)
    requires '/' !in t && forall i :: 0 <= i < |rs| ==> Proper(rs[i])
    ensures forall i :: 0 <= i < |rs| ==> Proper(LiftAll(t, rs)[i])
  {
    forall i | 0 <= i < |rs| ensures Proper(LiftAll(t, rs)[i]) {
      assert Proper(rs[i]);
    }
  }

  /** The last step of a run. */
  lemma {:induction false} LastStep(j: Json, rs: seq<Rel>, n: nat, cs: bool) returns (before: Json, after: Json)
    requires 0 < n <= |rs| && Iterate(j, rs, n, Nexts(cs)).Some?
    ensures Iterate(j, rs, n - 1, Nexts(cs)) == Some(before) && Iterate(j, rs, n, Nexts(cs)) == Some(after)
    ensures ApplyRel(before, rs[n - 1], cs) == Outcome(0, after) && Patchable(after, cs) == true
  {
    before, after := Iterate(j, rs, n - 1, Nexts(cs)).value, Iterate(j, rs, n, Nexts(cs)).value;
    assert Nexts(cs)(before, rs[n - 1]) == Next(before, rs[n - 1], cs);
  }

  lemma {:induction false} OneMore(j: Json, rs: seq<Rel>, n: nat, before: Json, after: Json, cs: bool)
    requires 0 < n <= |rs| && Iterate(j, rs, n - 1, Nexts(cs)) == Some(before)
    requires ApplyRel(before, rs[n - 1], cs) == Outcome(0, after) && Patchable(after, cs)
    ensures Iterate(j, rs, n, Nexts(cs)) == Some(after)
  {
    assert Nexts(cs)(before, rs[n - 1]) == Next(before, rs[n - 1], cs);
  }

  /** One more patch of the value of a key. */
  lemma {:induction false} RunMemberMore(j: Json, bs: seq<Member>, b: nat, key: string, rs: seq<Rel>, n: nat,
      after: Json, f: map<string, Doc>, cs: bool)
    returns (ns: seq<Member>, k: nat)
    requires Patchable(Object(bs), cs) == true && GoodKey(key, cs) && b < |bs| && Fold(bs[b].key, cs) == Fold(key, cs)
    requires 0 < n <= |rs| && Proper(rs[n - 1]) && ApplyRel(bs[b].value, rs[n - 1], cs) == Outcome(0, after)
    requires Patchable(after, cs) == true
    requires Iterate(j, LiftAll(Encode(key), rs), n - 1, Nexts(cs)) == Some(Object(bs))
    requires Map(bs, cs) == f[Fold(key, cs) := View(bs[b].value, cs)]
    ensures Iterate(j, LiftAll(Encode(key), rs), n, Nexts(cs)) == Some(Object(ns)) && Patchable(Object(ns), cs) == true
    ensures k < |ns| && Fold(ns[k].key, cs) == Fold(key, cs) && ns[k].value == after
    ensures Map(ns, cs) == f[Fold(key, cs) := View(after, cs)]
  {
    ns, k := LiftMember(bs, key, b, rs[n - 1], after, cs);
    OneMore(j, LiftAll(Encode(key), rs), n, Object(bs), Object(ns), cs);
    SetTwice(f, Fold(key, cs), View(bs[b].value, cs), View(after, cs));
  }

  lemma {:induction false} RunMember(ms: seq<Member>, key: string, i: nat, rs: seq<Rel>, n: nat, cs: bool)
    returns (ns: seq<Member>, k: nat)
    requires Patchable(Object(ms), cs) == true && GoodKey(key, cs) && i < |ms| && Fold(ms[i].key, cs) == Fold(key, cs)
    requires n <= |rs| && (forall x :: 0 <= x < |rs| ==> Proper(rs[x])) && Iterate(ms[i].value, rs, n, Nexts(cs)).Some?
    ensures Iterate(Object(ms), LiftAll(Encode(key), rs), n, Nexts(cs)) == Some(Object(ns))
    ensures Patchable(Object(ns), cs) == true
    ensures k < |ns| && Fold(ns[k].key, cs) == Fold(key, cs)
    ensures Iterate(ms[i].value, rs, n, Nexts(cs)) == Some(ns[k].value)
    ensures Map(ns, cs) == Map(ms, cs)[Fold(key, cs) := View(ns[k].value, cs)]
  {
    if n == 0 {
      ns, k := ms, i;
      InMap(ms, i, cs);
    } else {
      var before, after := LastStep(ms[i].value, rs, n, cs);
      var bs, b := RunMember(ms, key, i, rs, n - 1, cs);
      ns, k := RunMemberMore(Object(ms), bs, b, key, rs, n, after, Map(ms, cs), cs);
    }
  }

  lemma {:induction false} SetTwice(f: map<string, Doc>, k: string, v: Doc, w: Doc)
    ensures f[k := v][k := w] == f[k := w]
  {
  }

  /** Patches of the value of a key, as patches of the object. */
  lemma {:induction false} TurnsMember(key: string, rs: seq<Rel>, f: map<string, Doc>, e: Doc, cs: bool)
    requires GoodKey(key, cs) && Fold(key, cs) in f && Turns(rs, f[Fold(key, cs)], e, cs)
    ensures Turns(LiftAll(Encode(key), rs), Record(f), Record(f[Fold(key, cs) := e]), cs)
  {
    var ss := LiftAll(Encode(key), rs);
    EncodedSlashFree(key, |key|);
    LiftProper(Encode(key), rs);
    forall j | Patchable(j, cs) && View(j, cs)
        == Record(f) ensures Reaches(Run(j, ss, cs), Record(f[Fold(key, cs) := e]), cs) {
      var i := FromMap(j.members, Fold(key, cs), cs);
      assert Reaches(Run(j.members[i].value, rs, cs), e, cs);
      var ns, k := RunMember(j.members, key, i, rs, |rs|, cs);
    }
  }

  lemma {:induction false} RunItem(items: seq<Json>, i: nat, rs: seq<Rel>, n: nat, cs: bool) returns (c: Json)
    requires Patchable(Array(items), cs) && i < |items|
    requires n <= |rs| && (forall x :: 0 <= x < |rs| ==> Proper(rs[x])) && Iterate(items[i], rs, n, Nexts(cs)).Some?
    ensures Iterate(items[i], rs, n, Nexts(cs)) == Some(c) && Patchable(c, cs) && Patchable(Array(items[i := c]), cs)
    ensures Iterate(Array(items), LiftAll(Decimal(i), rs), n, Nexts(cs)) == Some(Array(items[i := c]))
  {
    if n == 0 {
      c := items[i];
      assert items[i := items[i]] == items;
    } else {
      var before, after := LastStep(items[i], rs, n, cs);
      c := RunItem(items, i, rs, n - 1, cs);
      LiftItem(items[i := before], i, rs[n - 1], after, cs);
      assert items[i := before][i := after] == items[i := after];
      OneMore(Array(items), LiftAll(Decimal(i), rs), n, Array(items[i := before]), Array(items[i := after]), cs);
      c := after;
    }
  }

  /** Patches of an item, as patches of the array. */
  lemma {:induction false} TurnsItem(xs: seq<Doc>, i: nat, rs: seq<Rel>, e: Doc, cs: bool)
    requires i < |xs| && Turns(rs, xs[i], e, cs)
    ensures Turns(LiftAll(Decimal(i), rs), List(xs), List(xs[i := e]), cs)
  {
    var ss := LiftAll(Decimal(i), rs);
    DecimalSlashFree(i);
    LiftProper(Decimal(i), rs);
    forall j | Patchable(j, cs) && View(j, cs) == List(xs) ensures Reaches(Run(j, ss, cs), List(xs[i := e]), cs) {
      assert View(j.items[i], cs) == xs[i];
      assert Reaches(Run(j.items[i], rs, cs), e, cs);
      var c := RunItem(j.items, i, rs, |rs|, cs);
      assert View(Array(j.items[i := c]), cs).docs == xs[i := e];
    }
  }
}
