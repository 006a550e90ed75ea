/** How the operations of `apply_patch` (apps/cjson/cJSON_Utils.c:807-1036) fit together: what has been
    added is found by the test operation, and a move takes the very item that its pointer names. */
module JsonPatchLaws {
  import opened Basics
  import opened Json
  import opened JsonView
  import opened JsonCompare
  import opened JsonPointer
  import opened JsonPatch
  import opened JsonTurns
  import opened JsonDiff

  /** One more token at the end. */
  lemma {:induction false} NodeSnoc(j: Json, front: seq<string>, t: string, k: nat, cs: bool)
    requires k <= |front|
    ensures NodeAt(j, front + [t], k, cs) == match NodeAt(j, front, k, cs)
      case None => None
      case Some(p) => (match Step(p, t, cs) case None => None case Some(i) => Some(Child(p, i)))
    decreases |front| - k
  {
    var all := front + [t];
    if k < |front| {
      assert all[k] == front[k];
      if Step(j, all[k], cs).Some? {
        NodeSnoc(Child(j, Step(j, all[k], cs).value), front, t, k + 1, cs);
      }
    } else {
      assert all[k] == t;
      if Step(j, t, cs).Some? {
        assert NodeAt(Child(j, Step(j, t, cs).value), all, k + 1, cs) == Some(Child(j, Step(j, t, cs).value));
      }
    }
  }

  lemma {:induction false} NodePatchable(j: Json, tokens: seq<string>, k: nat, cs: bool)
    requires Patchable(j, cs) && k <= |tokens| && NodeAt(j, tokens, k, cs).Some?
    ensures Patchable(NodeAt(j, tokens, k, cs).value, cs)
    decreases |tokens| - k
  {
    if k < |tokens| {
      NodePatchable(Child(j, Step(j, tokens[k], cs).value), tokens, k + 1, cs);
    }
  }

  /** After an edit the way to the edited node is the same, and there it is. */
  lemma {:induction false} EditThenFind(j: Json, front: seq<string>, k: nat, e: Edit, cs: bool)
    requires k <= |front| && NodeAt(j, front, k, cs).Some?
    ensures var o := Perform(NodeAt(j, front, k, cs).value, e, cs);
      EditAt(j, front, k, e, cs).status == o.status && NodeAt(EditAt(j, front, k, e, cs).doc, front, k, cs)
          == Some(o.doc)
    decreases |front| - k
  {
    if k < |front| {
      var i := Step(j, front[k], cs).value;
      EditThenFind(Child(j, i), front, k + 1, e, cs);
      var c := EditAt(Child(j, i), front, k + 1, e, cs).doc;
      StepAgain(j, front[k], i, c, c, cs);
    }
  }

  /** A place where a value can be put: a key of an object, or an index of an array that is not past its end. */
  ghost predicate Place(p: Json, t: string, cs: bool) {
    match p
    case Object(_) => exists key :: GoodKey(key, cs) && t == Encode(key)
    case Array(items) => exists i: nat :: i <= |items| && t == Decimal(i)
    case _ => false
  }

  lemma {:induction false} PutThenStep(p: Json, t: string, v: Json, cs: bool)
    requires Patchable(p, cs) && Patchable(v, cs) && Place(p, t, cs)
    ensures var o := Perform(p, Put(t, v), cs);
      o.status == 0 && Step(o.doc, t, cs).Some? && Child(o.doc, Step(o.doc, t, cs).value) == v
  {
    if p.Object? {
      var key :| GoodKey(key, cs) && t == Encode(key);
      PutMember(p.members, key, v, cs);
      var ms := Perform(p, Put(t, v), cs).doc.members;
      PatchableKeyed(Object(ms), cs);
      assert ms[|ms| - 1] == Member(key, v);
      StepToKey(ms, key, |ms| - 1, cs);
    } else {
      var i: nat :| i <= |p.items| && t == Decimal(i);
      PutItem(p.items, i, v, cs);
      DecodeDecimal(i);
      var items := p.items[..i] + [v] + p.items[i..];
      assert Perform(p, Put(t, v), cs).doc == Array(items) && items[i] == v;
    }
  }

  lemma {:induction false} PlaceSlashFree(p: Json, t: string, cs: bool)
    requires Place(p, t, cs)
    ensures '/' !in t
  {
    if p.Object? {
      var key :| GoodKey(key, cs) && t == Encode(key);
      EncodedSlashFree(key, |key|);
    } else {
      var i: nat :| i <= |p.items| && t == Decimal(i);
      DecimalSlashFree(i);
    }
  }

  /** Adding a value at a place succeeds, and the test operation then finds it there. */
  lemma {:induction false} AddThenTest(j: Json, front: seq<string>, t: string, v: Json, cs: bool)
    requires Patchable(j, cs) && Patchable(v, cs) && SlashFree(front)
    requires NodeAt(j, front, 0, cs).Some? && Place(NodeAt(j, front, 0, cs).value, t, cs)
    ensures var path := Text(front + [t], 0);
      var o := Apply(j, Add, path, Some(v), cs);
      o.status == 0 && ItemAt(o.doc, path, cs) == Some(v) && Passes(o.doc, path, Some(v), cs)
  {
    var p := NodeAt(j, front, 0, cs).value;
    var tokens := front + [t];
    PlaceSlashFree(p, t, cs);
    NodePatchable(j, front, 0, cs);
    PutThenStep(p, t, v, cs);
    EditThenFind(j, front, 0, Put(t, v), cs);
    PathEdits(j, tokens, |front|, v, cs);
    assert tokens[..|front|] == front;
    var after := Apply(j, Add, Text(tokens, 0), Some(v), cs).doc;
    NodeSnoc(after, front, t, 0, cs);
    ItemAtText(after, tokens, cs);
    NearReflexive(View(v, cs));
  }

  /** A copied value is found by the test operation where it was copied to. */
  lemma {:induction false} CopyThenTest(j: Json, from: string, front: seq<string>, t: string, cs: bool)
    requires Patchable(j, cs) && SlashFree(front) && ItemAt(j, from, cs).Some?
    requires NodeAt(j, front, 0, cs).Some? && Place(NodeAt(j, front, 0, cs).value, t, cs)
    ensures var path := Text(front + [t], 0);
      var o := Carry(j, false, path, Some(Str(from)), cs);
      o.status == 0 && Passes(o.doc, path, ItemAt(j, from, cs), cs)
  {
    NodePatchable(j, Tokens(from, 0), 0, cs);
    var v := ItemAt(j, from, cs).value;
    AddThenTest(j, front, t, v, cs);
    TextSnoc(front + [t], |front|, 0);
    assert Text(front + [t], 0) != "";
  }

  /** A place that holds something. */
  ghost predicate Filled(p: Json, t: string, cs: bool) {
    match p
    case Object(ms) => exists key :: GoodKey(key, cs) && t == Encode(key) && Fold(key, cs) in Map(ms, cs)
    case Array(items) => exists i: nat :: i < |items| && t == Decimal(i)
    case _ => false
  }

  lemma {:induction false} TakenAtStep(p: Json, t: string, cs: bool)
    requires Patchable(p, cs) && Filled(p, t, cs)
    ensures Step(p, t, cs).Some? && TakenChild(p, Decoded(t)) == Some(Child(p, Step(p, t, cs).value)) && '/' !in t
  {
    if p.Object? {
      var key :| GoodKey(key, cs) && t == Encode(key) && Fold(key, cs) in Map(p.members, cs);
      EncodedSlashFree(key, |key|);
      PatchableKeyed(p, cs);
      SameFind(p.members, key, cs);
      FindInMap(p.members, key, cs);
      FindFromFirst(p.members, key, cs, 0);
      StepToKey(p.members, key, Find(p.members, key, cs), cs);
    } else {
      var i: nat :| i < |p.items| && t == Decimal(i);
      DecimalSlashFree(i);
      DecodeDecimal(i);
      DecimalSurvives(i);
    }
  }

  /** A move takes out the very item that its pointer names, although it looks keys up without regard to case. */
  lemma {:induction false} MoveTakesItem(j: Json, front: seq<string>, t: string, cs: bool)
    requires Patchable(j, cs) && SlashFree(front) && NodeAt(j, front, 0, cs).Some?
    requires Filled(NodeAt(j, front, 0, cs).value, t, cs)
    ensures var from := Text(front + [t], 0);
      TakenPath(j, from, cs).Some? && TakenPath(j, from, cs) == ItemAt(j, from, cs) && DetachPath(j, from, cs).status
          == 0
  {
    var p, tokens := NodeAt(j, front, 0, cs).value, front + [t];
    NodePatchable(j, front, 0, cs);
    TakenAtStep(p, t, cs);
    NodeSnoc(j, front, t, 0, cs);
    ItemAtText(j, tokens, cs);
    TakenAtText(j, front, t, cs);
    TakenWhenDetached(j, Text(tokens, 0), cs);
  }

  lemma {:induction false} ItemAtText(j: Json, tokens: seq<string>, cs: bool)
    requires SlashFree(tokens)
    ensures ItemAt(j, Text(tokens, 0), cs) == NodeAt(j, tokens, 0, cs)
  {
    TokensOfText("", tokens, 0, Text(tokens, 0));
    assert "" + Text(tokens, 0) == Text(tokens, 0) && tokens[0..] == tokens;
  }

  lemma {:induction false} TakenAtText(j: Json, front: seq<string>, t: string, cs: bool)
    requires SlashFree(front) && '/' !in t
    ensures TakenPath(j, Text(front + [t], 0), cs) == match NodeAt(j, front, 0, cs)
      case None => None
      case Some(p) => TakenChild(p, Decoded(t))
  {
    var tokens := front + [t];
    LastToken(tokens, |front|);
    assert tokens[..|front|] == front;
  }

  /** The test operation as it is carried out: a lookup and a comparison. */
  method RunTest(j: Json, path: string, value: Option<Json>, cs: bool) returns (status: nat)
    requires Keyed(j, cs) && (value.Some? ==> Keyed(value.value, cs))
    ensures status == if Passes(j, path, value, cs) then 0 else 1
  {
    var item := ItemAt(j, path, cs);
    if item.None? || value.None? {
      return 1;
    }
    NodeKeyed(j, Tokens(path, 0), 0, cs);
    var same := CompareJson(item.value, value.value, cs);
    status := if same then 0 else 1;
  }

  lemma {:induction false} NodeKeyed(j: Json, tokens: seq<string>, k: nat, cs: bool)
    requires Keyed(j, cs) && k <= |tokens| && NodeAt(j, tokens, k, cs).Some?
    ensures Keyed(NodeAt(j, tokens, k, cs).value, cs)
    decreases |tokens| - k
  {
    if k < |tokens| {
      NodeKeyed(Child(j, Step(j, tokens[k], cs).value), tokens, k + 1, cs);
    }
  }
}
