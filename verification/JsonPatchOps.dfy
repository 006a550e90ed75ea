/** `apply_patch` (apps/cjson/cJSON_Utils.c:807-1036) on any patch object, operation by operation: the status that it
    returns, said without the code, and what a copy, a test and the operations on the root do. */
module JsonPatchOps {
  import opened Basics
  import opened Json
  import opened JsonView
  import opened JsonPointer
  import opened JsonPatch
  import opened JsonTurns
  import opened JsonPatchLaws
  import opened JsonPatchFailure
  import opened JsonPlain

  // ----- the status -----

  /** The operation, path, value and origin that a patch names, each if it is there. */
  datatype Asked = Asked(op: Option<Json>, path: Option<Json>, value: Option<Json>, from: Option<Json>)

  function AskedOf(patch: Json, cs: bool): Asked {
    Asked(GetItem(patch, "op", cs), GetItem(patch, "path", cs), GetItem(patch, "value", cs), GetItem(patch, "from", cs))
  }

  /** A patch is what it names: members besides those four, and their order, do not matter. */
  lemma {:induction false} OnlyFourMembers(j: Json, p: Json, p': Json, cs: bool)
    requires AskedOf(p, cs) == AskedOf(p', cs)
    ensures ApplyPatch(j, p, cs) == ApplyPatch(j, p', cs)
  {
  }

  /** The parent that a path names, and the name of the child in it. */
  function Target(j: Json, path: string, cs: bool): Option<(Json, string)> {
    match LastSlash(path, |path|)
    case None => None
    case Some(k) =>
      match ItemAt(j, path[..k], cs)
      case None => None
      case Some(p) => Some((p, Decoded(path[k + 1..])))
  }

  /** An index ends at a '/', which decoding can put into a child: "1~1x" is decoded to "1~/" and read as 88. */
  lemma {:induction false} IndexStops(a: string, b: string)
    requires '/' !in a
    ensures IndexIn(a + "/" + b) == DecodeIndex(a)
  {
    var name := a + "/" + b;
    assert name[|a|] == '/' && forall k :: 0 <= k < |a| ==> name[k] == a[k];
    assert Slash(name, 0) == |a|;
    assert name[..|a|] == a;
  }

  /** The status of putting a child into something: 9 if it is no container, 11 for an index that is none, 10 for
      one past the end. */
  function PutInto(p: Json, name: string): nat {
    if p.Object? || (p.Array? && name == "-") then 0
    else if !p.Array? then 9
    else if IndexIn(name).None? then 11
    else if IndexIn(name).value > |p.items| then 10
    else 0
  }

  /** The status of putting something at a path: 9 if there is nothing to put it into. */
  function PutStatus(j: Json, path: string, cs: bool): nat {
    match Target(j, path, cs)
    case None => 9
    case Some(t) => PutInto(t.0, t.1)
  }

  lemma {:induction false} PutIntoExactly(p: Json, name: string, value: Json, cs: bool)
    ensures PutChild(p, name, value, cs).status == PutInto(p, name)
  {
  }

  lemma {:induction false} PutStatusExactly(j: Json, path: string, value: Json, cs: bool)
    ensures PutPath(j, path, value, cs).status == PutStatus(j, path, cs)
  {
    match LastSlash(path, |path|) {
      case None =>
      case Some(k) =>
        var tokens, e := Tokens(path[..k], 0), Put(path[k + 1..], value);
        EditReaches(j, tokens, 0, e, cs);
        var p := NodeAt(j, tokens, 0, cs);
        if p.Some? {
          PutIntoExactly(p.value, Decoded(path[k + 1..]), value, cs);
        }
    }
  }

  /** There is something at a path that can be taken out. */
  predicate There(j: Json, path: string, cs: bool) {
    match Target(j, path, cs)
    case None => false
    case Some(t) => TakenChild(t.0, t.1).Some?
  }

  lemma {:induction false} ThereExactly(j: Json, path: string, cs: bool)
    ensures There(j, path, cs) <==> TakenPath(j, path, cs).Some?
    ensures DetachPath(j, path, cs).status == if There(j, path, cs) then 0 else 13
  {
    TakenWhenDetached(j, path, cs);
  }

  /** The status of adding, removing and replacing. */
  function EditStatus(j: Json, op: Op, path: string, valued: bool, cs: bool): nat {
    if path == "" then (if op.Remove? || valued then 0 else 7)
    else if !op.Add? && !There(j, path, cs) then 13
    else if op.Remove? then 0
    else if !valued then 7
    else if op.Add? then PutStatus(j, path, cs)
    else 0
  }

  lemma {:induction false} EditStatusExactly(j: Json, op: Op, path: string, value: Option<Json>, cs: bool)
    ensures Apply(j, op, path, value, cs).status == EditStatus(j, op, path, value.Some?, cs)
  {
    ThereExactly(j, path, cs);
    if value.Some? && op.Add? {
      PutStatusExactly(j, path, value.value, cs);
    }
    if path != "" && op.Replace? && value.Some? && There(j, path, cs) {
      TakenIsOpen(j, path, cs);
      PutExactly(DetachPath(j, path, cs).doc, path, value.value, cs);
    }
  }

  /** The status of moving and copying. */
  function CarryStatus(j: Json, move: bool, path: string, from: Option<Json>, cs: bool): nat {
    if from.None? then 4
    else if !from.value.Str? then 5
    else if move then
      if There(j, from.value.text, cs) then PutStatus(DetachPath(j, from.value.text, cs).doc, path, cs) else 5
    else if ItemAt(j, from.value.text, cs).Some? then PutStatus(j, path, cs) else 5
  }

  lemma {:induction false} CarryStatusExactly(j: Json, move: bool, path: string, from: Option<Json>, cs: bool)
    ensures Carry(j, move, path, from, cs).status == CarryStatus(j, move, path, from, cs)
  {
    if from.Some? && from.value.Str? {
      var text := from.value.text;
      ThereExactly(j, text, cs);
      var value := if move then TakenPath(j, text, cs) else ItemAt(j, text, cs);
      if value.Some? {
        PutStatusExactly(if move then DetachPath(j, text, cs).doc else j, path, value.value, cs);
      }
    }
  }

  /** The status of a patch. */
  ghost function Status(j: Json, a: Asked, cs: bool): nat {
    if a.path.None? || !a.path.value.Str? then 2
    else
      var path := a.path.value.text;
      if a.op == Some(Str("add")) then EditStatus(j, Add, path, a.value.Some?, cs)
      else if a.op == Some(Str("remove")) then EditStatus(j, Remove, path, a.value.Some?, cs)
      else if a.op == Some(Str("replace")) then EditStatus(j, Replace, path, a.value.Some?, cs)
      else if a.op == Some(Str("move")) then CarryStatus(j, true, path, a.from, cs)
      else if a.op == Some(Str("copy")) then CarryStatus(j, false, path, a.from, cs)
      else if a.op == Some(Str("test")) then TestStatus(ItemAt(j, path, cs), a.value, cs)
      else 3
  }

  /** A test passes if there is an item and a value and the two compare equal. */
  predicate Equal(item: Option<Json>, value: Option<Json>, cs: bool) {
    item.Some? && value.Some? && Near(View(item.value, cs), View(value.value, cs))
  }

  function TestStatus(item: Option<Json>, value: Option<Json>, cs: bool): nat {
    if Equal(item, value, cs) then 0 else 1
  }

  /** Every patch returns the status that the table says. */
  lemma {:induction false} StatusExactly(j: Json, patch: Json, cs: bool)
    ensures ApplyPatch(j, patch, cs).status == Status(j, AskedOf(patch, cs), cs)
  {
    var a := AskedOf(patch, cs);
    if a.path.Some? && a.path.value.Str? {
      var path := a.path.value.text;
      assert |"add"| == 3 && |"remove"| == 6 && |"replace"| == 7 && |"move"| == |"copy"| == |"test"| == 4;
      assert "move"[0] == 'm' && "copy"[0] == 'c' && "test"[0] == 't';
      if a.op == Some(Str("add")) {
        EditStatusExactly(j, Add, path, a.value, cs);
      } else if a.op == Some(Str("remove")) {
        EditStatusExactly(j, Remove, path, a.value, cs);
      } else if a.op == Some(Str("replace")) {
        EditStatusExactly(j, Replace, path, a.value, cs);
      } else if a.op == Some(Str("move")) {
        CarryStatusExactly(j, true, path, a.from, cs);
      } else if a.op == Some(Str("copy")) {
        CarryStatusExactly(j, false, path, a.from, cs);
      }
    }
  }

  // ----- adding, and taking out again -----

  /** Two edits of the same node that together change nothing change nothing in the document. */
  lemma {:induction false} EditTwice(j: Json, front: seq<string>, k: nat, e: Edit, e': Edit, p: Json, m: Json, cs: bool)
    requires k <= |front| && NodeAt(j, front, k, cs) == Some(p)
    requires Perform(p, e, cs).doc == m && Perform(m, e', cs) == Outcome(0, p)
    ensures EditAt(EditAt(j, front, k, e, cs).doc, front, k, e', cs) == Outcome(0, j)
    decreases |front| - k
  {
    if k < |front| {
      var i := Step(j, front[k], cs).value;
      var b := Child(j, i);
      EditTwice(b, front, k + 1, e, e', p, m, cs);
      var c := EditAt(b, front, k + 1, e, cs).doc;
      BackBelow(j, front, k, i, e', c, b, cs);
    }
  }

  lemma {:induction false} BackBelow(j: Json, front: seq<string>, k: nat, i: nat, e: Edit, c: Json, b: Json, cs: bool)
    requires k < |front| && Step(j, front[k], cs) == Some(i) && b == Child(j, i)
    requires EditAt(c, front, k + 1, e, cs) == Outcome(0, b)
    ensures EditAt(WithChild(j, i, c), front, k, e, cs) == Outcome(0, j)
  {
    StepAgain(j, front[k], i, c, b, cs);
    assert WithChild(j, i, b) == j;
  }

  /** What is put at a place that holds nothing, or at an index, can be taken out again. */
  lemma {:induction false} PutThenTake(p: Json, t: string, v: Json, cs: bool)
    requires Patchable(p, cs) && Patchable(v, cs) && Place(p, t, cs) && (p.Object? ==> !Filled(p, t, cs))
    requires p.Array? ==> |p.items| + 1 < SIZE_LIMIT
    ensures Perform(Perform(p, Put(t, v), cs).doc, Detach(t), cs) == Outcome(0, p)
  {
    if p.Object? {
      var key :| GoodKey(key, cs) && t == Encode(key);
      PutThenTakeKey(p.members, key, v, cs);
    } else {
      var i: nat :| i <= |p.items| && t == Decimal(i);
      PutThenTakeIndex(p.items, i, v, cs);
    }
  }

  lemma {:induction false} PutThenTakeKey(ms: seq<Member>, key: string, v: Json, cs: bool)
    requires Patchable(Object(ms), cs) && Patchable(v, cs) && GoodKey(key, cs) && Fold(key, cs) !in Map(ms, cs)
    ensures var p, t := Object(ms), Encode(key); Perform(Perform(p, Put(t, v), cs).doc, Detach(t), cs) == Outcome(0, p)
  {
    var ns := PutNew(ms, key, v, cs);
    TakeLast(ms, ns, key, cs);
  }

  /** A new key goes to the end. */
  lemma {:induction false} PutNew(ms: seq<Member>, key: string, v: Json, cs: bool) returns (ns: seq<Member>)
    requires Patchable(Object(ms), cs) && Patchable(v, cs) && GoodKey(key, cs) && Fold(key, cs) !in Map(ms, cs)
    ensures ns == ms + [Member(key, v)] && Perform(Object(ms), Put(Encode(key), v), cs) == Outcome(0, Object(ns))
    ensures Find(ns, key, false) == |ms|
  {
    PatchableKeyed(Object(ms), cs);
    FindInMap(ms, key, cs);
    FindFromFirst(ms, key, cs, 0);
    PutMember(ms, key, v, cs);
    ns := ms + [Member(key, v)];
    SameFind(ns, key, cs);
    FindAtEnd(ms, ns, key, cs);
  }

  lemma {:induction false} FindAtEnd(ms: seq<Member>, ns: seq<Member>, key: string, cs: bool)
    requires Find(ms, key, cs) == |ms| && |ns| == |ms| + 1 && ns[..|ms|] == ms && ns[|ms|].key == key
    ensures Find(ns, key, cs) == |ms|
  {
    FindFromFirst(ms, key, cs, 0);
    FindFromFirst(ns, key, cs, 0);
    assert forall i :: 0 <= i < |ms| ==> ns[i] == ms[i];
  }

  lemma {:induction false} TakeLast(ms: seq<Member>, ns: seq<Member>, key: string, cs: bool)
    requires |ns| == |ms| + 1 && ns[..|ms|] == ms && Find(ns, key, false) == |ms| && Survives(key)
    ensures Perform(Object(ns), Detach(Encode(key)), cs) == Outcome(0, Object(ms))
  {
    assert Without(ns, |ms|) == ms;
  }

  lemma {:induction false} PutThenTakeIndex(items: seq<Json>, i: nat, v: Json, cs: bool)
    requires i <= |items| && |items| + 1 < SIZE_LIMIT
    ensures var p, t := Array(items), Decimal(i);
      Perform(Perform(p, Put(t, v), cs).doc, Detach(t), cs) == Outcome(0, p)
  {
    var t, more := Decimal(i), items[..i] + [v] + items[i..];
    DecodeDecimal(i);
    DecimalSurvives(i);
    DecimalSlashFree(i);
    assert '0' <= t[0];
    assert t != "-" && Decoded(t) == t && IndexIn(t) == Some(i);
    assert Perform(Array(items), Put(t, v), cs) == Outcome(0, Array(more));
    assert Without(more, i) == items;
  }

  /** Adding something at such a place and removing it leaves the document as it was. */
  lemma {:induction false} AddThenRemove(j: Json, front: seq<string>, t: string, v: Json, cs: bool)
    requires Patchable(j, cs) && Patchable(v, cs) && SlashFree(front) && NodeAt(j, front, 0, cs).Some?
    requires var p := NodeAt(j, front, 0, cs).value;
      Place(p, t, cs) && (p.Object? ==> !Filled(p, t, cs)) && (p.Array? ==> |p.items| + 1 < SIZE_LIMIT)
    ensures var path := Text(front + [t], 0);
      Apply(Apply(j, Add, path, Some(v), cs).doc, Remove, path, None, cs) == Outcome(0, j)
  {
    var p, tokens := NodeAt(j, front, 0, cs).value, front + [t];
    PlaceSlashFree(p, t, cs);
    NodePatchable(j, front, 0, cs);
    PutThenTake(p, t, v, cs);
    EditTwice(j, front, 0, Put(t, v), Detach(t), p, Perform(p, Put(t, v), cs).doc, cs);
    PathEdits(j, tokens, |front|, v, cs);
    assert tokens[..|front|] == front;
    PathEdits(Apply(j, Add, Text(tokens, 0), Some(v), cs).doc, tokens, |front|, v, cs);
  }

  // ----- copy, test and the root -----

  /** A patch that copies the item at one path to a place: that very item is there afterwards, and taking it out again
      gives back the document if the place held nothing. */
  lemma {:induction false} CopyApplied(j: Json, patch: Json, from: string, front: seq<string>, t: string, cs: bool)
    requires Patchable(j, cs) && SlashFree(front) && NodeAt(j, front, 0, cs).Some?
    requires Place(NodeAt(j, front, 0, cs).value, t, cs) && ItemAt(j, from, cs).Some?
    requires AskedOf(patch, cs).op == Some(Str("copy")) && AskedOf(patch, cs).from == Some(Str(from))
    requires AskedOf(patch, cs).path == Some(Str(Text(front + [t], 0)))
    ensures var o, path, p := ApplyPatch(j, patch, cs), Text(front + [t], 0), NodeAt(j, front, 0, cs).value;
      && o.status == 0 && ItemAt(o.doc, path, cs) == ItemAt(j, from, cs)
      && ((p.Object? ==> !Filled(p, t, cs)) && (p.Array? ==> |p.items| + 1 < SIZE_LIMIT) ==>
          Apply(o.doc, Remove, path, None, cs) == Outcome(0, j))
  {
    var v, path, p := ItemAt(j, from, cs).value, Text(front + [t], 0), NodeAt(j, front, 0, cs).value;
    NodePatchable(j, Tokens(from, 0), 0, cs);
    AddThenTest(j, front, t, v, cs);
    TextSnoc(front + [t], |front|, 0);
    assert path != "";
    CopyIsAdd(j, patch, path, from, cs);
    if (p.Object? ==> !Filled(p, t, cs)) && (p.Array? ==> |p.items| + 1 < SIZE_LIMIT) {
      AddThenRemove(j, front, t, v, cs);
    }
  }

  lemma {:induction false} CopyIsAdd(j: Json, patch: Json, path: string, from: string, cs: bool)
    requires AskedOf(patch, cs).op == Some(Str("copy")) && AskedOf(patch, cs).from == Some(Str(from)) && path != ""
    requires AskedOf(patch, cs).path == Some(Str(path)) && ItemAt(j, from, cs).Some?
    ensures ApplyPatch(j, patch, cs) == Apply(j, Add, path, ItemAt(j, from, cs), cs)
  {
    assert |"add"| == 3 && |"remove"| == 6 && |"replace"| == 7 && |"move"| == |"copy"| == 4;
    assert "move"[0] == 'm' && "copy"[0] == 'c';
  }

  /** A patch that tests leaves the document alone; on plain documents it passes exactly when the item at the path says
      the same as the value. */
  lemma {:induction false} TestApplied(j: Json, patch: Json, path: string, cs: bool, q: int)
    requires AskedOf(patch, cs).op == Some(Str("test")) && AskedOf(patch, cs).path == Some(Str(path))
    requires var item, value := ItemAt(j, path, cs), AskedOf(patch, cs).value;
      (item.Some? ==> Plain(View(item.value, cs), q)) && (value.Some? ==> Plain(View(value.value, cs), q))
    ensures var o, item, value := ApplyPatch(j, patch, cs), ItemAt(j, path, cs), AskedOf(patch, cs).value;
      && o.doc == j && (o.status == 0 || o.status == 1)
      && (o.status == 0 <==> item.Some? && value.Some? && View(item.value, cs) == View(value.value, cs))
  {
    var item, value := ItemAt(j, path, cs), AskedOf(patch, cs).value;
    assert |"add"| == 3 && |"remove"| == 6 && |"replace"| == 7 && |"move"| == |"copy"| == |"test"| == 4;
    assert "move"[0] == 'm' && "copy"[0] == 'c' && "test"[0] == 't';
    if item.Some? && value.Some? {
      EqualitiesAgree(View(item.value, cs), View(value.value, cs), q);
    }
  }

  /** The path "" is the document itself: it becomes the value, or invalid. */
  lemma {:induction false} RootApplied(j: Json, patch: Json, cs: bool)
    requires AskedOf(patch, cs).path == Some(Str(""))
    ensures var o, a := ApplyPatch(j, patch, cs), AskedOf(patch, cs);
      && (a.op == Some(Str("remove")) ==> o == Outcome(0, Invalid))
      && (a.op == Some(Str("add")) || a.op == Some(Str("replace")) ==>
          o == if a.value.Some? then Outcome(0, a.value.value) else Outcome(7, j))
  {
    assert |"add"| == 3 && |"remove"| == 6 && |"replace"| == 7;
  }

  /** {"a": null} and a copy of /a to /b: {"a": null, "b": null}. */
  lemma {:induction false} CopyOnce(cs: bool)
    ensures var patch := Object([Member("op", Str("copy")), Member("path", Str("/b")), Member("from", Str("/a"))]);
      ApplyPatch(Object([Member("a", Null)]), patch, cs) == Outcome(0, Object([Member("a", Null), Member("b", Null)]))
  {
    var j := Object([Member("a", Null)]);
    var ms := [Member("op", Str("copy")), Member("path", Str("/b")), Member("from", Str("/a"))];
    CopyMembers(ms, cs);
    FoundOnce(Null, cs);
    PutOnce(Null, Null, cs);
    CopyIsAdd(j, Object(ms), "/b", "/a", cs);
  }

  lemma {:induction false} FoundOnce(v: Json, cs: bool)
    ensures ItemAt(Object([Member("a", v)]), "/a", cs) == Some(v)
  {
    var j := Object([Member("a", v)]);
    FirstToken("", "a", "", "/a");
    assert Tokens("/a", 2) == [];
    assert Tokens("/a", 0) == ["a"];
    MatchEncoded("a", "a", cs);
    assert EncodeTo("a", 0) == "" && EncodeTo("a", 1) == "" + "a" && Encode("a") == "a";
    assert Step(j, "a", cs) == Some(0);
    assert NodeAt(v, ["a"], 1, cs) == Some(v);
  }

  lemma {:induction false} PutOnce(v: Json, w: Json, cs: bool)
    ensures PutPath(Object([Member("a", v)]), "/b", w, cs) == Outcome(0, Object([Member("a", v), Member("b", w)]))
  {
    var j := Object([Member("a", v)]);
    SplitLast("", "b", "/b");
    assert Tokens("", 0) == [];
    assert DecodeFrom("b", 1, 1) == "b";
    assert Decoded("b") == "b";
    FindFromFirst(j.members, "b", cs, 0);
    FoldNoUpper("a", cs);
    FoldNoUpper("b", cs);
    assert "a"[0] == 'a' && "b"[0] == 'b';
    assert Find(j.members, "b", cs) == 1;
    assert j.members + [Member("b", w)] == [Member("a", v), Member("b", w)];
    assert PutChild(j, "b", w, cs) == Outcome(0, Object(j.members + [Member("b", w)]));
  }

  lemma {:induction false} CopyMembers(ms: seq<Member>, cs: bool)
    requires ms == [Member("op", Str("copy")), Member("path", Str("/b")), Member("from", Str("/a"))]
    ensures var a := AskedOf(Object(ms), cs);
      a.op == Some(Str("copy")) && a.path == Some(Str("/b")) && a.from == Some(Str("/a"))
  {
    FoldNoUpper("op", cs);
    FoldNoUpper("path", cs);
    FoldNoUpper("from", cs);
    assert |"op"| == 2 && |"path"| == |"from"| == 4 && "path"[0] == 'p' && "from"[0] == 'f';
    FindFromFirst(ms, "path", cs, 0);
    FindFromFirst(ms, "op", cs, 0);
    FindFromFirst(ms, "from", cs, 0);
    assert ms[0].key == "op" && ms[1].key == "path" && ms[2].key == "from";
    assert Find(ms, "op", cs) == 0 && Find(ms, "path", cs) == 1 && Find(ms, "from", cs) == 2;
  }
}
