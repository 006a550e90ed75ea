/** What a failed patch leaves behind (apps/cjson/cJSON_Utils.c:807-1036): usually the document as it was, but a
    replacement or a move that fails late has already taken an item out. */
module JsonPatchFailure {
  import opened Basics
  import opened Json
  import opened JsonView
  import opened JsonPointer
  import opened JsonPatch
  import opened JsonTurns
  import opened JsonPatchLaws

  // ----- when an edit fails, and what it leaves -----

  /** A failed edit leaves the document alone; a successful removal does not. */
  lemma {:induction false} EditOutcome(j: Json, tokens: seq<string>, k: nat, e: Edit, cs: bool)
    requires k <= |tokens|
    ensures var o := EditAt(j, tokens, k, e, cs);
      (o.status != 0 ==> o.doc == j) && (o.status == 0 && e.Detach? ==> o.doc != j)
    decreases |tokens| - k
  {
    if k < |tokens| && Step(j, tokens[k], cs).Some? {
      var i := Step(j, tokens[k], cs).value;
      var c := EditAt(Child(j, i), tokens, k + 1, e, cs).doc;
      EditOutcome(Child(j, i), tokens, k + 1, e, cs);
      StepAgain(j, tokens[k], i, c, c, cs);
    }
  }

  /** `p` takes a child of that name: an object always does, an array at "-" or at an index up to its end. */
  predicate Takes(p: Json, name: string) {
    match p
    case Object(_) => true
    case Array(items) => name == "-" || (IndexIn(name).Some? && IndexIn(name).value <= |items|)
    case _ => false
  }

  /** The guard of putting something at `path`: the parent is there and takes the child. */
  predicate Open(j: Json, path: string, cs: bool) {
    match LastSlash(path, |path|)
    case None => false
    case Some(k) =>
      var parent := ItemAt(j, path[..k], cs);
      parent.Some? && Takes(parent.value, Decoded(path[k + 1..]))
  }

  lemma {:induction false} EditReaches(j: Json, tokens: seq<string>, k: nat, e: Edit, cs: bool)
    requires k <= |tokens|
    ensures EditAt(j, tokens, k, e, cs).status == match NodeAt(j, tokens, k, cs)
      case None => Missing(e)
      case Some(p) => Perform(p, e, cs).status
    decreases |tokens| - k
  {
    if k < |tokens| && Step(j, tokens[k], cs).Some? {
      EditReaches(Child(j, Step(j, tokens[k], cs).value), tokens, k + 1, e, cs);
    }
  }

  /** Putting succeeds exactly at an open place, and changes nothing elsewhere. */
  lemma {:induction false} PutExactly(j: Json, path: string, value: Json, cs: bool)
    ensures var o := PutPath(j, path, value, cs);
      (o.status == 0 <==> Open(j, path, cs)) && (o.status != 0 ==> o.doc == j)
  {
    match LastSlash(path, |path|) {
      case None =>
      case Some(k) =>
        var tokens, e := Tokens(path[..k], 0), Put(path[k + 1..], value);
        EditReaches(j, tokens, 0, e, cs);
        EditOutcome(j, tokens, 0, e, cs);
    }
  }

  /** Taking out succeeds exactly when there is something, and then changes the document. */
  lemma {:induction false} DetachExactly(j: Json, path: string, cs: bool)
    ensures var o := DetachPath(j, path, cs);
      (o.status == 0 <==> TakenPath(j, path, cs).Some?) && (o.status == 0 <==> o.doc != j)
  {
    TakenWhenDetached(j, path, cs);
    match LastSlash(path, |path|) {
      case None =>
      case Some(k) => EditOutcome(j, Tokens(path[..k], 0), 0, Detach(path[k + 1..]), cs);
    }
  }

  /** Where something has been taken out, something can be put. */
  lemma {:induction false} TakenIsOpen(j: Json, path: string, cs: bool)
    requires TakenPath(j, path, cs).Some?
    ensures Open(DetachPath(j, path, cs).doc, path, cs)
  {
    var k := LastSlash(path, |path|).value;
    var tokens, e := Tokens(path[..k], 0), Detach(path[k + 1..]);
    EditThenFind(j, tokens, 0, e, cs);
  }

  lemma {:induction false} NodeBelow(j: Json, front: seq<string>, more: seq<string>, k: nat, cs: bool)
    requires k <= |front|
    ensures NodeAt(j, front + more, k, cs) == match NodeAt(j, front, k, cs)
      case None => None
      case Some(p) => NodeAt(p, more, 0, cs)
    decreases |front| - k
  {
    var all := front + more;
    if k < |front| {
      assert all[k] == front[k];
      if Step(j, all[k], cs).Some? {
        NodeBelow(Child(j, Step(j, all[k], cs).value), front, more, k + 1, cs);
      }
    } else {
      NodeShifted(j, all, |front|, more, 0, cs);
    }
  }

  lemma {:induction false} NodeShifted(j: Json, all: seq<string>, d: nat, more: seq<string>, k: nat, cs: bool)
    requires d <= |all| && more == all[d..] && k <= |more|
    ensures NodeAt(j, all, d + k, cs) == NodeAt(j, more, k, cs)
    decreases |more| - k
  {
    if k < |more| && Step(j, more[k], cs).Some? {
      NodeShifted(Child(j, Step(j, more[k], cs).value), all, d, more, k + 1, cs);
    }
  }

  /** Nothing can be put below a token that leads nowhere. */
  lemma {:induction false} PutBelowGone(j: Json, front: seq<string>, t: string, more: seq<string>, v: Json, cs: bool)
    requires SlashFree(front) && '/' !in t && SlashFree(more) && more != []
    requires NodeAt(j, front, 0, cs).Some? && Step(NodeAt(j, front, 0, cs).value, t, cs) == None
    ensures PutPath(j, Text(front + ([t] + more), 0), v, cs) == Outcome(9, j)
  {
    var all, n, parent := front + ([t] + more), |front| + |more|, [t] + more[..|more| - 1];
    assert all[..n] == front + parent;
    NodeBelow(j, front, parent, 0, cs);
    PathEdits(j, all, n, v, cs);
    var e := Put(all[n], v);
    EditReaches(j, all[..n], 0, e, cs);
    EditOutcome(j, all[..n], 0, e, cs);
  }

  // ----- one patch -----

  /** A replacement takes the old item out before it looks for the new one. */
  predicate ReplaceLoses(j: Json, path: string, value: Option<Json>, cs: bool) {
    path != "" && value.None? && TakenPath(j, path, cs).Some?
  }

  /** A move takes its item out before it looks for the place to put it. */
  predicate MoveLoses(j: Json, path: string, from: Option<Json>, cs: bool) {
    && from.Some? && from.value.Str? && TakenPath(j, from.value.text, cs).Some?
    && !Open(DetachPath(j, from.value.text, cs).doc, path, cs)
  }

  lemma {:induction false} ApplyFailure(j: Json, op: Op, path: string, value: Option<Json>, cs: bool)
    ensures var o := Apply(j, op, path, value, cs);
      o.status != 0 && o.doc != j <==> op.Replace? && ReplaceLoses(j, path, value, cs)
  {
    if path != "" {
      DetachExactly(j, path, cs);
      if op.Add? && value.Some? {
        PutExactly(j, path, value.value, cs);
      }
      if op.Replace? && value.Some? && TakenPath(j, path, cs).Some? {
        TakenIsOpen(j, path, cs);
        PutExactly(DetachPath(j, path, cs).doc, path, value.value, cs);
      }
    }
  }

  lemma {:induction false} CarryFailure(j: Json, move: bool, path: string, from: Option<Json>, cs: bool)
    ensures var o := Carry(j, move, path, from, cs);
      o.status != 0 && o.doc != j <==> move && MoveLoses(j, path, from, cs)
  {
    if from.Some? && from.value.Str? {
      var text := from.value.text;
      DetachExactly(j, text, cs);
      var value := if move then TakenPath(j, text, cs) else ItemAt(j, text, cs);
      if value.Some? {
        PutExactly(if move then DetachPath(j, text, cs).doc else j, path, value.value, cs);
      }
    }
  }

  /** The patches that fail and leave the document changed, as a check on the document before the call. */
  predicate Loses(j: Json, patch: Json, cs: bool) {
    var path := GetItem(patch, "path", cs);
    var op := GetItem(patch, "op", cs);
    && path.Some? && path.value.Str?
    && if op == Some(Str("replace")) then ReplaceLoses(j, path.value.text, GetItem(patch, "value", cs), cs)
       else op == Some(Str("move")) && MoveLoses(j, path.value.text, GetItem(patch, "from", cs), cs)
  }

  /** A failed patch leaves the document as it was, unless it is one of those. */
  lemma {:induction false} FailureExactly(j: Json, patch: Json, cs: bool)
    ensures var o := ApplyPatch(j, patch, cs); o.status != 0 && o.doc != j <==> Loses(j, patch, cs)
  {
    var path, op, value := GetItem(patch, "path", cs), GetItem(patch, "op", cs), GetItem(patch, "value", cs);
    if path.Some? && path.value.Str? {
      assert |"add"| == 3 && |"remove"| == 6 && |"replace"| == 7 && |"move"| == |"copy"| == |"test"| == 4;
      assert "move"[0] == 'm' && "copy"[0] == 'c' && "test"[0] == 't';
      if op == Some(Str("add")) {
        ApplyFailure(j, Add, path.value.text, value, cs);
      } else if op == Some(Str("remove")) {
        ApplyFailure(j, Remove, path.value.text, value, cs);
      } else if op == Some(Str("replace")) {
        ApplyFailure(j, Replace, path.value.text, value, cs);
      } else if op == Some(Str("move")) {
        CarryFailure(j, true, path.value.text, GetItem(patch, "from", cs), cs);
      } else if op == Some(Str("copy")) {
        CarryFailure(j, false, path.value.text, GetItem(patch, "from", cs), cs);
      }
    }
  }

  // ----- inputs that fail so -----

  /** A patch that moves what is at `from`. */
  function MovePatch(path: string, from: string): Json {
    Object([Member("op", Str("move")), Member("path", Str(path)), Member("from", Str(from))])
  }

  lemma {:induction false} MoveMembers(path: string, from: string, cs: bool)
    ensures var patch := MovePatch(path, from);
      && GetItem(patch, "op", cs) == Some(Str("move")) && GetItem(patch, "path", cs) == Some(Str(path))
      && GetItem(patch, "from", cs) == Some(Str(from))
  {
    var ms := MovePatch(path, from).members;
    FoldNoUpper("op", cs);
    FoldNoUpper("path", cs);
    FoldNoUpper("from", cs);
    assert |"op"| == 2 && |"path"| == |"from"| == 4 && "path"[0] == 'p' && "from"[0] == 'f';
    FindFromFirst(ms, "path", cs, 0);
    FindFromFirst(ms, "op", cs, 0);
    FindFromFirst(ms, "from", cs, 0);
    assert ms[0].key == "op" && ms[1].key == "path" && ms[2].key == "from";
    assert Find(ms, "op", cs) == 0 && Find(ms, "path", cs) == 1 && Find(ms, "from", cs) == 2;
  }

  lemma {:induction false} MoveRead(j: Json, path: string, from: string, cs: bool)
    ensures ApplyPatch(j, MovePatch(path, from), cs) == Carry(j, true, path, Some(Str(from)), cs)
  {
    MoveMembers(path, from, cs);
    assert |"add"| == 3 && |"remove"| == 6 && |"replace"| == 7 && |"move"| == 4;
  }

  /** An object with one member "a", its member taken out. */
  lemma {:induction false} OnlyMember(value: Json, cs: bool)
    ensures var j := Object([Member("a", value)]);
      DetachPath(j, "/a", cs) == Outcome(0, Object([])) && TakenPath(j, "/a", cs) == Some(value)
  {
    var j := Object([Member("a", value)]);
    SplitLast("", "a", "/a");
    assert Tokens("", 0) == [] && NodeAt(j, [], 0, cs) == Some(j);
    assert DecodeFrom("a", 1, 1) == "a";
    assert Decoded("a") == "a";
    FindFromFirst(j.members, "a", false, 0);
    assert Find(j.members, "a", false) == 0;
    assert Without(j.members, 0) == [];
  }

  /** {"a": null} and a move of /a to /x/y: the status is 9 and the member is gone. */
  lemma {:induction false} MoveCanLose(cs: bool)
    ensures var j := Object([Member("a", Null)]);
      Loses(j, MovePatch("/x/y", "/a"), cs) && ApplyPatch(j, MovePatch("/x/y", "/a"), cs) == Outcome(9, Object([]))
  {
    var j := Object([Member("a", Null)]);
    MoveRead(j, "/x/y", "/a", cs);
    OnlyMember(Null, cs);
    var tokens := [] + (["x"] + ["y"]);
    assert Text(tokens, 2) == "" && Text(tokens, 1) == "/y" && Text(tokens, 0) == "/x/y";
    assert FindToken([], "x", cs, 0) == 0;
    PutBelowGone(Object([]), [], "x", ["y"], Null, cs);
    FailureExactly(j, MovePatch("/x/y", "/a"), cs);
  }

  /** {"a": null} and a replacement of /a without a value: the status is 7 and the member is gone. */
  lemma {:induction false} ReplaceCanLose(cs: bool)
    ensures var j, patch := Object([Member("a", Null)]), Compose(Replace, "/a", None);
      Loses(j, patch, cs) && ApplyPatch(j, patch, cs) == Outcome(7, Object([]))
  {
    var j, patch := Object([Member("a", Null)]), Compose(Replace, "/a", None);
    ApplyComposed(j, Replace, "/a", None, cs);
    OnlyMember(Null, cs);
    FailureExactly(j, patch, cs);
  }

  /** The members that are left do not match the token of one that is gone. */
  lemma {:induction false} NoStepToGone(ms: seq<Member>, key: string, cs: bool)
    requires Distinct(ms, cs) && Fold(key, cs) !in Map(ms, cs)
    ensures Step(Object(ms), Encode(key), cs) == None
  {
    var r := FindToken(ms, Encode(key), cs, 0);
    if r < |ms| {
      MatchEncoded(ms[r].key, key, cs);
      FindInMap(ms, key, cs);
      FindFromFirst(ms, key, cs, 0);
    }
  }

  /** A member that is moved to a place below itself is always lost. */
  lemma {:induction false} MoveBelowItself(j: Json, front: seq<string>, key: string, more: seq<string>, cs: bool)
    requires Patchable(j, cs) && SlashFree(front) && SlashFree(more) && more != [] && GoodKey(key, cs)
    requires NodeAt(j, front, 0, cs).Some? && NodeAt(j, front, 0, cs).value.Object?
    requires Fold(key, cs) in Map(NodeAt(j, front, 0, cs).value.members, cs)
    ensures var from, path := Text(front + [Encode(key)], 0), Text(front + ([Encode(key)] + more), 0);
      var o := Carry(j, true, path, Some(Str(from)), cs);
      o == Outcome(9, DetachPath(j, from, cs).doc) && o.doc != j
  {
    var p, t := NodeAt(j, front, 0, cs).value, Encode(key);
    var from := Text(front + [t], 0);
    EncodedSlashFree(key, |key|);
    NodePatchable(j, front, 0, cs);
    DetachMember(p.members, key, cs);
    EditThenFind(j, front, 0, Detach(t), cs);
    PathEdits(j, front + [t], |front|, Null, cs);
    assert (front + [t])[..|front|] == front;
    DetachExactly(j, from, cs);
    var rest := Perform(p, Detach(t), cs).doc;
    NoStepToGone(rest.members, key, cs);
    PutBelowGone(DetachPath(j, from, cs).doc, front, t, more, TakenPath(j, from, cs).value, cs);
  }

  // ----- a list of patches -----

  /** The patch at which a list of patches fails. */
  lemma {:induction false} FirstFailure(j: Json, patches: seq<Json>, n: nat, apply: (Json, Json) -> Outcome)
    returns (i: nat)
    requires n <= |patches| && FoldTo(j, patches, n, apply).status != 0
    ensures i < n && FoldTo(j, patches, i, apply).status == 0
    ensures FoldTo(j, patches, n, apply) == apply(FoldTo(j, patches, i, apply).doc, patches[i])
  {
    if FoldTo(j, patches, n - 1, apply).status != 0 {
      i := FirstFailure(j, patches, n - 1, apply);
    } else {
      i := n - 1;
    }
  }

  /** A list of patches fails at the first patch that does: those before it stay applied, and that one leaves
      what they made as it is unless it loses an item. */
  lemma {:induction false} ListFailure(j: Json, patches: seq<Json>, cs: bool) returns (i: nat, made: Json)
    requires ApplyAll(j, patches, cs).status != 0
    ensures i < |patches| && FoldTo(j, patches, i, Applying(cs)) == Outcome(0, made)
    ensures ApplyAll(j, patches, cs) == ApplyPatch(made, patches[i], cs)
    ensures ApplyAll(j, patches, cs).doc == made <==> !Loses(made, patches[i], cs)
  {
    i := FirstFailure(j, patches, |patches|, Applying(cs));
    made := FoldTo(j, patches, i, Applying(cs)).doc;
    FailureExactly(made, patches[i], cs);
  }

  /** {"a": null} and two removals of /a: the second one fails, the first one stays. */
  lemma {:induction false} ListCanStopHalfway(cs: bool)
    ensures var j, patch := Object([Member("a", Null)]), Compose(Remove, "/a", None);
      ApplyAll(j, [patch, patch], cs) == Outcome(13, Object([]))
  {
    var j, patch, apply := Object([Member("a", Null)]), Compose(Remove, "/a", None), Applying(cs);
    var patches := [patch, patch];
    ApplyComposed(j, Remove, "/a", None, cs);
    ApplyComposed(Object([]), Remove, "/a", None, cs);
    OnlyMember(Null, cs);
    SplitLast("", "a", "/a");
    assert Tokens("", 0) == [];
    assert FoldTo(j, patches, 0, apply) == Outcome(0, j);
    assert FoldTo(j, patches, 1, apply) == Outcome(0, Object([]));
  }
}
