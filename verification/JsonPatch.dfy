/** Applying JSON patches (section 4 of RFC 6902) as `apply_patch` of apps/cjson/cJSON_Utils.c does
    it, with its status codes. */
module JsonPatch {
  import opened Basics
  import opened Json
  import opened JsonPointer
  import opened JsonView

  // ----- decode_pointer_inplace -----

  /** The buffer once the loop has gone from write position `d` and read position `i` to the end.
      An escape moves the two apart, but no later character is moved down to close the gap, and
      `~1` is written one place too far. */
  function DecodeFrom(s: string, d: nat, i: nat): string
    requires d <= i
    decreases |s| - i
  {
    if i >= |s| then s[..Min(d, |s|)]
    else if s[i] != '~' then DecodeFrom(s, d + 1, i + 1)
    else if i + 1 < |s| && s[i + 1] == '0' then DecodeFrom(s[d := '~'], d + 1, i + 2)
    else if i + 1 < |s| && s[i + 1] == '1' then DecodeFrom(s[d + 1 := '/'], d + 1, i + 2)
    else s
  }

  function Min(a: nat, b: nat): nat {
    if a < b then a else b
  }

  function Decoded(token: string): string {
    DecodeFrom(token, 0, 0)
  }

  /** `decode_pointer_inplace` on a NUL-terminated buffer that holds a token. */
  method DecodePointerInplace(buffer: array<char>, ghost token: string)
    requires buffer[..] == token + ['\0'] && '\0' !in token
    modifies buffer
    ensures exists n :: 0 <= n < buffer.Length && buffer[n] == '\0' && buffer[..n] == Decoded(token)
  {
    var d, i := 0, 0;
    ghost var s := token;
    while buffer[i] != '\0'
      invariant d <= i <= |s| == buffer.Length - 1 && buffer[..] == s + ['\0'] && '\0' !in s
      invariant DecodeFrom(s, d, i) == Decoded(token)
      decreases |s| - i
    {
      if buffer[i] == '~' {
        if buffer[i + 1] == '0' {
          buffer[d] := '~';
          s := s[d := '~'];
        } else if buffer[i + 1] == '1' {
          buffer[d + 1] := '/';
          s := s[d + 1 := '/'];
        } else {
          assert buffer[|s|] == '\0' && buffer[..|s|] == s;
          return;
        }
        i := i + 1;
      }
      d, i := d + 1, i + 1;
    }
    assert i == |s|;
    buffer[d] := '\0';
    assert buffer[..d] == s[..d];
  }

  /** A key that escaping and decoding give back. */
  predicate Survives(key: string) {
    Decoded(Encode(key)) == key
  }

  /** The buffer after `d` characters of a key, none of them '/': escapes of '~' have been written
      where the '~' belongs, everything else is as it was. */
  ghost predicate DecodedSoFar(key: string, s: string, d: nat) {
    var e := Encode(key);
    && d <= |key| && |s| == |e| && |key| <= |e|
    && (forall p :: d <= p < |e| ==> s[p] == e[p])
    && (forall p :: 0 <= p < d ==> s[p] == if key[p] == '~' then '~' else e[p])
  }

  lemma {:induction false} DecodeSteps(key: string, s: string, d: nat) returns (t: string)
    requires DecodedSoFar(key, s, d) && d < |key| && key[d] != '/'
    ensures d <= EncodedLength(key, d) < EncodedLength(key, d + 1) <= |s|
    ensures DecodedSoFar(key, t, d + 1)
    ensures DecodeFrom(s, d, EncodedLength(key, d)) == DecodeFrom(t, d + 1, EncodedLength(key, d + 1))
  {
    EncodedAt(key, |key|, d);
    EncodedGrows(key, 0, d);
    var i := EncodedLength(key, d);
    assert s[i] == Encode(key)[i];
    t := if key[d] == '~' then s[d := '~'] else s;
    assert DecodedSoFar(key, t, d + 1);
  }

  /** Decoding the escaped form of a key without '/': only the '~' come out right by themselves. */
  lemma {:induction false} DecodeSlashFree(key: string, s: string, d: nat)
    requires DecodedSoFar(key, s, d) && '/' !in key
    ensures EncodedLength(key, d) >= d
    ensures var r := DecodeFrom(s, d, EncodedLength(key, d));
      |r| == |key| && forall p :: 0 <= p < |key| ==> r[p] == if key[p] == '~' then '~' else Encode(key)[p]
    decreases |key| - d
  {
    EncodedGrows(key, 0, d);
    if d < |key| {
      var t := DecodeSteps(key, s, d);
      DecodeSlashFree(key, t, d + 1);
    } else {
      EncodedSize(key, |key|);
    }
  }

  lemma {:induction false} DecodeKeeps(s: string, d: nat, i: nat, p: nat)
    requires p < d <= i && p < |DecodeFrom(s, d, i)|
    ensures p < |s| && DecodeFrom(s, d, i)[p] == s[p]
    decreases |s| - i
  {
    if i < |s| {
      if s[i] != '~' {
        DecodeKeeps(s, d + 1, i + 1, p);
      } else if i + 1 < |s| && s[i + 1] == '0' {
        DecodeKeeps(s[d := '~'], d + 1, i + 2, p);
      } else if i + 1 < |s| && s[i + 1] == '1' {
        DecodeKeeps(s[d + 1 := '/'], d + 1, i + 2, p);
      }
    }
  }

  lemma {:induction false} SlashIsLost(key: string, s: string, d: nat, q: nat)
    requires DecodedSoFar(key, s, d) && d <= q < |key| && key[q] == '/' && forall p :: 0 <= p < q ==> key[p] != '/'
    ensures EncodedLength(key, d) >= d && DecodeFrom(s, d, EncodedLength(key, d)) != key
    decreases q - d
  {
    EncodedGrows(key, 0, d);
    if d < q {
      var t := DecodeSteps(key, s, d);
      SlashIsLost(key, t, d + 1, q);
    } else {
      LostHere(key, s, d);
    }
  }

  lemma {:induction false} LostHere(key: string, s: string, d: nat)
    requires DecodedSoFar(key, s, d) && d < |key| && key[d] == '/' && EncodedLength(key, d) >= d
    ensures DecodeFrom(s, d, EncodedLength(key, d)) != key
  {
    EncodedAt(key, |key|, d);
    EncodedSlashFree(key, |key|);
    var i := EncodedLength(key, d);
    var t := s[d + 1 := '/'];
    assert DecodeFrom(s, d, i) == DecodeFrom(t, d + 1, i + 2);
    if DecodeFrom(s, d, i) == key {
      DecodeKeeps(t, d + 1, i + 2, d);
    }
  }

  /** Exactly when a key survives: it has no '/', and wherever it is not '~' its escaped form has
      the same character in the same place. */
  lemma {:induction false} SurvivesExactly(key: string)
    ensures |Encode(key)| >= |key|
    ensures Survives(key) <==> '/' !in key && forall p :: 0 <= p < |key| && key[p] != '~' ==> Encode(key)[p] == key[p]
  {
    EncodedSize(key, |key|);
    EncodedGrows(key, 0, |key|);
    if '/' in key {
      var n := Slash(key, 0);
      SlashIsLost(key, Encode(key), 0, n);
    } else {
      DecodeSlashFree(key, Encode(key), 0);
    }
  }

  lemma {:induction false} PlainEncoded(key: string, n: nat)
    requires n <= |key| && '~' !in key && '/' !in key
    ensures EncodeTo(key, n) == key[..n]
  {
    if n > 0 {
      PlainEncoded(key, n - 1);
    }
  }

  /** Keys without '~' and '/' survive; "~a" and "a/b" do not. */
  lemma {:induction false} PlainKeysSurvive(key: string)
    ensures '~' !in key && '/' !in key ==> Survives(key)
    ensures !Survives("~a") && !Survives("a/b")
  {
    SurvivesExactly(key);
    SurvivesExactly("~a");
    SurvivesExactly("a/b");
    assert "a/b"[1] == '/';
    assert EncodeTo("~a", 1) == "~0" && Encode("~a") == "~0a";
    if '~' !in key && '/' !in key {
      PlainEncoded(key, |key|);
    }
  }

  // ----- editing a document -----

  datatype Edit = Detach(child: string) | Put(child: string, value: Json)

  datatype Outcome = Outcome(status: nat, doc: Json)

  /** `decode_array_index_from_pointer` on a decoded child, in which a '/' may stand: it stops there. */
  function IndexIn(name: string): (r: Option<nat>)
    ensures '/' !in name ==> r == DecodeIndex(name)
  {
    var text := name[..Slash(name, 0)];
    assert '/' !in name ==> text == name;
    DecodeIndex(text)
  }

  function DetachChild(j: Json, name: string): Outcome {
    match j
    case Array(items) =>
      var index := IndexIn(name);
      if index.Some? && index.value < |items| then Outcome(0, Array(Without(items, index.value))) else Outcome(13, j)
    case Object(ms) =>
      // cJSON_DetachItemFromObject: the lookup ignores case whatever the caller asked for
      var i := Find(ms, name, false);
      if i < |ms| then Outcome(0, Object(Without(ms, i))) else Outcome(13, j)
    case _ => Outcome(13, j)
  }

  function PutChild(j: Json, name: string, value: Json, cs: bool): Outcome {
    match j
    case Array(items) =>
      if name == "-" then Outcome(0, Array(items + [value]))
      else
        var index := IndexIn(name);
        if index.None? then Outcome(11, j)
        else if index.value > |items| then Outcome(10, j)
        else Outcome(0, Array(items[..index.value] + [value] + items[index.value..]))
    case Object(ms) =>
      var i := Find(ms, name, cs);
      Outcome(0, Object((if i < |ms| then Without(ms, i) else ms) + [Member(name, value)]))
    case _ => Outcome(9, j)
  }

  function Perform(j: Json, e: Edit, cs: bool): Outcome {
    match e
    case Detach(child) => DetachChild(j, Decoded(child))
    case Put(child, value) => PutChild(j, Decoded(child), value, cs)
  }

  function Missing(e: Edit): nat {
    if e.Detach? then 13 else 9
  }

  function WithChild(j: Json, i: nat, c: Json): Json
    requires i < Count(j)
  {
    match j
    case Array(items) => Array(items[i := c])
    case Object(ms) => Object(ms[i := Member(ms[i].key, c)])
  }

  /** Following the tokens from `k` on and editing the node they lead to. */
  function EditAt(j: Json, tokens: seq<string>, k: nat, e: Edit, cs: bool): Outcome
    requires k <= |tokens|
    decreases |tokens| - k
  {
    if k == |tokens| then Perform(j, e, cs)
    else match Step(j, tokens[k], cs)
      case None => Outcome(Missing(e), j)
      case Some(i) =>
        var o := EditAt(Child(j, i), tokens, k + 1, e, cs);
        Outcome(o.status, WithChild(j, i, o.doc))
  }

  /** `strrchr(s, '/')` within the first `n` characters. */
  function LastSlash(s: string, n: nat): (r: Option<nat>)
    requires n <= |s|
    ensures r.Some? ==> r.value < n && s[r.value] == '/' && forall k :: r.value < k < n ==> s[k] != '/'
    ensures r.None? ==> forall k :: 0 <= k < n ==> s[k] != '/'
  {
    if n == 0 then None else if s[n - 1] == '/' then Some(n - 1) else LastSlash(s, n - 1)
  }

  function DetachPath(j: Json, path: string, cs: bool): Outcome {
    match LastSlash(path, |path|)
    case None => Outcome(13, j)
    case Some(k) => EditAt(j, Tokens(path[..k], 0), 0, Detach(path[k + 1..]), cs)
  }

  function PutPath(j: Json, path: string, value: Json, cs: bool): Outcome {
    match LastSlash(path, |path|)
    case None => Outcome(9, j)
    case Some(k) => EditAt(j, Tokens(path[..k], 0), 0, Put(path[k + 1..], value), cs)
  }

  // ----- patches -----

  datatype Op = Add | Remove | Replace

  function OpName(op: Op): string {
    match op
    case Add => "add"
    case Remove => "remove"
    case Replace => "replace"
  }

  /** `compose_patch`. */
  function Compose(op: Op, path: string, value: Option<Json>): Json {
    Object([Member("op", Str(OpName(op))), Member("path", Str(path))]
        + if value.Some? then [Member("value", value.value)] else [])
  }

  function GetItem(j: Json, name: string, cs: bool): Option<Json> {
    if j.Object? && Find(j.members, name, cs) < |j.members| then Some(j.members[Find(j.members, name, cs)].value)
        else None
  }

  /** The part of `apply_patch` after the patch has been read. */
  function Apply(j: Json, op: Op, path: string, value: Option<Json>, cs: bool): Outcome {
    if path == "" then
      if op.Remove? then Outcome(0, Invalid)
      else if value.None? then Outcome(7, j)
      else Outcome(0, value.value)
    else
      var detached := if op.Add? then Outcome(0, j) else DetachPath(j, path, cs);
      if op.Remove? || detached.status != 0 then detached
      else if value.None? then Outcome(7, detached.doc)
      else PutPath(detached.doc, path, value.value, cs)
  }

  // ----- move, copy and test -----

  /** The child that `DetachChild` takes out. */
  function TakenChild(j: Json, name: string): Option<Json> {
    match j
    case Array(items) =>
      var index := IndexIn(name);
      if index.Some? && index.value < |items| then Some(items[index.value]) else None
    case Object(ms) =>
      var i := Find(ms, name, false);
      if i < |ms| then Some(ms[i].value) else None
    case _ => None
  }

  /** The node that the tokens from `k` on lead to. */
  function NodeAt(j: Json, tokens: seq<string>, k: nat, cs: bool): Option<Json>
    requires k <= |tokens|
    decreases |tokens| - k
  {
    if k == |tokens| then Some(j)
    else match Step(j, tokens[k], cs)
      case None => None
      case Some(i) => NodeAt(Child(j, i), tokens, k + 1, cs)
  }

  /** `get_item_from_pointer` as the item itself. */
  function ItemAt(j: Json, pointer: string, cs: bool): Option<Json> {
    NodeAt(j, Tokens(pointer, 0), 0, cs)
  }

  /** What `detach_path` returns. */
  function TakenPath(j: Json, path: string, cs: bool): Option<Json> {
    match LastSlash(path, |path|)
    case None => None
    case Some(k) =>
      match ItemAt(j, path[..k], cs)
      case None => None
      case Some(parent) => TakenChild(parent, Decoded(path[k + 1..]))
  }

  /** Detaching succeeds exactly when there is something to take. */
  lemma {:induction false} TakenWhenDetached(j: Json, path: string, cs: bool)
    ensures DetachPath(j, path, cs).status == 0 <==> TakenPath(j, path, cs).Some?
    ensures DetachPath(j, path, cs).status in {0, 13}
  {
    match LastSlash(path, |path|) {
      case None =>
      case Some(k) => TakenBelow(j, Tokens(path[..k], 0), 0, path[k + 1..], cs);
    }
  }

  lemma {:induction false} TakenBelow(j: Json, tokens: seq<string>, k: nat, child: string, cs: bool)
    requires k <= |tokens|
    ensures var o := EditAt(j, tokens, k, Detach(child), cs);
      && o.status in {0, 13}
      && (o.status == 0 <==>
          NodeAt(j, tokens, k, cs).Some? && TakenChild(NodeAt(j, tokens, k, cs).value, Decoded(child)).Some?)
    decreases |tokens| - k
  {
    if k < |tokens| && Step(j, tokens[k], cs).Some? {
      TakenBelow(Child(j, Step(j, tokens[k], cs).value), tokens, k + 1, child, cs);
    }
  }

  /** The part of `apply_patch` for move and copy. A move whose target cannot be reached has taken its
      item out all the same. */
  function Carry(j: Json, move: bool, path: string, from: Option<Json>, cs: bool): Outcome {
    if from.None? then Outcome(4, j)
    else if !from.value.Str? then Outcome(5, j)
    else
      var value := if move then TakenPath(j, from.value.text, cs) else ItemAt(j, from.value.text, cs);
      if value.None? then Outcome(5, j)
      else PutPath(if move then DetachPath(j, from.value.text, cs).doc else j, path, value.value, cs)
  }

  /** What the test operation compares: both sides must be there. */
  function Passes(j: Json, path: string, value: Option<Json>, cs: bool): bool {
    var item := ItemAt(j, path, cs);
    item.Some? && value.Some? && Near(View(item.value, cs), View(value.value, cs))
  }

  /** `apply_patch`. */
  function ApplyPatch(j: Json, patch: Json, cs: bool): Outcome {
    var path := GetItem(patch, "path", cs);
    var op := GetItem(patch, "op", cs);
    var value := GetItem(patch, "value", cs);
    if path.None? || !path.value.Str? then Outcome(2, j)
    else if op == Some(Str("add")) then Apply(j, Add, path.value.text, value, cs)
    else if op == Some(Str("remove")) then Apply(j, Remove, path.value.text, value, cs)
    else if op == Some(Str("replace")) then Apply(j, Replace, path.value.text, value, cs)
    else if op == Some(Str("move")) then Carry(j, true, path.value.text, GetItem(patch, "from", cs), cs)
    else if op == Some(Str("copy")) then Carry(j, false, path.value.text, GetItem(patch, "from", cs), cs)
    else if op == Some(Str("test")) then Outcome(if Passes(j, path.value.text, value, cs) then 0 else 1, j)
    else Outcome(3, j)
  }

  /** A move is the removal of what is at `from` and the addition of it at `path`; a copy is the addition
      alone. */
  lemma {:induction false} MoveIsRemoveAndAdd(j: Json, path: string, from: string, cs: bool)
    requires path != "" && from != ""
    ensures var o := Carry(j, true, path, Some(Str(from)), cs);
      match TakenPath(j, from, cs)
      case None => o == Outcome(5, j) && Apply(j, Remove, from, None, cs).status == 13
      case Some(v) =>
        && Apply(j, Remove, from, None, cs).status == 0
        && o == Apply(Apply(j, Remove, from, None, cs).doc, Add, path, Some(v), cs)
    ensures var o := Carry(j, false, path, Some(Str(from)), cs);
      match ItemAt(j, from, cs)
      case None => o == Outcome(5, j)
      case Some(v) => o == Apply(j, Add, path, Some(v), cs)
  {
    TakenWhenDetached(j, from, cs);
  }

  function Applying(cs: bool): (Json, Json) -> Outcome {
    (j, patch) => ApplyPatch(j, patch, cs)
  }

  /** The first `n` patches applied in order, up to the first that fails. */
  function FoldTo(j: Json, patches: seq<Json>, n: nat, apply: (Json, Json) -> Outcome): Outcome
    requires n <= |patches|
  {
    if n == 0 then Outcome(0, j)
    else
      var before := FoldTo(j, patches, n - 1, apply);
      if before.status != 0 then before else apply(before.doc, patches[n - 1])
  }

  lemma {:induction false} FailureStays(j: Json, patches: seq<Json>, n: nat, m: nat, apply: (Json, Json) -> Outcome)
    requires n <= m <= |patches| && FoldTo(j, patches, n, apply).status != 0
    ensures FoldTo(j, patches, m, apply) == FoldTo(j, patches, n, apply)
    decreases m
  {
    if n < m {
      FailureStays(j, patches, n, m - 1, apply);
    }
  }

  method FoldPatches(j: Json, patches: seq<Json>, apply: (Json, Json) -> Outcome) returns (o: Outcome)
    ensures o == FoldTo(j, patches, |patches|, apply)
  {
    o := Outcome(0, j);
    var i := 0;
    while i < |patches|
      invariant i <= |patches| && o == FoldTo(j, patches, i, apply) && o.status == 0
    {
      o := apply(o.doc, patches[i]);
      i := i + 1;
      if o.status != 0 {
        FailureStays(j, patches, i, |patches|, apply);
        return;
      }
    }
  }

  function ApplyAll(j: Json, patches: seq<Json>, cs: bool): Outcome {
    FoldTo(j, patches, |patches|, Applying(cs))
  }

  /** `cJSONUtils_ApplyPatches`: status 1 for a patch list that is not an array. */
  method ApplyPatches(j: Json, patches: Json, cs: bool) returns (o: Outcome)
    ensures o == if patches.Array? then ApplyAll(j, patches.items, cs) else Outcome(1, j)
  {
    if !patches.Array? {
      return Outcome(1, j);
    }
    o := FoldPatches(j, patches.items, Applying(cs));
  }

  /** What `compose_patch` writes, `apply_patch` reads back. */
  lemma {:induction false} ApplyComposed(j: Json, op: Op, path: string, value: Option<Json>, cs: bool)
    ensures ApplyPatch(j, Compose(op, path, value), cs) == Apply(j, op, path, value, cs)
  {
    var ms := Compose(op, path, value).members;
    FoldNoUpper("op", cs);
    FoldNoUpper("path", cs);
    FoldNoUpper("value", cs);
    assert |"op"| == 2 && |"path"| == 4 && |"value"| == 5;
    FindFromFirst(ms, "path", cs, 0);
    FindFromFirst(ms, "op", cs, 0);
    FindFromFirst(ms, "value", cs, 0);
    assert ms[0].key == "op" && ms[1].key == "path";
    assert Find(ms, "op", cs) == 0;
    assert Find(ms, "path", cs) == 1;
    if value.Some? {
      assert ms[2] == Member("value", value.value);
      assert Find(ms, "value", cs) == 2;
    } else {
      assert Find(ms, "value", cs) == |ms|;
    }
    assert GetItem(Compose(op, path, value), "value", cs) == value;
    assert |"add"| == 3 && |"remove"| == 6 && |"replace"| == 7;
  }
}
