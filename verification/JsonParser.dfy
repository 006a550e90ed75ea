/** The parser of apps/cjson/cJSON.c:284-378, 611-873, 1021-1057, 1308-1357, 1437-1512 and 1598-1700
    as it runs: one buffer with an offset and a depth, strings decoded into an array whose size was
    estimated by a first pass.
    A predicate compared with `true` in a contract is proved as one fact, not conjunct by conjunct. */
module JsonParser {
  import opened Basics
  import opened Json
  import opened JsonText
  import opened JsonChildren

  // ----- the sizing bound -----

  /** The escapes that the sizing scan starting at `i` meets before `stop`. */
  function Escapes(s: string, i: nat, stop: nat): nat
    decreases |s| - i
  {
    if i >= stop || i >= |s| then 0
    else if s[i] == '\\' then 1 + Escapes(s, i + 2, stop)
    else Escapes(s, i + 1, stop)
  }

  lemma {:induction false} EscapesBound(s: string, i: nat, stop: nat)
    ensures i <= stop ==> 2 * Escapes(s, i, stop) <= stop - i + 1
    ensures stop <= i ==> Escapes(s, i, stop) == 0
    decreases |s| - i
  {
    if i < stop && i < |s| {
      EscapesBound(s, if s[i] == '\\' then i + 2 else i + 1, stop);
    }
  }

  /** Going `n` further meets at most half as many escapes, rounded up: they are two apart. */
  lemma {:induction false} EscapesGrow(s: string, i: nat, p: nat, n: nat)
    ensures Escapes(s, i, p) <= Escapes(s, i, p + n) && 2 * Escapes(s, i, p + n) <= 2 * Escapes(s, i, p) + n + 1
    decreases |s| - i
  {
    if i >= p {
      EscapesBound(s, i, p + n);
    } else if i < |s| {
      EscapesGrow(s, if s[i] == '\\' then i + 2 else i + 1, p, n);
    }
  }

  /** A character that is no backslash starts no escape. */
  lemma {:induction false} EscapesSame(s: string, i: nat, p: nat)
    requires p < |s| && s[p] != '\\'
    ensures Escapes(s, i, p + 1) == Escapes(s, i, p)
    decreases |s| - i
  {
    if i < p && i < |s| {
      EscapesSame(s, if s[i] == '\\' then i + 2 else i + 1, p);
    }
  }

  /** What the decoding loop keeps: bytes written and escapes passed never exceed bytes read. */
  predicate Sized(s: string, start: nat, p: nat, written: nat) {
    start <= p && written + Escapes(s, start, p) <= p - start
  }

  /** One turn of the decoding loop keeps it, even where a literal overlaps what the sizing scan
      took for other escapes. */
  lemma {:induction false} SizedNext(s: string, start: nat, p: nat, end: nat, written: nat)
    requires p < end < |s| && DecodeOne(s, p, end).Some? && Sized(s, start, p, written)
    ensures var one := DecodeOne(s, p, end).value; p + one.1 <= end + 1 && Sized(s, start, p + one.1, written + |one.0|)
  {
    var one := DecodeOne(s, p, end).value;
    EscapesGrow(s, start, p, one.1);
    if s[p] != '\\' {
      EscapesSame(s, start, p);
    }
  }

  /** So the estimate is enough at every point. */
  lemma {:induction false} SizedEnough(s: string, start: nat, p: nat, end: nat, written: nat)
    requires Sized(s, start, p, written) && p <= end + 1 && end < |s| && s[end] != '\\'
    ensures written + Escapes(s, start, end) <= end + 1 - start
  {
    EscapesSame(s, start, end);
    if p <= end {
      EscapesGrow(s, start, p, end - p);
    }
  }

  lemma {:induction false} SizedTurn(s: string, start: nat, p: nat, end: nat, written: nat, one: (string, nat))
    requires p < end < |s| && s[end] != '\\' && DecodeOne(s, p, end) == Some(one) && Sized(s, start, p, written)
    ensures p < p + one.1 <= end + 1 && Sized(s, start, p + one.1, written + |one.0|)
    ensures written + |one.0| + Escapes(s, start, end) <= end + 1 - start
  {
    SizedNext(s, start, p, end, written);
    SizedEnough(s, start, p + one.1, end, written + |one.0|);
  }

  // ----- code points -----

  /** The digits so far, shifted to make room for the next one as long as there is one. */
  ghost function HexSoFar(s: string, p: nat, i: nat): nat
    requires p + 4 <= |s| && i <= 4
  {
    if i == 0 then 0
    else
      var v := HexValue(s[p + i - 1]);
      var h := HexSoFar(s, p, i - 1) + if v.Some? then v.value else 0;
      if i < 4 then h * 16 else h
  }

  ghost predicate AllHex(s: string, p: nat, i: nat)
    requires p + 4 <= |s| && i <= 4
  {
    i > 0 ==> HexValue(s[p + i - 1]).Some? && AllHex(s, p, i - 1)
  }

  lemma {:induction false} HexAll(s: string, p: nat)
    requires p + 4 <= |s| && AllHex(s, p, 4)
    ensures HexSoFar(s, p, 4) == Hex4(s, p)
  {
    assert AllHex(s, p, 3) && AllHex(s, p, 2) && AllHex(s, p, 1);
    var a, b, c := HexValue(s[p]).value, HexValue(s[p + 1]).value, HexValue(s[p + 2]).value;
    assert HexSoFar(s, p, 0) == 0;
    assert HexSoFar(s, p, 1) == a * 16;
    assert HexSoFar(s, p, 2) == (a * 16 + b) * 16;
    assert HexSoFar(s, p, 3) == ((a * 16 + b) * 16 + c) * 16;
  }

  lemma {:induction false} HexNot(s: string, p: nat, i: nat)
    requires p + 4 <= |s| && i < 4 && HexValue(s[p + i]).None?
    ensures Hex4(s, p) == 0
  {
    assert i == 0 || i == 1 || i == 2 || i == 3;
  }

  /** The bytes of the last `n` groups of six bits of a code point, and the code point without them. */
  function LastBytes(cp: nat, n: nat): string {
    if n == 0 then [] else LastBytes(cp / 0x40, n - 1) + [(0x80 + cp % 0x40) as char]
  }

  function Leading(cp: nat, n: nat): nat {
    if n == 0 then cp else Leading(cp / 0x40, n - 1)
  }

  lemma {:induction false} Utf8Parts(cp: nat, length: nat, mark: nat)
    requires cp <= 0x10FFFF
    requires (cp < 0x80 && length == 1 && mark == 0) || (0x80 <= cp < 0x800 && length == 2 && mark == 0xC0)
      || (0x800 <= cp < 0x10000 && length == 3 && mark == 0xE0) || (0x10000 <= cp && length == 4 && mark == 0xF0)
    ensures Leading(cp, length - 1) + mark < 0x100
    ensures Utf8(cp) == [(Leading(cp, length - 1) + mark) as char] + LastBytes(cp, length - 1)
  {
    var a, b := cp / 0x40, cp / 0x1000;
    assert b == a / 0x40 && cp / 0x40000 == b / 0x40;
    LastByte(cp);
    LastByte(a);
    LastByte(b);
    if length == 3 {
      assert LastBytes(cp, 2) == LastBytes(a, 1) + [(0x80 + cp % 0x40) as char];
      assert Leading(cp, 2) == Leading(a, 1);
    } else if length == 4 {
      assert LastBytes(a, 2) == LastBytes(b, 1) + [(0x80 + a % 0x40) as char];
      assert LastBytes(cp, 3) == LastBytes(a, 2) + [(0x80 + cp % 0x40) as char];
      assert Leading(cp, 3) == Leading(a, 2) == Leading(b, 1);
    }
  }

  lemma {:induction false} LastByte(cp: nat)
    ensures LastBytes(cp, 1) == [(0x80 + cp % 0x40) as char] && Leading(cp, 1) == cp / 0x40 && Leading(cp, 0) == cp
  {
    assert LastBytes(cp / 0x40, 0) == [] && Leading(cp / 0x40, 0) == cp / 0x40;
  }

  // ----- partial results -----

  function Prepend<T>(done: seq<T>, rest: Option<(seq<T>, nat)>): Option<(seq<T>, nat)> {
    match rest
    case None => None
    case Some(r) => Some((done + r.0, r.1))
  }

  function PrependText(done: string, rest: Option<string>): Option<string> {
    match rest
    case None => None
    case Some(r) => Some(done + r)
  }

  lemma {:induction false} PrependNone<T>(rest: Option<(seq<T>, nat)>)
    ensures Prepend([], rest) == rest
  {
    if rest.Some? {
      assert [] + rest.value.0 == rest.value.0;
    }
  }

  lemma {:induction false} PrependMore<T>(done: seq<T>, x: T, rest: Option<(seq<T>, nat)>)
    ensures Prepend(done, Prepend([x], rest)) == Prepend(done + [x], rest)
  {
    if rest.Some? {
      assert done + ([x] + rest.value.0) == done + [x] + rest.value.0;
    }
  }

  lemma {:induction false} PrependNothing(rest: Option<string>)
    ensures PrependText("", rest) == rest
  {
    if rest.Some? {
      assert "" + rest.value == rest.value;
    }
  }

  lemma {:induction false} DecodeDone(s: string, start: nat, p: nat, end: nat, done: string)
    requires end <= p && end < |s| && Decode(s, start, end) == PrependText(done, Decode(s, p, end))
    ensures Decode(s, start, end) == Some(done)
  {
    assert done + "" == done;
  }

  lemma {:induction false} DecodeTurn(s: string, start: nat, p: nat, end: nat, done: string)
    requires p < end < |s| && Decode(s, start, end) == PrependText(done, Decode(s, p, end))
    ensures DecodeOne(s, p, end).None? ==> Decode(s, start, end).None?
    ensures DecodeOne(s, p, end).Some? ==> var one := DecodeOne(s, p, end).value;
      Decode(s, start, end) == PrependText(done + one.0, Decode(s, p + one.1, end))
  {
    var one := DecodeOne(s, p, end);
    if one.Some? {
      var rest := Decode(s, p + one.value.1, end);
      if rest.Some? {
        assert done + (one.value.0 + rest.value) == done + one.value.0 + rest.value;
      }
    }
  }

  /** Items read from `start` to `at`, and the rest to come. */
  ghost predicate ItemsSoFar(s: string, start: nat, at: nat, depth: nat, c: Libc, items: seq<Json>) {
    && Terminated(s) && start <= at < |s|
    && PItems(s, start, depth, c) == Prepend(items, PItems(s, at, depth, c))
  }

  /** One turn of the item loop: at a comma there is more, anything but a bracket fails. */
  lemma {:induction false} ItemsTurn(s: string, start: nat, at: nat, depth: nat, c: Libc, items: seq<Json>, v: Json,
      end: nat)
    requires ItemsSoFar(s, start, at, depth, c, items) && at < end < |s| && PValue(s, at, depth, c) == Some((v, end))
    ensures var m := Skip(s, end);
      if s[m] == ',' then m + 1 < |s| && ItemsSoFar(s, start, Skip(s, m + 1), depth, c, items + [v])
      else if s[m] == ']' then m + 1 < |s| && PItems(s, start, depth, c) == Some((items + [v], m))
      else PItems(s, start, depth, c) == None
  {
    var m := Skip(s, end);
    if s[m] == ',' {
      PrependMore(items, v, PItems(s, Skip(s, m + 1), depth, c));
    }
  }

  lemma {:induction false} ItemsStop(s: string, start: nat, at: nat, depth: nat, c: Libc, items: seq<Json>)
    requires ItemsSoFar(s, start, at, depth, c, items) && PValue(s, at, depth, c).None?
    ensures PItems(s, start, depth, c).None?
  {
  }

  /** Members read from `start` to `at`, and the rest to come. */
  ghost predicate MembersSoFar(s: string, start: nat, at: nat, depth: nat, c: Libc, ms: seq<Member>) {
    && Terminated(s) && start <= at < |s|
    && PMembers(s, start, depth, c) == Prepend(ms, PMembers(s, at, depth, c))
  }

  lemma {:induction false} MembersTurn(s: string, start: nat, at: nat, depth: nat, c: Libc, ms: seq<Member>,
      member: Member, end: nat)
    requires MembersSoFar(s, start, at, depth, c, ms) && at < end < |s|
    requires PMember(s, at, depth, c) == Some((member, end))
    ensures var m := Skip(s, end);
      if s[m] == ',' then m + 1 < |s| && MembersSoFar(s, start, Skip(s, m + 1), depth, c, ms + [member])
      else if s[m] == '}' then m + 1 < |s| && PMembers(s, start, depth, c) == Some((ms + [member], m))
      else PMembers(s, start, depth, c) == None
  {
    var m := Skip(s, end);
    if s[m] == ',' {
      PrependMore(ms, member, PMembers(s, Skip(s, m + 1), depth, c));
    }
  }

  lemma {:induction false} MembersStop(s: string, start: nat, at: nat, depth: nat, c: Libc, ms: seq<Member>)
    requires MembersSoFar(s, start, at, depth, c, ms) && PMember(s, at, depth, c).None?
    ensures PMembers(s, start, depth, c).None?
  {
  }

  /** What reading a value from `i` on comes to. */
  ghost predicate ValueRead(s: string, i: nat, depth: nat, c: Libc, ok: bool, j: Json, end: nat) {
    Terminated(s) && i < |s| && if ok then PValue(s, i, depth, c) == Some((j, end)) else PValue(s, i, depth, c).None?
  }

  ghost predicate MemberRead(s: string, i: nat, depth: nat, c: Libc, ok: bool, m: Member, end: nat) {
    Terminated(s) && i < |s| && if ok then PMember(s, i, depth, c) == Some((m, end)) else PMember(s, i, depth, c).None?
  }

  /** What reading the name of a member and its colon comes to; the value is at `at`. */
  ghost predicate NameRead(s: string, i: nat, ok: bool, key: string, at: nat) {
    Terminated(s) && i < |s| &&
    match PString(s, i)
    case None => !ok
    case Some(r) =>
      var m := Skip(s, r.1);
      if s[m] != ':' then !ok else ok && key == r.0 && m + 1 < |s| && at == Skip(s, m + 1)
  }

  lemma {:induction false} MemberText(s: string, i: nat, depth: nat, c: Libc, named: bool, key: string, at: nat,
      ok: bool, m: Member, end: nat)
    requires NameRead(s, i, named, key, at) && (!named ==> !ok)
    requires named ==> ValueRead(s, at, depth, c, ok, m.value, end) && m.key == key
    ensures MemberRead(s, i, depth, c, ok, m, end)
  {
  }

  /** What reading between the brackets comes to. */
  ghost predicate ArrayRead(s: string, i: nat, depth: nat, c: Libc, ok: bool, items: seq<Json>, end: nat) {
    Terminated(s) && i + 1 < |s| &&
    if depth >= NESTING_LIMIT then !ok
    else
      var a := Skip(s, i + 1);
      if s[a] == ']' then ok && items == [] && end == a + 1
      else if ok then end > 0 && PItems(s, a, depth + 1, c) == Some((items, end - 1))
          else PItems(s, a, depth + 1, c).None?
  }

  lemma {:induction false} ArrayText(s: string, i: nat, depth: nat, c: Libc, ok: bool, items: seq<Json>, end: nat)
    requires ArrayRead(s, i, depth, c, ok, items, end) && s[i] == '['
    ensures ok <==> PValue(s, i, depth, c).Some?
    ensures ok ==> PValue(s, i, depth, c) == Some((Array(items), end))
  {
  }

  /** What reading between the braces comes to. */
  ghost predicate ObjectRead(s: string, i: nat, depth: nat, c: Libc, ok: bool, ms: seq<Member>, end: nat) {
    Terminated(s) && i + 1 < |s| &&
    if depth >= NESTING_LIMIT then !ok
    else
      var a := Skip(s, i + 1);
      if s[a] == '}' then ok && ms == [] && end == a + 1
      else if ok then end > 0 && PMembers(s, a, depth + 1, c) == Some((ms, end - 1))
          else PMembers(s, a, depth + 1, c).None?
  }

  lemma {:induction false} ObjectText(s: string, i: nat, depth: nat, c: Libc, ok: bool, ms: seq<Member>, end: nat)
    requires ObjectRead(s, i, depth, c, ok, ms, end) && s[i] == '{'
    ensures ok <==> PValue(s, i, depth, c).Some?
    ensures ok ==> PValue(s, i, depth, c) == Some((Object(ms), end))
  {
  }

  // ----- the items a parse builds -----

  /** A new item: `cJSON_New_Item` fills it with zeros. */
  const BLANK: Content := Content(KIND_INVALID, false, 0, 0.0, None, None)

  /** The item is the top of a tree that holds the document, with a proper child list everywhere. */
  ghost predicate Built(item: Item, name: Option<string>, j: Json, u: Tree, w: World)
    reads w.Keys
  {
    u.node == item && u.content.name == name && Stands(u, w) && Spells(u, j)
  }

  /** A scalar is an item without children. */
  method SetScalar(item: Item, content: Content, ghost j: Json) returns (ghost u: Tree, ghost w: World)
    requires item.child == null && item.items == [] && !j.Array? && !j.Object? && Spells(Tree(item, content, []), j)
    modifies item`content
    ensures Built(item, content.name, j, u, w) == true && forall x :: x in w.Keys ==> x == item
    ensures u.content == content
  {
    item.content := content;
    u, w := Tree(item, content, []), map[item := Info(content, [])];
  }

  /** The items of an array so far, chained behind each other. */
  ghost predicate Chain(head: Item?, last: Item?, kids: seq<Tree>, w: World)
    reads w.Keys, Roots(kids)`next, Roots(kids)`prev
  {
    Building(last, Roots(kids), w) && AllMatch(kids, w) && head == At(Roots(kids), 0)
  }

  lemma {:induction false} EmptyChain()
    ensures Chain(null, null, [], map[])
  {
  }

  ghost predicate SpellItems(kids: seq<Tree>, items: seq<Json>) {
    |kids| == |items| && forall k :: 0 <= k < |items| ==> Spells(kids[k], items[k])
  }

  ghost predicate SpellMembers(kids: seq<Tree>, ms: seq<Member>) {
    |kids| == |ms| && forall k :: 0 <= k < |ms| ==> SpellsMember(kids[k], ms[k])
  }

  /** The chained items become the children of an array or object. */
  method Complete(item: Item, kind: nat, head: Item?, last: Item?, ghost kids: seq<Tree>, ghost w: World, ghost j: Json)
    returns (ghost u: Tree, ghost w': World)
    requires Chain(head, last, kids, w) == true && item !in w
    requires Spells(Tree(item, item.content.(kind := kind), kids), j) == true
    modifies item`content, item`child, item`items, w.Keys`prev
    ensures Built(item, old(item.content.name), j, u, w') == true
    ensures forall x :: x in w'.Keys ==> x == item || x in w.Keys
  {
    item.content := item.content.(kind := kind);
    assert Building(last, Roots(kids), w) == true;
    u, w' := CloseTree(item, head, last, kids, w);
  }

  /** The items of a chain, with `n` linked behind them but not parsed yet; `s` are all of them. */
  ghost predicate Linking(head: Item?, n: Item, s: seq<Item>, kids: seq<Tree>, w: World)
    reads w.Keys, s`next, s`prev
  {
    && s == Roots(kids) + [n] && n !in w && (forall x :: x in Roots(kids) ==> x in w) && AllMatch(kids, w) && Single(w)
    && Closed(w, s) && Chained(s) && head == At(s, 0)
  }

  /** A new item at the end of a chain. */
  method NewLink(head: Item?, last: Item?, ghost kids: seq<Tree>, ghost w: World)
    returns (n: Item, head': Item?, ghost s: seq<Item>)
    requires Chain(head, last, kids, w) == true
    modifies w.Keys`next
    ensures fresh(n) && n.child == null && n.items == [] && n.content == BLANK && Linking(head', n, s, kids, w) == true
  {
    n := new Item(BLANK);
    s := Roots(kids) + [n];
    assert Closed(w, s);
    ChainOn(last, n, Roots(kids), w, map[]);
    head' := if head == null then n else head;
  }

  /** A finished tree joins the chain it was linked to before it was parsed. */
  lemma {:induction false} ChainMore(head: Item?, n: Item, s: seq<Item>, kids: seq<Tree>, w: World, u: Tree, v: World)
    returns (all: seq<Tree>, w': World)
    requires Linking(head, n, s, kids, w) == true && u.node == n && Stands(u, v) == true && w.Keys !! v.Keys
    ensures all == kids + [u] && w' == w + v && Chain(head, n, all, w') == true
  {
    w' := ClosedMore(w, Roots(kids), v, n);
    all := MatchAll(kids, w, u, v);
  }

  lemma {:induction false} ItemJoins(head: Item?, n: Item, s: seq<Item>, kids: seq<Tree>, w: World, items: seq<Json>,
      j: Json, u: Tree, v: World)
    returns (all: seq<Tree>, w': World)
    requires Linking(head, n, s, kids, w) == true && SpellItems(kids, items) == true
    requires Built(n, u.content.name, j, u, v) == true && w.Keys !! v.Keys
    ensures Chain(head, n, all, w') == true && SpellItems(all, items + [j]) == true
    ensures forall x :: x in w'.Keys ==> x in w.Keys || x in v.Keys
  {
    all, w' := ChainMore(head, n, s, kids, w, u, v);
  }

  lemma {:induction false} MemberJoins(head: Item?, n: Item, s: seq<Item>, kids: seq<Tree>, w: World, ms: seq<Member>,
      m: Member, u: Tree, v: World)
    returns (all: seq<Tree>, w': World)
    requires Linking(head, n, s, kids, w) == true && SpellMembers(kids, ms) == true
    requires Built(n, Some(m.key), m.value, u, v) == true && w.Keys !! v.Keys
    ensures Chain(head, n, all, w') == true && SpellMembers(all, ms + [m]) == true
    ensures forall x :: x in w'.Keys ==> x in w.Keys || x in v.Keys
  {
    all, w' := ChainMore(head, n, s, kids, w, u, v);
  }

  lemma {:induction false} FourLetters(s: string, i: nat, w: string)
    requires |w| == 4
    ensures i + 4 <= |s| ==>
      (s[i..i + 4] == w <==> s[i] == w[0] && s[i + 1] == w[1] && s[i + 2] == w[2] && s[i + 3] == w[3])
  {
    if i + 4 <= |s| {
      var t := s[i..i + 4];
      assert t[0] == s[i] && t[1] == s[i + 1] && t[2] == s[i + 2] && t[3] == s[i + 3];
      assert t == w <==> t[0] == w[0] && t[1] == w[1] && t[2] == w[2] && t[3] == w[3];
    }
  }

  class ParseBuffer {
    const content: string
    const libc: Libc
    var offset: nat
    var depth: nat

    ghost predicate Valid()
      reads this
    {
      Terminated(content) && offset < |content|
    }

    /** A successful step ends further on, at the same depth. */
    ghost predicate Moved(ok: bool, start: nat, level: nat)
      reads this
    {
      ok ==> Valid() && depth == level && start < offset
    }

    constructor (text: string, libc: Libc)
      requires Terminated(text + ['\0'])
      ensures Valid() && content == text + ['\0'] && offset == 0 && depth == 0 && this.libc == libc
    {
      content := text + ['\0'];
      this.libc := libc;
      offset, depth := 0, 0;
    }

    /** `skip_utf8_bom`. */
    method SkipMark()
      requires Valid() && offset == 0
      modifies this`offset
      ensures Valid() && offset == AfterMark(content)
    {
      if |content| > 4 && content[0] as int == 0xEF && content[1] as int == 0xBB && content[2] as int == 0xBF {
        offset := 3;
      }
    }

    /** `buffer_skip_whitespace`. */
    method SkipWhitespace()
      requires Valid()
      modifies this`offset
      ensures Valid() && offset == Skip(content, old(offset))
    {
      while offset < |content| && content[offset] <= ' '
        invariant old(offset) <= offset <= |content|
        invariant if offset < |content| then Skip(content, old(offset)) == Skip(content, offset)
            else Skip(content, old(offset)) == |content| - 1
      {
        offset := offset + 1;
      }
      if offset == |content| {
        offset := offset - 1;
      }
    }

    /** The first pass of `parse_string`: the closing quote and the number of escapes before it. */
    method SizeString() returns (ok: bool, end: nat, skipped: nat)
      requires Valid()
      ensures ok <==> ScanQuote(content, offset + 1).Some?
      ensures ok ==> ScanQuote(content, offset + 1) == Some(end) && skipped == Escapes(content, offset + 1, end)
    {
      var start := offset + 1;
      ghost var quote := ScanQuote(content, start);
      end, skipped := start, 0;
      while end < |content| && content[end] != '"'
        invariant start <= end <= |content| && ScanQuote(content, end) == quote
        invariant quote.Some? ==>
          end <= quote.value && skipped + Escapes(content, end, quote.value) == Escapes(content, start, quote.value)
      {
        if content[end] == '\\' {
          if end + 1 >= |content| {
            return false, 0, 0;
          }
          skipped := skipped + 1;
          end := end + 1;
        }
        end := end + 1;
      }
      ok := end < |content|;
    }

    /** `parse_hex4`. */
    method ParseHex4(p: nat) returns (h: nat)
      requires p + 4 <= |content|
      ensures h == Hex4(content, p)
    {
      h := 0;
      for i := 0 to 4
        invariant h == HexSoFar(content, p, i) && AllHex(content, p, i)
      {
        var c := content[p + i];
        if '0' <= c <= '9' {
          h := h + (c as int - '0' as int);
        } else if 'A' <= c <= 'F' {
          h := h + 10 + (c as int - 'A' as int);
        } else if 'a' <= c <= 'f' {
          h := h + 10 + (c as int - 'a' as int);
        } else {
          HexNot(content, p, i);
          return 0;
        }
        if i < 3 {
          h := h * 16;
        }
      }
      HexAll(content, p);
    }

    /** The bytes of a code point, the last one first, as `utf16_literal_to_utf8` writes them. */
    static method EncodeUtf8(cp: nat) returns (bytes: string)
      requires cp <= 0x10FFFF
      ensures bytes == Utf8(cp)
    {
      var length, mark := 1, 0;
      if 0x80 <= cp < 0x800 {
        length, mark := 2, 0xC0;
      } else if 0x800 <= cp < 0x10000 {
        length, mark := 3, 0xE0;
      } else if 0x10000 <= cp {
        length, mark := 4, 0xF0;
      }
      Utf8Parts(cp, length, mark);
      bytes := [];
      var left, position := cp, length - 1;
      assert LastBytes(cp, position) + bytes == LastBytes(cp, position);
      while position > 0
        invariant 0 <= position < length && Leading(left, position) == Leading(cp, length - 1)
        invariant LastBytes(left, position) + bytes == LastBytes(cp, length - 1)
      {
        var byte := (0x80 + left % 0x40) as char;
        Associative(LastBytes(left / 0x40, position - 1), [byte], bytes);
        bytes := [byte] + bytes;
        left := left / 0x40;
        position := position - 1;
      }
      assert [] + bytes == bytes;
      bytes := [(left + mark) as char] + bytes;
    }

    /** One turn of the decoding loop. */
    method DecodeNext(p: nat, end: nat) returns (one: Option<(string, nat)>)
      requires p < end < |content|
      ensures one == DecodeOne(content, p, end)
    {
      if content[p] != '\\' {
        return Some(([content[p]], 1));
      }
      match content[p + 1] {
        case 'b' => one := Some(([8 as char], 2));
        case 'f' => one := Some(([12 as char], 2));
        case 'n' => one := Some((['\n'], 2));
        case 'r' => one := Some((['\r'], 2));
        case 't' => one := Some((['\t'], 2));
        case '"' => one := Some((['"'], 2));
        case '\\' => one := Some((['\\'], 2));
        case '/' => one := Some((['/'], 2));
        case 'u' => one := DecodeLiteral(p, end);
        case _ => one := None;
      }
    }

    /** `utf16_literal_to_utf8`. */
    method DecodeLiteral(p: nat, end: nat) returns (one: Option<(string, nat)>)
      requires p <= end < |content|
      ensures one == Utf16(content, p, end)
    {
      if end - p < 6 {
        return None;
      }
      var first := ParseHex4(p + 2);
      if 0xDC00 <= first <= 0xDFFF {
        return None;
      }
      var bytes;
      if 0xD800 <= first <= 0xDBFF {
        if end - (p + 6) < 6 || content[p + 6] != '\\' || content[p + 7] != 'u' {
          return None;
        }
        var second := ParseHex4(p + 8);
        if second < 0xDC00 || second > 0xDFFF {
          return None;
        }
        bytes := EncodeUtf8(0x10000 + first % 0x400 * 0x400 + second % 0x400);
        return Some((bytes, 12));
      }
      bytes := EncodeUtf8(first);
      return Some((bytes, 6));
    }

    /** What one turn of the second pass writes, within what the first pass estimated. */
    method DecodeTurnAt(ghost start: nat, p: nat, end: nat, ghost written: nat, ghost done: string)
      returns (ok: bool, bytes: string, n: nat)
      requires p < end < |content| && content[end] != '\\' && Sized(content, start, p, written) == true
      requires Decode(content, start, end) == PrependText(done, Decode(content, p, end))
      ensures !ok ==> Decode(content, start, end).None?
      ensures ok ==> p < p + n <= end + 1 && Sized(content, start, p + n, written + |bytes|) == true
      ensures ok ==> written + |bytes| + Escapes(content, start, end) <= end + 1 - start
      ensures ok ==> Decode(content, start, end) == PrependText(done + bytes, Decode(content, p + n, end))
    {
      var one := DecodeNext(p, end);
      DecodeTurn(content, start, p, end, done);
      if one.None? {
        return false, "", 0;
      }
      SizedTurn(content, start, p, end, written, one.value);
      return true, one.value.0, one.value.1;
    }

    /** The second pass of `parse_string`, into an array of the estimated size: every write is inside
        it, whatever the input. */
    method DecodeInto(output: array<char>, end: nat) returns (ok: bool, written: nat)
      requires Valid() && ScanQuote(content, offset + 1) == Some(end)
      requires output.Length == end - offset - Escapes(content, offset + 1, end) + 1
      modifies output
      ensures ok <==> Decode(content, offset + 1, end).Some?
      ensures ok ==> written < output.Length && output[written] == '\0'
      ensures ok ==> Decode(content, offset + 1, end) == Some(output[..written])
    {
      var start := offset + 1;
      var p := start;
      written := 0;
      ghost var done, whole := "", Decode(content, start, end);
      PrependNothing(whole);
      EscapesBound(content, start, start);
      SizedEnough(content, start, start, end, 0);
      while p < end
        invariant start <= p <= end + 1 && Sized(content, start, p, written) == true && written < output.Length
        invariant done == output[..written] && whole == PrependText(done, Decode(content, p, end))
        decreases end - p
      {
        var bytes, n;
        ok, bytes, n := DecodeTurnAt(start, p, end, written, done);
        if !ok {
          return;
        }
        CopyBytes(output, written, bytes);
        written, p, done := written + |bytes|, p + n, done + bytes;
      }
      DecodeDone(content, start, p, end, done);
      output[written] := '\0';
      assert output[..written] == done;
      ok := true;
    }

    static method CopyBytes(output: array<char>, at: nat, bytes: string)
      requires at + |bytes| <= output.Length
      modifies output
      ensures output[..at + |bytes|] == old(output[..at]) + bytes
    {
      var i := 0;
      while i < |bytes|
        invariant i <= |bytes| && output[..at] == old(output[..at]) && output[at..at + i] == bytes[..i]
      {
        output[at + i] := bytes[i];
        i := i + 1;
      }
      assert output[..at + |bytes|] == output[..at] + output[at..at + |bytes|];
    }

    /** `parse_string`. */
    method ParseString() returns (ok: bool, text: string)
      requires Valid()
      modifies this`offset
      ensures ok <==> PString(content, old(offset)).Some?
      ensures ok ==> Valid() && PString(content, old(offset)) == Some((text, offset))
    {
      text := "";
      if content[offset] != '"' {
        return false, "";
      }
      var end, skipped, written;
      ok, end, skipped := SizeString();
      if !ok {
        return;
      }
      EscapesBound(content, offset + 1, end);
      var output := new char[end - offset - skipped + 1];
      ok, written := DecodeInto(output, end);
      if !ok {
        return;
      }
      text := Cut(output[..written]);
      offset := end + 1;
    }

    /** The characters of a number, at most 63, copied for `strtod`. */
    method CopyNumber() returns (text: string)
      requires Valid()
      ensures text == content[offset..NumberEnd(content, offset, offset)]
    {
      var copy := new char[64];
      var i := 0;
      while i < 63 && Numeric(content[offset + i])
        invariant i <= 63 && offset + i < |content|
        invariant NumberEnd(content, offset, offset) == NumberEnd(content, offset, offset + i)
        invariant forall k :: 0 <= k < i ==> copy[k] == content[offset + k]
      {
        copy[i] := content[offset + i];
        i := i + 1;
      }
      copy[i] := '\0';
      text := copy[..i];
    }

    /** `parse_number`. */
    method ParseNumber() returns (ok: bool, item: Json)
      requires Valid()
      modifies this`offset
      ensures ok <==> PNumber(content, old(offset), libc).Some?
      ensures ok ==> Valid() && PNumber(content, old(offset), libc) == Some((item, offset)) && item.Number?
    {
      var text := CopyNumber();
      var number := libc.strtod(text);
      ok, item := false, Null;
      if number.Some? && 0 < number.value.1 <= |text| {
        var d := number.value.0;
        var i := if d >= INT_MAX as real then INT_MAX else if d <= INT_MIN as real then INT_MIN
            else if d >= 0.0 then d.Floor else -(-d).Floor;
        ok, item := true, Number(i, d);
        offset := offset + number.value.1;
      }
    }

    /** The three words of `parse_value`, in the order they are tried. */
    method ReadWord() returns (word: Option<(Json, nat)>)
      requires Valid()
      ensures word == PWord(content, offset)
    {
      FourLetters(content, offset, "null");
      FourLetters(content, offset, "true");
      FourLetters(content, offset, "fals");
      if offset + 4 <= |content| && content[offset..offset + 4] == "null" {
        return Some((Null, offset + 4));
      }
      if offset + 5 <= |content| && content[offset..offset + 4] == "fals" && content[offset + 4] == 'e' {
        return Some((False, offset + 5));
      }
      if offset + 4 <= |content| && content[offset..offset + 4] == "true" {
        return Some((True, offset + 4));
      }
      word := None;
    }

    /** `parse_value`, into an item that has no children yet. */
    method ParseValue(item: Item) returns (ok: bool, ghost j: Json, ghost u: Tree, ghost w: World)
      requires Valid() && item.child == null && item.items == []
      modifies this`offset, this`depth, item`content, item`child, item`items
      ensures ValueRead(content, old(offset), old(depth), libc, ok, j, offset) == true
      ensures Moved(ok, old(offset), old(depth)) == true
      ensures ok ==>
        Built(item, old(item.content.name), j, u, w) == true && forall x :: x in w.Keys ==> x == item || fresh(x)
      ensures ok && j.True? ==> u.content.valueint == 1
      decreases |content| - offset, 2
    {
      j, u, w := Null, Tree(item, BLANK, []), map[];
      var word := ReadWord();
      if word.Some? {
        var value := word.value.0;
        ok, j, offset := true, value, word.value.1;
        var kind := if value.Null? then KIND_NULL else if value.False? then KIND_FALSE else KIND_TRUE;
        u, w := SetScalar(item, item.content.(kind := kind, valueint := if value.True? then 1
            else item.content.valueint), j);
      } else if content[offset] == '"' {
        var text;
        ok, text := ParseString();
        if ok {
          j := Str(text);
          u, w := SetScalar(item, item.content.(kind := KIND_STRING, valuestring := Some(text)), j);
        }
      } else if content[offset] == '-' || Digit(content[offset]) {
        var number;
        ok, number := ParseNumber();
        if ok {
          j := number;
          u, w := SetScalar(item, item.content.(kind := KIND_NUMBER, valueint := number.valueint,
              valuedouble := number.valuedouble), j);
        }
      } else if content[offset] == '[' {
        ok, j, u, w := ParseArray(item);
      } else if content[offset] == '{' {
        ok, j, u, w := ParseObject(item);
      } else {
        ok := false;
      }
    }

    /** `parse_array`. */
    method ParseArray(item: Item) returns (ok: bool, ghost j: Json, ghost u: Tree, ghost w: World)
      requires Valid() && item.child == null && item.items == [] && content[offset] == '['
      modifies this`offset, this`depth, item`content, item`child, item`items
      ensures ValueRead(content, old(offset), old(depth), libc, ok, j, offset) == true
      ensures Moved(ok, old(offset), old(depth)) == true
      ensures ok ==>
        Built(item, old(item.content.name), j, u, w) == true && forall x :: x in w.Keys ==> x == item || fresh(x)
      decreases |content| - offset, 1
    {
      j, u, w := Null, Tree(item, BLANK, []), map[];
      var head, last;
      ghost var items, kids, below;
      ok, items, head, last, kids, below := ReadArray();
      ArrayText(content, old(offset), old(depth), libc, ok, items, offset);
      if ok {
        j := Array(items);
        u, w := Complete(item, KIND_ARRAY, head, last, kids, below, j);
      }
    }

    /** Over the opening bracket or brace and any blanks, one level down. */
    method StepIn()
      requires Valid() == true && offset + 1 < |content|
      modifies this`offset, this`depth
      ensures Valid() == true && offset == Skip(content, old(offset) + 1) && depth == old(depth) + 1
    {
      depth := depth + 1;
      offset := offset + 1;
      SkipWhitespace();
    }

    /** Over the closing bracket or brace, one level up. */
    method StepOut(ghost head: Item?, ghost last: Item?, ghost kids: seq<Tree>, ghost w: World)
      requires Valid() == true && depth > 0 && offset + 1 < |content| && Chain(head, last, kids, w) == true
      modifies this`offset, this`depth
      ensures Valid() == true && offset == old(offset) + 1 && depth == old(depth) - 1
      ensures Chain(head, last, kids, w) == true
    {
      depth := depth - 1;
      offset := offset + 1;
    }

    /** Between the brackets. */
    method ReadArray()
      returns (ok: bool, ghost items: seq<Json>, head: Item?, last: Item?, ghost kids: seq<Tree>, ghost w: World)
      requires Valid() == true && offset + 1 < |content|
      modifies this`offset, this`depth
      ensures ArrayRead(content, old(offset), old(depth), libc, ok, items, offset) == true
      ensures Moved(ok, old(offset), old(depth)) == true
      ensures ok ==> Chain(head, last, kids, w) == true && SpellItems(kids, items) == true && fresh(w.Keys)
      decreases |content| - offset, 0
    {
      ok, items, head, last, kids, w := false, [], null, null, [], map[];
      EmptyChain();
      if depth >= NESTING_LIMIT {
        return;
      }
      StepIn();
      if content[offset] == ']' {
        StepOut(head, last, kids, w);
        ok := true;
        return;
      }
      ok, items, head, last, kids, w := ParseItems();
      if ok {
        StepOut(head, last, kids, w);
      }
    }

    /** The loop of `parse_array` over the items; it stops at the closing bracket. */
    method ParseItems()
      returns (ok: bool, ghost items: seq<Json>, head: Item?, last: Item?, ghost kids: seq<Tree>, ghost w: World)
      requires Valid() == true
      modifies this`offset, this`depth
      ensures ok <==> PItems(content, old(offset), old(depth), libc).Some?
      ensures ok ==> Valid() == true && offset + 1 < |content| && depth == old(depth)
      ensures ok ==> PItems(content, old(offset), old(depth), libc) == Some((items, offset))
      ensures ok ==> Chain(head, last, kids, w) == true && SpellItems(kids, items) == true && fresh(w.Keys)
      decreases |content| - offset, 6
    {
      items, head, last, kids, w := [], null, null, [], map[];
      EmptyChain();
      PrependNone(PItems(content, offset, depth, libc));
      ghost var start := offset;
      while true
        invariant Valid() && start <= offset && depth == old(depth)
        invariant ItemsSoFar(content, start, offset, depth, libc, items) == true
        invariant Chain(head, last, kids, w) == true && SpellItems(kids, items) == true && fresh(w.Keys)
        decreases |content| - offset
      {
        var more;
        ok, more, items, head, last, kids, w := ParseItemsTurn(head, last, start, items, kids, w);
        if !ok || !more {
          return;
        }
      }
    }

    /** One turn of it: an item, and the comma or bracket after it. */
    method ParseItemsTurn(head: Item?, last: Item?, ghost start: nat, ghost items: seq<Json>, ghost kids: seq<Tree>,
        ghost w: World)
      returns (ok: bool, more: bool, ghost items': seq<Json>, head': Item?, last': Item?, ghost kids': seq<Tree>,
          ghost w': World)
      requires Valid() == true && start <= offset && ItemsSoFar(content, start, offset, depth, libc, items) == true
      requires Chain(head, last, kids, w) == true && SpellItems(kids, items) == true
      modifies this`offset, this`depth, w.Keys`next
      ensures !ok ==> PItems(content, start, old(depth), libc).None?
      ensures Moved(ok, old(offset), old(depth)) == true
      ensures ok && more ==> ItemsSoFar(content, start, offset, depth, libc, items') == true
      ensures ok && !more ==> offset + 1 < |content| && PItems(content, start, depth, libc) == Some((items', offset))
      ensures ok ==> Chain(head', last', kids', w') == true && SpellItems(kids', items') == true
      ensures ok ==> forall x :: x in w'.Keys ==> x in w.Keys || fresh(x)
      decreases |content| - offset, 5
    {
      ghost var at := offset;
      ghost var v;
      more, items' := false, items;
      ok, v, head', last', kids', w' := ParseItem(head, last, kids, w, items);
      if !ok {
        ItemsStop(content, start, at, old(depth), libc, items);
        return;
      }
      items' := items + [v];
      ok, more := AfterItem(start, at, items, v);
      assert Chain(head', last', kids', w') == true;
    }

    /** What follows an item. */
    method AfterItem(ghost start: nat, ghost at: nat, ghost items: seq<Json>, ghost v: Json)
      returns (ok: bool, more: bool)
      requires Valid() == true && at < offset && ItemsSoFar(content, start, at, depth, libc, items) == true
      requires PValue(content, at, depth, libc) == Some((v, offset))
      modifies this`offset
      ensures !ok ==> PItems(content, start, depth, libc).None?
      ensures ok ==> Valid() && old(offset) <= offset
      ensures ok && more ==> ItemsSoFar(content, start, offset, depth, libc, items + [v]) == true
      ensures ok && !more ==>
        offset + 1 < |content| && PItems(content, start, depth, libc) == Some((items + [v], offset))
    {
      ghost var end := offset;
      SkipWhitespace();
      ItemsTurn(content, start, at, depth, libc, items, v, end);
      ok, more := true, content[offset] == ',';
      if more {
        offset := offset + 1;
        SkipWhitespace();
      } else {
        ok := content[offset] == ']';
      }
    }

    /** One item of an array: it is linked to the chain, then parsed. */
    method ParseItem(head: Item?, last: Item?, ghost kids: seq<Tree>, ghost w: World, ghost items: seq<Json>)
      returns (ok: bool, ghost v: Json, head': Item?, n: Item, ghost all: seq<Tree>, ghost w': World)
      requires Valid() == true && Chain(head, last, kids, w) == true && SpellItems(kids, items) == true
      modifies this`offset, this`depth, w.Keys`next
      ensures ValueRead(content, old(offset), old(depth), libc, ok, v, offset) == true
      ensures Moved(ok, old(offset), old(depth)) == true
      ensures ok ==> Chain(head', n, all, w') == true && SpellItems(all, items + [v]) == true
      ensures ok ==> forall x :: x in w'.Keys ==> x in w.Keys || fresh(x)
      decreases |content| - offset, 4
    {
      ghost var s, u, below;
      n, head', s := NewLink(head, last, kids, w);
      assert offset == old(offset) && depth == old(depth);
      all, w' := kids, w;
      ok, v, u, below := FillItem(head', n, s, kids, w);
      if ok {
        all, w' := ItemJoins(head', n, s, kids, w, items, v, u, below);
      }
    }

    /** The new item is parsed; the chain it is on does not change. */
    method FillItem(ghost head: Item?, n: Item, ghost s: seq<Item>, ghost kids: seq<Tree>, ghost w: World)
      returns (ok: bool, ghost v: Json, ghost u: Tree, ghost below: World)
      requires Valid() == true && n.child == null && n.items == [] && Linking(head, n, s, kids, w) == true
      modifies this`offset, this`depth, n`content, n`child, n`items
      ensures ValueRead(content, old(offset), old(depth), libc, ok, v, offset) == true
      ensures Moved(ok, old(offset), old(depth)) == true
      ensures Linking(head, n, s, kids, w) == true
      ensures ok ==> Built(n, u.content.name, v, u, below) == true && forall x :: x in below.Keys ==> x == n || fresh(x)
      decreases |content| - offset, 3
    {
      assert forall x :: x in w.Keys ==> x != n;
      ok, v, u, below := ParseValue(n);
      assert Closed(w, s) == true && Chained(s) == true;
    }

    /** `parse_object`. */
    method ParseObject(item: Item) returns (ok: bool, ghost j: Json, ghost u: Tree, ghost w: World)
      requires Valid() && item.child == null && item.items == [] && content[offset] == '{'
      modifies this`offset, this`depth, item`content, item`child, item`items
      ensures ValueRead(content, old(offset), old(depth), libc, ok, j, offset) == true
      ensures Moved(ok, old(offset), old(depth)) == true
      ensures ok ==>
        Built(item, old(item.content.name), j, u, w) == true && forall x :: x in w.Keys ==> x == item || fresh(x)
      decreases |content| - offset, 1
    {
      j, u, w := Null, Tree(item, BLANK, []), map[];
      var head, last;
      ghost var ms, kids, below;
      ok, ms, head, last, kids, below := ReadObject();
      ObjectText(content, old(offset), old(depth), libc, ok, ms, offset);
      if ok {
        j := Object(ms);
        u, w := Complete(item, KIND_OBJECT, head, last, kids, below, j);
      }
    }

    /** Between the braces. */
    method ReadObject()
      returns (ok: bool, ghost ms: seq<Member>, head: Item?, last: Item?, ghost kids: seq<Tree>, ghost w: World)
      requires Valid() == true && offset + 1 < |content|
      modifies this`offset, this`depth
      ensures ObjectRead(content, old(offset), old(depth), libc, ok, ms, offset) == true
      ensures Moved(ok, old(offset), old(depth)) == true
      ensures ok ==> Chain(head, last, kids, w) == true && SpellMembers(kids, ms) == true && fresh(w.Keys)
      decreases |content| - offset, 0
    {
      ok, ms, head, last, kids, w := false, [], null, null, [], map[];
      EmptyChain();
      if depth >= NESTING_LIMIT {
        return;
      }
      StepIn();
      if content[offset] == '}' {
        StepOut(head, last, kids, w);
        ok := true;
        return;
      }
      ok, ms, head, last, kids, w := ParseMembers();
      if ok {
        StepOut(head, last, kids, w);
      }
    }

    /** The loop of `parse_object` over the members; it stops at the closing brace. */
    method ParseMembers()
      returns (ok: bool, ghost ms: seq<Member>, head: Item?, last: Item?, ghost kids: seq<Tree>, ghost w: World)
      requires Valid() == true
      modifies this`offset, this`depth
      ensures ok <==> PMembers(content, old(offset), old(depth), libc).Some?
      ensures ok ==> Valid() == true && offset + 1 < |content| && depth == old(depth)
      ensures ok ==> PMembers(content, old(offset), old(depth), libc) == Some((ms, offset))
      ensures ok ==> Chain(head, last, kids, w) == true && SpellMembers(kids, ms) == true && fresh(w.Keys)
      decreases |content| - offset, 6
    {
      ms, head, last, kids, w := [], null, null, [], map[];
      EmptyChain();
      PrependNone(PMembers(content, offset, depth, libc));
      ghost var start := offset;
      while true
        invariant Valid() && start <= offset && depth == old(depth)
        invariant MembersSoFar(content, start, offset, depth, libc, ms) == true
        invariant Chain(head, last, kids, w) == true && SpellMembers(kids, ms) == true && fresh(w.Keys)
        decreases |content| - offset
      {
        var more;
        ok, more, ms, head, last, kids, w := ParseMembersTurn(head, last, start, ms, kids, w);
        if !ok || !more {
          return;
        }
      }
    }

    /** One turn of it: a member, and the comma or brace after it. */
    method ParseMembersTurn(head: Item?, last: Item?, ghost start: nat, ghost ms: seq<Member>, ghost kids: seq<Tree>,
        ghost w: World)
      returns (ok: bool, more: bool, ghost ms': seq<Member>, head': Item?, last': Item?, ghost kids': seq<Tree>,
          ghost w': World)
      requires Valid() == true && start <= offset && MembersSoFar(content, start, offset, depth, libc, ms) == true
      requires Chain(head, last, kids, w) == true && SpellMembers(kids, ms) == true
      modifies this`offset, this`depth, w.Keys`next
      ensures !ok ==> PMembers(content, start, old(depth), libc).None?
      ensures Moved(ok, old(offset), old(depth)) == true
      ensures ok && more ==> MembersSoFar(content, start, offset, depth, libc, ms') == true
      ensures ok && !more ==> offset + 1 < |content| && PMembers(content, start, depth, libc) == Some((ms', offset))
      ensures ok ==> Chain(head', last', kids', w') == true && SpellMembers(kids', ms') == true
      ensures ok ==> forall x :: x in w'.Keys ==> x in w.Keys || fresh(x)
      decreases |content| - offset, 5
    {
      ghost var at := offset;
      ghost var v;
      more, ms' := false, ms;
      ok, v, head', last', kids', w' := ParseMember(head, last, kids, w, ms);
      if !ok {
        MembersStop(content, start, at, old(depth), libc, ms);
        return;
      }
      ms' := ms + [v];
      ok, more := AfterMember(start, at, ms, v);
      assert Chain(head', last', kids', w') == true;
    }

    /** What follows a member. */
    method AfterMember(ghost start: nat, ghost at: nat, ghost ms: seq<Member>, ghost v: Member)
      returns (ok: bool, more: bool)
      requires Valid() == true && at < offset && MembersSoFar(content, start, at, depth, libc, ms) == true
      requires PMember(content, at, depth, libc) == Some((v, offset))
      modifies this`offset
      ensures !ok ==> PMembers(content, start, depth, libc).None?
      ensures ok ==> Valid() && old(offset) <= offset
      ensures ok && more ==> MembersSoFar(content, start, offset, depth, libc, ms + [v]) == true
      ensures ok && !more ==>
        offset + 1 < |content| && PMembers(content, start, depth, libc) == Some((ms + [v], offset))
    {
      ghost var end := offset;
      SkipWhitespace();
      MembersTurn(content, start, at, depth, libc, ms, v, end);
      ok, more := true, content[offset] == ',';
      if more {
        offset := offset + 1;
        SkipWhitespace();
      } else {
        ok := content[offset] == '}';
      }
    }

    /** One member of an object: it is linked to the chain, then its name and its value are parsed. */
    method ParseMember(head: Item?, last: Item?, ghost kids: seq<Tree>, ghost w: World, ghost ms: seq<Member>)
      returns (ok: bool, ghost m: Member, head': Item?, n: Item, ghost all: seq<Tree>, ghost w': World)
      requires Valid() == true && Chain(head, last, kids, w) == true && SpellMembers(kids, ms) == true
      modifies this`offset, this`depth, w.Keys`next
      ensures MemberRead(content, old(offset), old(depth), libc, ok, m, offset) == true
      ensures Moved(ok, old(offset), old(depth)) == true
      ensures ok ==> Chain(head', n, all, w') == true && SpellMembers(all, ms + [m]) == true
      ensures ok ==> forall x :: x in w'.Keys ==> x in w.Keys || fresh(x)
      decreases |content| - offset, 4
    {
      ghost var s, u, below;
      n, head', s := NewLink(head, last, kids, w);
      assert offset == old(offset) && depth == old(depth);
      all, w' := kids, w;
      ok, m, u, below := FillMember(head', n, s, kids, w);
      if ok {
        all, w' := MemberJoins(head', n, s, kids, w, ms, m, u, below);
      }
    }

    /** The new item is parsed; the chain it is on does not change. */
    method FillMember(ghost head: Item?, n: Item, ghost s: seq<Item>, ghost kids: seq<Tree>, ghost w: World)
      returns (ok: bool, ghost m: Member, ghost u: Tree, ghost below: World)
      requires Valid() == true && n.child == null && n.items == [] && Linking(head, n, s, kids, w) == true
      modifies this`offset, this`depth, n`content, n`child, n`items
      ensures MemberRead(content, old(offset), old(depth), libc, ok, m, offset) == true
      ensures Moved(ok, old(offset), old(depth)) == true
      ensures Linking(head, n, s, kids, w) == true
      ensures ok ==>
        Built(n, Some(m.key), m.value, u, below) == true && forall x :: x in below.Keys ==> x == n || fresh(x)
      decreases |content| - offset, 3
    {
      assert forall x :: x in w.Keys ==> x != n;
      ok, m, u, below := ParseNameAndValue(n);
      assert Closed(w, s) == true && Chained(s) == true;
    }

    /** Where a text ends; if all of it has to be read, there must be nothing but blanks left. */
    method EndOfText(whole: bool) returns (ok: bool, end: nat)
      requires Valid()
      modifies this`offset
      ensures ok <==> !whole || content[Skip(content, old(offset))] == '\0'
      ensures ok ==> end == if whole then Skip(content, old(offset)) else old(offset)
    {
      if whole {
        SkipWhitespace();
      }
      ok, end := !whole || content[offset] == '\0', offset;
    }

    /** The name and the colon of a member, up to its value. */
    method ParseName() returns (ok: bool, key: string)
      requires Valid()
      modifies this`offset
      ensures NameRead(content, old(offset), ok, key, offset) == true && (ok ==> Valid() && old(offset) < offset)
    {
      ok, key := ParseString();
      if !ok {
        return;
      }
      SkipWhitespace();
      if content[offset] != ':' {
        ok := false;
        return;
      }
      offset := offset + 1;
      SkipWhitespace();
    }

    /** The name, the colon and the value of a member. */
    method ParseNameAndValue(n: Item) returns (ok: bool, ghost m: Member, ghost u: Tree, ghost w: World)
      requires Valid() && n.child == null && n.items == []
      modifies this`offset, this`depth, n`content, n`child, n`items
      ensures MemberRead(content, old(offset), old(depth), libc, ok, m, offset) == true
      ensures Moved(ok, old(offset), old(depth)) == true
      ensures ok ==> Built(n, Some(m.key), m.value, u, w) == true && forall x :: x in w.Keys ==> x == n || fresh(x)
      decreases |content| - offset, 2
    {
      m, u, w := Member("", Null), Tree(n, BLANK, []), map[];
      var key;
      ok, key := ParseName();
      ghost var at, named := offset, ok;
      ghost var v := Null;
      if ok {
        n.content := n.content.(name := Some(key), valuestring := None);
        ok, v, u, w := ParseValue(n);
        m := Member(key, v);
      }
      MemberText(content, old(offset), old(depth), libc, named, key, at, ok, m, offset);
    }
  }

  /** `cJSON_ParseWithOpts` on a NUL-terminated text: the item it returns, and where it stopped. */
  method Parse(text: string, whole: bool, libc: Libc)
    returns (item: Item?, end: nat, ghost j: Json, ghost u: Tree, ghost w: World)
    requires Terminated(text + ['\0'])
    ensures item == null <==> ParseText(text, whole, libc).None?
    ensures item != null ==> ParseText(text, whole, libc) == Some((j, end))
    ensures item != null ==>
      Built(item, None, j, u, w) == true && fresh(w.Keys) && item.next == null && item.prev == null
  {
    var buffer := new ParseBuffer(text, libc);
    ghost var s := buffer.content;
    buffer.SkipMark();
    buffer.SkipWhitespace();
    ghost var start := buffer.offset;
    var top := new Item(BLANK);
    var ok;
    ok, j, u, w := buffer.ParseValue(top);
    ghost var read, e := ok, buffer.offset;
    item, end := null, 0;
    if ok {
      ok, end := buffer.EndOfText(whole);
      if ok {
        item := top;
      }
    }
    TextRead(text, s, whole, libc, start, read, j, e, item != null, end);
  }

  /** A value, and perhaps the end of the text behind it. */
  lemma {:induction false} TextRead(text: string, s: string, whole: bool, c: Libc, start: nat, read: bool, j: Json,
      e: nat, ok: bool, end: nat)
    requires s == text + ['\0'] && Terminated(s) && start == Skip(s, AfterMark(s))
    requires ValueRead(s, start, 0, c, read, j, e) == true && (read ==> e < |s|)
    requires ok <==> read && (!whole || s[Skip(s, e)] == '\0')
    requires ok ==> end == if whole then Skip(s, e) else e
    ensures ok <==> ParseText(text, whole, c).Some?
    ensures ok ==> ParseText(text, whole, c) == Some((j, end))
  {
  }
}
