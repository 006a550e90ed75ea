/** JSON Pointer (sections 3 and 4 of RFC 6901) as apps/cjson/cJSON_Utils.c implements it. A node is
    named by its index path: the child index taken at every level below the root. */
module JsonPointer {
  import opened Basics
  import opened Json

  // ----- escaping: encode_string_as_pointer -----

  function Escape(c: char): string {
    if c == '~' then "~0" else if c == '/' then "~1" else [c]
  }

  /** The escaped form of the first `n` characters of a key. */
  function EncodeTo(key: string, n: nat): string
    requires n <= |key|
  {
    if n == 0 then "" else EncodeTo(key, n - 1) + Escape(key[n - 1])
  }

  function Encode(key: string): string {
    EncodeTo(key, |key|)
  }

  /** `pointer_encoded_length` of the first `n` characters. */
  function EncodedLength(key: string, n: nat): nat
    requires n <= |key|
  {
    if n == 0 then 0 else EncodedLength(key, n - 1) + if key[n - 1] == '~' || key[n - 1] == '/' then 2 else 1
  }

  /** Where the escape of character `i` stands in the escaped key. */
  lemma {:induction false} EncodedAt(key: string, n: nat, i: nat)
    requires i < n <= |key|
    ensures EncodedLength(key, i) + |Escape(key[i])| == EncodedLength(key, i + 1) <= EncodedLength(key, n)
        == |EncodeTo(key, n)|
    ensures EncodeTo(key, n)[EncodedLength(key, i)] == Escape(key[i])[0]
    ensures |Escape(key[i])| == 2 ==> EncodeTo(key, n)[EncodedLength(key, i) + 1] == Escape(key[i])[1]
  {
    EncodedSize(key, n - 1);
    EncodedSize(key, n);
    if i < n - 1 {
      EncodedAt(key, n - 1, i);
    }
  }

  lemma {:induction false} EncodedSize(key: string, n: nat)
    requires n <= |key|
    ensures |EncodeTo(key, n)| == EncodedLength(key, n)
  {
    if n > 0 {
      EncodedSize(key, n - 1);
    }
  }

  lemma {:induction false} EncodedGrows(key: string, i: nat, n: nat)
    requires i <= n <= |key|
    ensures EncodedLength(key, i) + (n - i) <= EncodedLength(key, n)
  {
    if i < n {
      EncodedGrows(key, i, n - 1);
    }
  }

  lemma {:induction false} EncodedSlashFree(key: string, n: nat)
    requires n <= |key|
    ensures '/' !in EncodeTo(key, n)
  {
    if n > 0 {
      EncodedSlashFree(key, n - 1);
    }
  }

  /** `encode_string_as_pointer` into a buffer of `pointer_encoded_length` and one more: every write
      is in bounds and the buffer ends up filled exactly. */
  method EncodeStringAsPointer(source: string) returns (destination: array<char>)
    ensures destination[..] == Encode(source) + ['\0']
  {
    EncodedSize(source, |source|);
    ghost var e := Encode(source);
    destination := new char[EncodedLength(source, |source|) + 1];
    var i, d := 0, 0;
    while i < |source|
      invariant i <= |source| && d == EncodedLength(source, i) <= |e| < destination.Length
      invariant forall x :: 0 <= x < d ==> destination[x] == e[x]
    {
      EncodedAt(source, |source|, i);
      if source[i] == '/' {
        destination[d] := '~';
        destination[d + 1] := '1';
        d := d + 1;
      } else if source[i] == '~' {
        destination[d] := '~';
        destination[d + 1] := '0';
        d := d + 1;
      } else {
        destination[d] := source[i];
      }
      d := d + 1;
      i := i + 1;
    }
    destination[d] := '\0';
  }

  // ----- comparing a key with a path token: compare_pointers -----

  predicate SameChar(a: char, b: char, cs: bool) {
    if cs then a == b else Lower(a) == Lower(b)
  }

  predicate MatchFrom(name: string, i: nat, token: string, j: nat, cs: bool)
    decreases |name| - i
  {
    if i < |name| && j < |token| then
      if token[j] == '~' then
        && j + 1 < |token|
        && ((token[j + 1] == '0' && name[i] == '~') || (token[j + 1] == '1' && name[i] == '/'))
        && MatchFrom(name, i + 1, token, j + 2, cs)
      else SameChar(name[i], token[j], cs) && MatchFrom(name, i + 1, token, j + 1, cs)
    else j < |token| <==> i < |name|
  }

  predicate MatchToken(name: string, token: string, cs: bool) {
    MatchFrom(name, 0, token, 0, cs)
  }

  lemma {:induction false} MatchEncodedFrom(name: string, key: string, i: nat, cs: bool)
    requires i <= |name| && i <= |key|
    ensures EncodedLength(key, i) <= |Encode(key)|
    ensures MatchFrom(name, i, Encode(key), EncodedLength(key, i), cs)
      <==> |name| == |key| && forall k :: i <= k < |name| ==> SameChar(name[k], key[k], cs)
    decreases |name| - i
  {
    EncodedSize(key, |key|);
    EncodedGrows(key, i, |key|);
    if i < |key| {
      EncodedAt(key, |key|, i);
      if i < |name| {
        MatchEncodedFrom(name, key, i + 1, cs);
      }
    }
  }

  /** A key matches the escaped form of another exactly when the two are the same key, whatever
      `~`, `/` or nothing they consist of. */
  lemma {:induction false} MatchEncoded(name: string, key: string, cs: bool)
    ensures MatchToken(name, Encode(key), cs) <==> Fold(name, cs) == Fold(key, cs)
  {
    MatchEncodedFrom(name, key, 0, cs);
    var a, b := Fold(name, cs), Fold(key, cs);
    if |name| == |key| {
      assert forall k :: 0 <= k < |name| ==> (SameChar(name[k], key[k], cs) <==> a[k] == b[k]);
    }
  }

  // ----- array indices: decode_array_index_from_pointer -----

  const SIZE_LIMIT: nat := 0x1_0000_0000_0000_0000

  /** The number read from the first `n` characters, in arithmetic of `size_t`. */
  function IndexOf(token: string, n: nat): (r: nat)
    requires n <= |token| && forall k :: 0 <= k < n ==> '0' <= token[k]
    ensures r < SIZE_LIMIT
  {
    if n == 0 then 0 else (10 * IndexOf(token, n - 1) + (token[n - 1] as int - '0' as int)) % SIZE_LIMIT
  }

  /** How far the digit loop goes: it tests the current character against '0' but the first one
      against '9'. */
  function DigitsFrom(token: string, position: nat): (r: nat)
    requires position <= |token| && forall k :: 0 <= k < position ==> '0' <= token[k]
    ensures position <= r <= |token| && forall k :: 0 <= k < r ==> '0' <= token[k]
    ensures r < |token| ==> token[r] < '0' || token[0] > '9'
    decreases |token| - position
  {
    if position < |token| && token[position] >= '0' && token[0] <= '9' then DigitsFrom(token, position + 1)
        else position
  }

  function DecodeIndex(token: string): (r: Option<nat>)
    ensures r.Some? <==>
        token == "" || token == "0" || ('1' <= token[0] <= '9' && forall k :: 0 <= k < |token| ==> '0' <= token[k])
  {
    if |token| > 1 && token[0] == '0' then None
    else
      var position := DigitsFrom(token, 0);
      if position < |token| then None else Some(IndexOf(token, position))
  }

  /** `%lu` */
  function Decimal(n: nat): (r: string)
    ensures |r| > 0 && forall k :: 0 <= k < |r| ==> '0' <= r[k] <= '9'
    ensures n > 0 ==> r[0] != '0'
  {
    if n < 10 then ['0' + n as char] else Decimal(n / 10) + ['0' + (n % 10) as char]
  }

  lemma {:induction false} IndexPrefix(token: string, more: string, n: nat)
    requires n <= |token| <= |more| && forall k :: 0 <= k < |token| ==> token[k] == more[k]
    requires forall k :: 0 <= k < |more| ==> '0' <= more[k]
    ensures (forall k :: 0 <= k < n ==> '0' <= token[k]) && IndexOf(more, n) == IndexOf(token, n)
  {
    if n > 0 {
      IndexPrefix(token, more, n - 1);
    }
  }

  lemma {:induction false} IndexOfDecimal(n: nat)
    requires n < SIZE_LIMIT
    ensures IndexOf(Decimal(n), |Decimal(n)|) == n
  {
    if n >= 10 {
      IndexOfDecimal(n / 10);
      IndexPrefix(Decimal(n / 10), Decimal(n), |Decimal(n / 10)|);
    }
  }

  lemma {:induction false} DecodeDecimal(n: nat)
    requires n < SIZE_LIMIT
    ensures DecodeIndex(Decimal(n)) == Some(n)
  {
    IndexOfDecimal(n);
  }

  lemma {:induction false} DecimalSlashFree(n: nat)
    ensures '/' !in Decimal(n) && '~' !in Decimal(n)
  {
  }

  // ----- pointer texts -----

  /** The pointer made of some path tokens. */
  function Text(tokens: seq<string>, k: nat): string
    requires k <= |tokens|
    decreases |tokens| - k
  {
    if k == |tokens| then "" else "/" + tokens[k] + Text(tokens, k + 1)
  }

  /** The next '/' from `i` on, or the end. */
  function Slash(s: string, i: nat): (r: nat)
    requires i <= |s|
    ensures i <= r <= |s| && (r < |s| ==> s[r] == '/') && forall k :: i <= k < r ==> s[k] != '/'
    decreases |s| - i
  {
    if i < |s| && s[i] != '/' then Slash(s, i + 1) else i
  }

  /** The tokens of a pointer from a position on; anything but a '/' there ends it. */
  function Tokens(s: string, i: nat): seq<string>
    requires i <= |s|
    decreases |s| - i
  {
    if i == |s| || s[i] != '/' then [] else [s[i + 1..Slash(s, i + 1)]] + Tokens(s, Slash(s, i + 1))
  }

  predicate SlashFree(tokens: seq<string>) {
    forall k :: 0 <= k < |tokens| ==> '/' !in tokens[k]
  }

  /** The first token after a slash. */
  lemma {:induction false} FirstToken(before: string, t: string, rest: string, s: string)
    requires s == before + "/" + t + rest && '/' !in t && (rest == "" || rest[0] == '/')
    ensures |before| + 1 + |t| <= |s| && s[|before|] == '/' && Slash(s, |before| + 1) == |before| + 1 + |t|
    ensures s[|before| + 1..|before| + 1 + |t|] == t
  {
    var b, e := |before| + 1, |before| + 1 + |t|;
    assert s[|before|] == '/' && s[b..e] == t;
    forall x | b <= x < e ensures s[x] != '/' {
      assert s[x] == t[x - b];
    }
    if rest != "" {
      assert s[e] == rest[0];
    }
  }

  lemma {:induction false} Regroup(before: string, t: string, rest: string)
    ensures before + ("/" + t + rest) == before + "/" + t + rest
  {
  }

  lemma {:induction false} TextHead(tokens: seq<string>, k: nat)
    requires k <= |tokens|
    ensures Text(tokens, k) == "" || Text(tokens, k)[0] == '/'
  {
  }

  lemma {:induction false} TokensMore(s: string, b: nat, e: nat, tokens: seq<string>, k: nat)
    requires b < e <= |s| && s[b] == '/' && Slash(s, b + 1) == e && k < |tokens| && s[b + 1..e] == tokens[k]
    requires Tokens(s, e) == tokens[k + 1..]
    ensures Tokens(s, b) == tokens[k..]
  {
  }

  /** Reading back the text of some tokens. */
  lemma {:induction false} TokensOfText(before: string, tokens: seq<string>, k: nat, s: string)
    requires k <= |tokens| && SlashFree(tokens) && s == before + Text(tokens, k)
    ensures Tokens(s, |before|) == tokens[k..]
    decreases |tokens| - k
  {
    if k < |tokens| {
      TextHead(tokens, k + 1);
      Regroup(before, tokens[k], Text(tokens, k + 1));
      FirstToken(before, tokens[k], Text(tokens, k + 1), s);
      TokensOfText(before + "/" + tokens[k], tokens, k + 1, s);
      TokensMore(s, |before|, |before| + 1 + |tokens[k]|, tokens, k);
    }
  }

  // ----- nodes -----

  function Count(j: Json): nat {
    match j
    case Array(items) => |items|
    case Object(ms) => |ms|
    case _ => 0
  }

  function Child(j: Json, i: nat): (r: Json)
    requires i < Count(j)
    ensures r < j
  {
    match j
    case Array(items) => items[i]
    case Object(ms) => ms[i].value
  }

  predicate IsNode(j: Json, path: seq<nat>, k: nat)
    requires k <= |path|
    decreases |path| - k
  {
    k < |path| ==> path[k] < Count(j) && IsNode(Child(j, path[k]), path, k + 1)
  }

  // ----- get_item_from_pointer -----

  /** The first member from `i` on whose key matches the token. */
  function FindToken(ms: seq<Member>, token: string, cs: bool, i: nat): (r: nat)
    requires i <= |ms|
    ensures i <= r <= |ms| && (r < |ms| ==> MatchToken(ms[r].key, token, cs))
    ensures forall k :: i <= k < r ==> !MatchToken(ms[k].key, token, cs)
    decreases |ms| - i
  {
    if i < |ms| && !MatchToken(ms[i].key, token, cs) then FindToken(ms, token, cs, i + 1) else i
  }

  /** The child one token leads to. */
  function Step(j: Json, token: string, cs: bool): (r: Option<nat>)
    ensures r.Some? ==> r.value < Count(j)
  {
    match j
    case Array(items) =>
      var index := DecodeIndex(token);
      if index.Some? && index.value < |items| then index else None
    case Object(ms) =>
      var i := FindToken(ms, token, cs, 0);
      if i < |ms| then Some(i) else None
    case _ => None
  }

  /** The node that the tokens from `k` on lead to. */
  function Resolve(j: Json, tokens: seq<string>, k: nat, cs: bool): Option<seq<nat>>
    requires k <= |tokens|
    decreases |tokens| - k
  {
    if k == |tokens| then Some([])
    else match Step(j, tokens[k], cs)
      case None => None
      case Some(i) => match Resolve(Child(j, i), tokens, k + 1, cs)
        case None => None
        case Some(rest) => Some([i] + rest)
  }

  function Prefixed(path: seq<nat>, rest: Option<seq<nat>>): Option<seq<nat>> {
    match rest
    case None => None
    case Some(tail) => Some(path + tail)
  }

  /** Having followed `path` to `current`, what remains is to follow the tokens from `k` on. */
  ghost predicate Following(root: Json, all: seq<string>, k: nat, path: seq<nat>, current: Json, cs: bool) {
    k <= |all| && Resolve(root, all, 0, cs) == Prefixed(path, Resolve(current, all, k, cs))
  }

  lemma {:induction false} FollowStart(root: Json, all: seq<string>, cs: bool)
    ensures Following(root, all, 0, [], root, cs)
  {
    var r := Resolve(root, all, 0, cs);
    if r.Some? {
      assert [] + r.value == r.value;
    }
  }

  lemma {:induction false} FollowStep(root: Json, all: seq<string>, k: nat, path: seq<nat>, current: Json, i: nat,
      cs: bool)
    requires Following(root, all, k, path, current, cs) && k < |all| && Step(current, all[k], cs) == Some(i)
    ensures Following(root, all, k + 1, path + [i], Child(current, i), cs)
  {
    var rest := Resolve(Child(current, i), all, k + 1, cs);
    if rest.Some? {
      assert path + ([i] + rest.value) == path + [i] + rest.value;
    }
  }

  lemma {:induction false} FollowEnd(root: Json, all: seq<string>, k: nat, path: seq<nat>, current: Json, cs: bool)
    requires Following(root, all, k, path, current, cs)
    ensures k == |all| ==> Resolve(root, all, 0, cs) == Some(path)
    ensures k < |all| && Step(current, all[k], cs).None? ==> Resolve(root, all, 0, cs) == None
  {
    assert path + [] == path;
  }

  /** One turn of `get_item_from_pointer`: the child of an array or object that the token names. */
  method SelectChild(current: Json, token: string, cs: bool) returns (r: Option<nat>)
    ensures r == Step(current, token, cs)
  {
    match current {
      case Array(items) =>
        var index := DecodeIndex(token);
        if index.None? || |items| <= index.value {
          return None;
        }
        return index;
      case Object(ms) =>
        var i := 0;
        while i < |ms| && !MatchToken(ms[i].key, token, cs)
          invariant i <= |ms| && FindToken(ms, token, cs, 0) == FindToken(ms, token, cs, i)
        {
          i := i + 1;
        }
        return if i < |ms| then Some(i) else None;
      case _ =>
        return None;
    }
  }

  method SkipToken(pointer: string, p: nat) returns (e: nat)
    requires p <= |pointer|
    ensures e == Slash(pointer, p)
  {
    e := p;
    while e < |pointer| && pointer[e] != '/'
      invariant p <= e <= |pointer| && Slash(pointer, p) == Slash(pointer, e)
    {
      e := e + 1;
    }
  }

  lemma {:induction false} NextToken(pointer: string, p: nat, all: seq<string>, k: nat)
    requires p < |pointer| && pointer[p] == '/' && k <= |all| && Tokens(pointer, p) == all[k..]
    ensures k < |all| && all[k] == pointer[p + 1..Slash(pointer, p + 1)]
    ensures Tokens(pointer, Slash(pointer, p + 1)) == all[k + 1..]
  {
    assert all[k..][0] == pointer[p + 1..Slash(pointer, p + 1)] && all[k..][1..] == all[k + 1..];
  }

  /** `get_item_from_pointer`. */
  method GetItemFromPointer(root: Json, pointer: string, cs: bool) returns (r: Option<seq<nat>>)
    ensures r == Resolve(root, Tokens(pointer, 0), 0, cs)
  {
    var current, path, p := root, [], 0;
    ghost var all, k := Tokens(pointer, 0), 0;
    FollowStart(root, all, cs);
    while p < |pointer| && pointer[p] == '/'
      invariant p <= |pointer| && Following(root, all, k, path, current, cs) && Tokens(pointer, p) == all[k..]
      decreases |pointer| - p
    {
      var e := SkipToken(pointer, p + 1);
      NextToken(pointer, p, all, k);
      var i := SelectChild(current, pointer[p + 1..e], cs);
      if i.None? {
        FollowEnd(root, all, k, path, current, cs);
        return None;
      }
      FollowStep(root, all, k, path, current, i.value, cs);
      current, path, p, k := Child(current, i.value), path + [i.value], e, k + 1;
    }
    assert all[k..] == [];
    FollowEnd(root, all, k, path, current, cs);
    r := Some(path);
  }

  // ----- cJSONUtils_FindPointerFromObjectTo -----

  const ULONG_MAX: nat := 0xFFFF_FFFF_FFFF_FFFF

  /** The token for one child: its index in an array, its escaped key in an object. */
  function TokenOf(j: Json, i: nat): Option<string>
    requires i < Count(j)
  {
    match j
    case Array(_) => if i > ULONG_MAX then None else Some(Decimal(i))
    case Object(ms) => Some(Encode(ms[i].key))
  }

  /** The pointer text found for a node; no text when an array index does not fit. */
  function FindPointer(j: Json, path: seq<nat>, k: nat): Option<string>
    requires k <= |path| && IsNode(j, path, k)
    decreases |path| - k
  {
    if k == |path| then Some("")
    else match FindPointer(Child(j, path[k]), path, k + 1)
      case None => None
      case Some(rest) => match TokenOf(j, path[k])
        case None => None
        case Some(token) => Some("/" + token + rest)
  }

  ghost predicate IndicesFit(j: Json, path: seq<nat>, k: nat)
    requires k <= |path| && IsNode(j, path, k)
    decreases |path| - k
  {
    k < |path| ==> (j.Array? ==> path[k] <= ULONG_MAX) && IndicesFit(Child(j, path[k]), path, k + 1)
  }

  lemma {:induction false} StepBack(j: Json, i: nat, cs: bool)
    requires Keyed(j, cs) && i < Count(j) && TokenOf(j, i).Some?
    ensures Step(j, TokenOf(j, i).value, cs) == Some(i) && '/' !in TokenOf(j, i).value
  {
    match j {
      case Array(_) =>
        DecodeDecimal(i);
        DecimalSlashFree(i);
      case Object(ms) =>
        var token := Encode(ms[i].key);
        EncodedSlashFree(ms[i].key, |ms[i].key|);
        var r := FindToken(ms, token, cs, 0);
        MatchEncoded(ms[i].key, ms[i].key, cs);
        if r < |ms| {
          MatchEncoded(ms[r].key, ms[i].key, cs);
        }
    }
  }

  lemma {:induction false} FoundTokens(j: Json, path: seq<nat>, k: nat, cs: bool) returns (tokens: seq<string>)
    requires Keyed(j, cs) && k <= |path| && IsNode(j, path, k) && IndicesFit(j, path, k)
    ensures FindPointer(j, path, k) == Some(Text(tokens, 0)) && SlashFree(tokens)
    ensures Resolve(j, tokens, 0, cs) == Some(path[k..])
    decreases |path| - k
  {
    if k == |path| {
      tokens := [];
    } else {
      var rest := FoundTokens(Child(j, path[k]), path, k + 1, cs);
      StepBack(j, path[k], cs);
      var token := TokenOf(j, path[k]).value;
      tokens := [token] + rest;
      MoreText(token, rest);
      MoreResolve(j, path[k], token, rest, cs);
      assert [path[k]] + path[k + 1..] == path[k..];
    }
  }

  lemma {:induction false} MoreText(token: string, rest: seq<string>)
    requires '/' !in token && SlashFree(rest)
    ensures SlashFree([token] + rest) && Text([token] + rest, 0) == "/" + token + Text(rest, 0)
  {
    ConsShifted(token, rest);
    ShiftText([token] + rest, rest, 0);
  }

  lemma {:induction false} MoreResolve(j: Json, i: nat, token: string, rest: seq<string>, cs: bool)
    requires Step(j, token, cs) == Some(i)
    ensures Resolve(j, [token] + rest, 0, cs) == Prefixed([i], Resolve(Child(j, i), rest, 0, cs))
  {
    ConsShifted(token, rest);
    ShiftResolve(Child(j, i), [token] + rest, rest, 0, cs);
  }

  lemma {:induction false} ConsShifted(token: string, rest: seq<string>)
    ensures Shifted([token] + rest, rest) && ([token] + rest)[0] == token
  {
  }

  predicate Shifted(all: seq<string>, rest: seq<string>) {
    |all| == |rest| + 1 && forall x :: 0 <= x < |rest| ==> all[x + 1] == rest[x]
  }

  lemma {:induction false} ShiftText(all: seq<string>, rest: seq<string>, k: nat)
    requires Shifted(all, rest) && k <= |rest|
    ensures Text(all, k + 1) == Text(rest, k)
    decreases |rest| - k
  {
    if k < |rest| {
      assert all[k + 1] == rest[k];
      ShiftText(all, rest, k + 1);
    }
  }

  lemma {:induction false} ShiftResolve(j: Json, all: seq<string>, rest: seq<string>, k: nat, cs: bool)
    requires Shifted(all, rest) && k <= |rest|
    ensures Resolve(j, all, k + 1, cs) == Resolve(j, rest, k, cs)
    decreases |rest| - k
  {
    if k < |rest| {
      assert all[k + 1] == rest[k];
      if Step(j, rest[k], cs).Some? {
        ShiftResolve(Child(j, Step(j, rest[k], cs).value), all, rest, k + 1, cs);
      }
    }
  }

  /** Resolving the text found for a node gives back that very node, and a text is found exactly
      when every array index on the way fits an unsigned long. */
  lemma {:induction false} PointerRoundTrip(j: Json, path: seq<nat>, cs: bool)
    requires Keyed(j, cs) && IsNode(j, path, 0)
    ensures FindPointer(j, path, 0).Some? <==> IndicesFit(j, path, 0)
    ensures FindPointer(j, path, 0).Some? ==> Resolve(j, Tokens(FindPointer(j, path, 0).value, 0), 0, cs) == Some(path)
  {
    FoundWhenFit(j, path, 0);
    if IndicesFit(j, path, 0) {
      var tokens := FoundTokens(j, path, 0, cs);
      assert "" + Text(tokens, 0) == Text(tokens, 0);
      TokensOfText("", tokens, 0, Text(tokens, 0));
    }
  }

  lemma {:induction false} FoundWhenFit(j: Json, path: seq<nat>, k: nat)
    requires k <= |path| && IsNode(j, path, k)
    ensures FindPointer(j, path, k).Some? <==> IndicesFit(j, path, k)
    decreases |path| - k
  {
    if k < |path| {
      FoundWhenFit(Child(j, path[k]), path, k + 1);
    }
  }

  /** Where the search from `here` down ends up: at the pointer of the target, if the target is there. */
  ghost function Sought(j: Json, here: seq<nat>, target: seq<nat>): Option<string> {
    if here <= target && IsNode(j, target, |here|) then FindPointer(j, target, |here|) else None
  }

  /** The search has passed the children before `i` without success. */
  lemma {:induction false} PassChild(j: Json, here: seq<nat>, target: seq<nat>, i: nat)
    requires here != target && i < Count(j) && Sought(Child(j, i), here + [i], target).None?
    ensures here + [i] <= target ==> Sought(j, here, target).None?
  {
    if here + [i] <= target {
      assert target[|here|] == i;
    }
  }

  lemma {:induction false} FoundBelow(j: Json, here: seq<nat>, target: seq<nat>, i: nat, rest: string)
    requires here != target && i < Count(j) && Sought(Child(j, i), here + [i], target) == Some(rest)
    ensures Sought(j, here, target) == match TokenOf(j, i)
      case None => None
      case Some(token) => Some("/" + token + rest)
  {
    assert target[|here|] == i;
  }

  /** `cJSONUtils_FindPointerFromObjectTo`: a search through all children for the target node, which
      need not be there. The node `j` itself is at `here`. */
  method FindPointerFromObjectTo(j: Json, here: seq<nat>, target: seq<nat>) returns (r: Option<string>)
    ensures r == Sought(j, here, target)
    decreases j
  {
    if here == target {
      return Some("");
    }
    var i := 0;
    while i < Count(j)
      invariant i <= Count(j)
      invariant forall k :: 0 <= k < i && here + [k] <= target ==> Sought(j, here, target).None?
    {
      var rest := FindPointerFromObjectTo(Child(j, i), here + [i], target);
      if rest.Some? {
        FoundBelow(j, here, target, i, rest.value);
        match TokenOf(j, i) {
          case None => return None;
          case Some(token) => return Some("/" + token + rest.value);
        }
      }
      PassChild(j, here, target, i);
      i := i + 1;
    }
    if here <= target && IsNode(j, target, |here|) {
      assert here + [target[|here|]] <= target;
    }
    return None;
  }
}
