/** Printing then parsing: the text of a document, formatted or not, is read back as the same
    document, to the last character, exactly when it is nested no deeper than the parser allows.
    A predicate compared with `true` in a contract is proved as one fact, not conjunct by conjunct. */
module JsonRoundTrip {
  import opened Basics
  import opened Json
  import opened JsonText
  import JsonPointer

  lemma {:induction false} Split(s: string, i: nat, a: string, b: string)
    requires Occurs(s, i, a + b)
    ensures Occurs(s, i, a) && Occurs(s, i + |a|, b)
  {
    forall k | 0 <= k < |a| ensures s[i + k] == a[k] {
      assert (a + b)[k] == a[k];
    }
    forall k | 0 <= k < |b| ensures s[i + |a| + k] == b[k] {
      assert (a + b)[|a| + k] == b[k];
      assert s[i + (|a| + k)] == b[k];
    }
  }

  lemma {:induction false} Split3(s: string, i: nat, a: string, b: string, c: string)
    requires Occurs(s, i, a + b + c)
    ensures Occurs(s, i, a) && Occurs(s, i + |a|, b) && Occurs(s, i + |a| + |b|, c)
  {
    Split(s, i, a + b, c);
    Split(s, i, a, b);
  }

  lemma {:induction false} Enclosed(s: string, i: nat, open: char, t: string, close: char)
    requires Occurs(s, i, [open] + t + [close])
    ensures i + |t| + 2 <= |s| && s[i] == open && Occurs(s, i + 1, t) && s[i + 1 + |t|] == close
  {
    Split3(s, i, [open], t, [close]);
    assert s[i + 0] == [open][0] && s[i + 1 + |t| + 0] == [close][0];
  }

  lemma {:induction false} SkipTo(s: string, i: nat, j: nat)
    requires i <= j < |s| && s[j] > ' ' && forall x :: i <= x < j ==> s[x] <= ' '
    ensures Skip(s, i) == j
    decreases j - i
  {
    if i < j {
      SkipTo(s, i + 1, j);
    }
  }

  // ----- strings -----

  /** The sizing scan passes the escape of a character as a whole. */
  lemma {:induction false} ScanPast(s: string, p: nat, c: char)
    requires Occurs(s, p, Quoted(c))
    ensures ScanQuote(s, p) == ScanQuote(s, p + |Quoted(c)|)
  {
    var q := Quoted(c);
    assert s[p + 0] == q[0];
    if |q| == 2 {
      assert s[p + 1] == q[1];
    } else if |q| == 6 {
      assert s[p + 1] == q[1] && s[p + 2] == q[2] && s[p + 3] == q[3] && s[p + 4] == q[4] && s[p + 5] == q[5];
      assert ScanQuote(s, p) == ScanQuote(s, p + 2) == ScanQuote(s, p + 3);
      assert ScanQuote(s, p + 3) == ScanQuote(s, p + 4) == ScanQuote(s, p + 5);
    }
  }

  lemma {:induction false} HexOfControl(s: string, p: nat, c: char)
    requires p + 4 <= |s| && c < ' ' && s[p] == '0' && s[p + 1] == '0' && s[p + 2] == HexDigit(c as int / 16)
    requires s[p + 3] == HexDigit(c as int % 16)
    ensures Hex4(s, p) == c as int
  {
    var a, b := c as int / 16, c as int % 16;
    assert HexValue(s[p + 2]) == Some(a) && HexValue(s[p + 3]) == Some(b);
  }

  /** The decoding loop turns the escape of a character back into it. */
  lemma {:induction false} DecodeBack(s: string, p: nat, c: char, end: nat)
    requires Occurs(s, p, Quoted(c)) && p + |Quoted(c)| <= end < |s|
    ensures DecodeOne(s, p, end) == Some(([c], |Quoted(c)|))
  {
    var q := Quoted(c);
    assert s[p + 0] == q[0];
    if |q| == 2 {
      assert s[p + 1] == q[1];
    } else if |q| == 6 {
      assert s[p + 1] == q[1] && s[p + 2] == q[2] && s[p + 3] == q[3] && s[p + 4] == q[4] && s[p + 5] == q[5];
      HexOfControl(s, p + 2, c);
      assert Utf8(c as int) == [c];
    }
  }

  lemma {:induction false} DecodeMore(s: string, p: nat, end: nat, c: char, n: nat, rest: string)
    requires p < end < |s| && DecodeOne(s, p, end) == Some(([c], n)) && Decode(s, p + n, end) == Some(rest)
    ensures Decode(s, p, end) == Some([c] + rest)
  {
  }

  lemma {:induction false} CharBack(s: string, p: nat, c: char, q: string, end: nat)
    requires q == Quoted(c) && Occurs(s, p, q) && p + |q| <= end < |s|
    ensures |q| > 0 && ScanQuote(s, p) == ScanQuote(s, p + |q|) && DecodeOne(s, p, end) == Some(([c], |q|))
  {
    ScanPast(s, p, c);
    DecodeBack(s, p, c, end);
  }

  /** The character `c` stands at `p`, escaped in `n` bytes. */
  ghost predicate Starts(s: string, p: nat, c: char, n: nat) {
    Occurs(s, p, Quoted(c)) && n == |Quoted(c)|
  }

  /** Both passes over the rest of a literal: the scan finds its quote, the loop gives its characters. */
  ghost predicate LiteralRead(s: string, p: nat, end: nat, text: string) {
    p <= end < |s| && ScanQuote(s, p) == Some(end) && Decode(s, p, end) == Some(text)
  }

  /** One more character in front of what both passes read. */
  lemma {:induction false} CharMore(s: string, p: nat, c: char, n: nat, end: nat, rest: string)
    requires Starts(s, p, c, n) && LiteralRead(s, p + n, end, rest)
    ensures LiteralRead(s, p, end, [c] + rest)
  {
    CharBack(s, p, c, Quoted(c), end);
    DecodeMore(s, p, end, c, n, rest);
  }

  /** The first character of a literal and the rest. */
  lemma {:induction false} LiteralParts(s: string, p: nat, t: string, k: nat) returns (n: nat)
    requires k < |t| && Occurs(s, p, QuotedFrom(t, k))
    ensures Starts(s, p, t[k], n) && Occurs(s, p + n, QuotedFrom(t, k + 1))
    ensures n + |QuotedFrom(t, k + 1)| == |QuotedFrom(t, k)|
  {
    n := |Quoted(t[k])|;
    Split(s, p, Quoted(t[k]), QuotedFrom(t, k + 1));
  }

  lemma {:induction false} LiteralEnd(s: string, p: nat, t: string, end: nat)
    requires end == p + |QuotedFrom(t, |t|)| < |s| && s[end] == '"'
    ensures LiteralRead(s, p, end, t[|t|..])
  {
    assert t[|t|..] == "";
  }

  lemma {:induction false} LiteralMore(s: string, p: nat, t: string, k: nat, n: nat, end: nat)
    requires k < |t| && Starts(s, p, t[k], n) && LiteralRead(s, p + n, end, t[k + 1..])
    ensures LiteralRead(s, p, end, t[k..])
  {
    CharMore(s, p, t[k], n, end, t[k + 1..]);
    assert [t[k]] + t[k + 1..] == t[k..];
  }

  lemma {:induction false} LiteralBack(s: string, p: nat, t: string, k: nat, end: nat)
    requires k <= |t| && Occurs(s, p, QuotedFrom(t, k)) && end == p + |QuotedFrom(t, k)| < |s| && s[end] == '"'
    ensures LiteralRead(s, p, end, t[k..])
    decreases |t| - k
  {
    if k == |t| {
      LiteralEnd(s, p, t, end);
    } else {
      var n := LiteralParts(s, p, t, k);
      LiteralBack(s, p + n, t, k + 1, end);
      LiteralMore(s, p, t, k, n, end);
    }
  }

  lemma {:induction false} CutWhole(t: string)
    requires NoNul(t)
    ensures Cut(t) == t
  {
    CStringWhole(t, 0);
  }

  lemma {:induction false} CStringWhole(t: string, i: nat)
    requires NoNul(t) && i <= |t|
    ensures CString(t, i) == |t|
    decreases |t| - i
  {
    if i < |t| {
      CStringWhole(t, i + 1);
    }
  }

  /** A printed string is parsed back. */
  lemma {:induction false} StringBack(s: string, i: nat, t: string)
    requires Terminated(s) && Occurs(s, i, Quote(t)) && NoNul(t)
    ensures i < |s| && PString(s, i) == Some((t, i + |Quote(t)|))
  {
    var q := QuotedFrom(t, 0);
    Enclosed(s, i, '"', q, '"');
    LiteralBack(s, i + 1, t, 0, i + 1 + |q|);
    assert t[0..] == t;
    CutWhole(t);
  }

  // ----- numbers -----

  /** `sprintf` writes a number so that `strtod` reads exactly it. */
  ghost predicate Faithful(c: Libc, d: real) {
    var t := c.sprintf(d);
    && 0 < |t| <= 63 && (t[0] == '-' || Digit(t[0]))
    && (forall k :: 0 <= k < |t| ==> Numeric(t[k]))
    && c.strtod(t) == Some((d, |t|))
  }

  lemma {:induction false} NumberRun(s: string, start: nat, i: nat, e: nat)
    requires start <= i <= e < |s| && e - start <= 63 && !Numeric(s[|s| - 1]) && !Numeric(s[e])
    requires forall k :: i <= k < e ==> Numeric(s[k])
    ensures NumberEnd(s, start, i) == e
    decreases e - i
  {
    if i < e {
      NumberRun(s, start, i + 1, e);
    }
  }

  lemma {:induction false} NumberBack(s: string, i: nat, c: Libc, d: real)
    requires Terminated(s) && Faithful(c, d) && Occurs(s, i, c.sprintf(d)) && i + |c.sprintf(d)| < |s|
    requires !Numeric(s[i + |c.sprintf(d)|])
    ensures PNumber(s, i, c) == Some((Number(ToInt(d), d), i + |c.sprintf(d)|))
  {
    var t, e := c.sprintf(d), i + |c.sprintf(d)|;
    forall k | i <= k < e ensures Numeric(s[k]) {
      assert s[i + (k - i)] == t[k - i];
    }
    NumberRun(s, i, i, e);
    assert s[i..e] == t;
  }

  // ----- values -----

  /** Documents whose text says all of them: no raw or invalid item, no NUL in a string, numbers
      written faithfully and with the `valueint` that parsing gives them. */
  ghost predicate Readable(j: Json, c: Libc)
    decreases j
  {
    match j
    case Invalid => false
    case Raw(_) => false
    case Number(i, d) => i == ToInt(d) && Faithful(c, d)
    case Str(t) => NoNul(t)
    case Array(items) => forall i :: 0 <= i < |items| ==> Readable(items[i], c)
    case Object(ms) => forall i :: 0 <= i < |ms| ==> NoNul(ms[i].key) && Readable(ms[i].value, c)
    case _ => true
  }

  /** What parsing gives for a document of some depth. */
  function Expected<T>(fits: bool, value: T, after: nat): Option<(T, nat)> {
    if fits then Some((value, after)) else None
  }

  /** The text of a value starts above the space. */
  lemma {:induction false} FirstChar(j: Json, depth: nat, format: bool, c: Libc)
    requires Readable(j, c)
    ensures var t := Render(j, depth, format, c); |t| > 0 && ' ' < t[0] < 0x7F as char && t[0] != ']'
  {
    match j {
      case Object(_) => assert Render(j, depth, format, c)[0] == '{';
      case Array(_) => assert Render(j, depth, format, c)[0] == '[';
      case _ =>
    }
  }

  lemma {:induction false} StartsAbove(s: string, i: nat, j: Json, depth: nat, format: bool, c: Libc)
    requires Readable(j, c) && Occurs(s, i, Render(j, depth, format, c))
    ensures i < |s| && s[i] > ' '
  {
    FirstChar(j, depth, format, c);
    assert s[i + 0] == Render(j, depth, format, c)[0];
  }

  lemma {:induction false} WordBack(s: string, i: nat, j: Json, depth: nat, c: Libc)
    requires Terminated(s) && i < |s| && (j == Null || j == True || j == False)
    requires Occurs(s, i, if j == Null then "null" else if j == True then "true" else "false")
    ensures PValue(s, i, depth, c) == Some((j, i + if j == False then 5 else 4))
  {
    var w := if j == Null then "null" else if j == True then "true" else "false";
    assert s[i + 0] == w[0] && s[i + 1] == w[1] && s[i + 2] == w[2] && s[i + 3] == w[3];
    if j == False {
      assert s[i + 4] == w[4];
    }
    assert PWord(s, i) == Some((j, i + |w|));
  }

  lemma {:induction false} NumberValue(s: string, i: nat, c: Libc, d: real, depth: nat)
    requires Terminated(s) && Faithful(c, d) && Occurs(s, i, c.sprintf(d)) && i + |c.sprintf(d)| < |s|
    requires !Numeric(s[i + |c.sprintf(d)|])
    ensures PValue(s, i, depth, c) == Some((Number(ToInt(d), d), i + |c.sprintf(d)|))
  {
    assert s[i + 0] == c.sprintf(d)[0];
    NumberBack(s, i, c, d);
  }

  lemma {:induction false} StringValue(s: string, i: nat, t: string, depth: nat, c: Libc)
    requires Terminated(s) && Occurs(s, i, Quote(t)) && NoNul(t)
    ensures i < |s| && PValue(s, i, depth, c) == Some((Str(t), i + |Quote(t)|))
  {
    StringBack(s, i, t);
    assert s[i + 0] == Quote(t)[0];
  }

  /** Scalars. */
  lemma {:induction false} ScalarBack(s: string, i: nat, j: Json, rd: nat, format: bool, c: Libc, depth: nat)
    requires Terminated(s) && Readable(j, c) && !j.Array? && !j.Object? && Occurs(s, i, Render(j, rd, format, c))
    requires i + |Render(j, rd, format, c)| < |s| && !Numeric(s[i + |Render(j, rd, format, c)|])
    ensures PValue(s, i, depth, c) == Some((j, i + |Render(j, rd, format, c)|))
  {
    match j {
      case Str(text) => StringValue(s, i, text, depth, c);
      case Number(_, d) => NumberValue(s, i, c, d, depth);
      case _ => WordBack(s, i, j, depth, c);
    }
  }

  // ----- nesting -----

  predicate ShallowItems(items: seq<Json>, k: nat, depth: nat)
    requires k <= |items|
    decreases |items| - k
  {
    k < |items| ==> depth + Depth(items[k]) <= NESTING_LIMIT && ShallowItems(items, k + 1, depth)
  }

  predicate ShallowMembers(ms: seq<Member>, k: nat, depth: nat)
    requires k <= |ms|
    decreases |ms| - k
  {
    k < |ms| ==> depth + Depth(ms[k].value) <= NESTING_LIMIT && ShallowMembers(ms, k + 1, depth)
  }

  lemma {:induction false} ItemsDepth(items: seq<Json>, k: nat, depth: nat)
    requires k <= |items| && depth + DepthItems(items, k) <= NESTING_LIMIT
    ensures ShallowItems(items, k, depth) <==> depth + DepthItems(items, |items|) <= NESTING_LIMIT
    decreases |items| - k
  {
    if k < |items| {
      if depth + Depth(items[k]) <= NESTING_LIMIT {
        ItemsDepth(items, k + 1, depth);
      } else {
        DepthItemsMax(items, |items|, k);
      }
    }
  }

  lemma {:induction false} MembersDepth(ms: seq<Member>, k: nat, depth: nat)
    requires k <= |ms| && depth + DepthMembers(ms, k) <= NESTING_LIMIT
    ensures ShallowMembers(ms, k, depth) <==> depth + DepthMembers(ms, |ms|) <= NESTING_LIMIT
    decreases |ms| - k
  {
    if k < |ms| {
      if depth + Depth(ms[k].value) <= NESTING_LIMIT {
        MembersDepth(ms, k + 1, depth);
      } else {
        DepthMembersMax(ms, |ms|, k);
      }
    }
  }

  // ----- arrays -----

  /** Where the parts of the items from `k` on stand. */
  lemma {:induction false} ItemsAt(s: string, p: nat, items: seq<Json>, k: nat, rd: nat, format: bool, c: Libc)
    returns (q: nat, n: nat)
    requires k < |items| && Occurs(s, p, RenderItems(items, k, rd, format, c))
    ensures q == p + |Render(items[k], rd, format, c)| && Occurs(s, p, Render(items[k], rd, format, c))
    ensures n + |RenderItems(items, k + 1, rd, format, c)| == p + |RenderItems(items, k, rd, format, c)|
    ensures Occurs(s, n, RenderItems(items, k + 1, rd, format, c))
    ensures k + 1 < |items| ==> q < n <= |s| && s[q] == ',' && forall x :: q < x < n ==> s[x] == ' '
    ensures k + 1 == |items| ==> n == q && RenderItems(items, k + 1, rd, format, c) == ""
  {
    var v, rest := Render(items[k], rd, format, c), RenderItems(items, k + 1, rd, format, c);
    var sep := if k + 1 < |items| then (if format then [',', ' '] else [',']) else [];
    Split3(s, p, v, sep, rest);
    q, n := p + |v|, p + |v| + |sep|;
    if k + 1 < |items| {
      assert s[q + 0] == sep[0];
      if format {
        assert s[q + 1] == sep[1];
      }
    }
  }

  /** What parsing the items from `k` on gives. */
  ghost predicate ItemsRead(s: string, p: nat, depth: nat, items: seq<Json>, k: nat, close: nat, c: Libc) {
    && Terminated(s) && p < |s| && k <= |items|
    && PItems(s, p, depth, c) == Expected(ShallowItems(items, k, depth), items[k..], close)
  }

  /** The item loop ends after the last item. */
  lemma {:induction false} ItemsEnd(s: string, p: nat, q: nat, depth: nat, items: seq<Json>, k: nat, c: Libc)
    requires Terminated(s) && k + 1 == |items| && p < |s| && q < |s| - 1 && s[q] == ']'
    requires PValue(s, p, depth, c) == Expected(depth + Depth(items[k]) <= NESTING_LIMIT, items[k], q)
    ensures ItemsRead(s, p, depth, items, k, q, c)
  {
    assert [items[k]] == items[k..];
    SkipTo(s, q, q);
  }

  /** The item loop goes on after a comma. */
  lemma {:induction false} ItemsGoOn(s: string, p: nat, q: nat, n: nat, depth: nat, items: seq<Json>, k: nat,
      close: nat, c: Libc)
    requires Terminated(s) && k + 1 < |items| && p < |s| && q < n < |s| && s[q] == ',' && s[n] > ' '
    requires forall x :: q < x < n ==> s[x] == ' '
    requires PValue(s, p, depth, c) == Expected(depth + Depth(items[k]) <= NESTING_LIMIT, items[k], q)
    requires ItemsRead(s, n, depth, items, k + 1, close, c)
    ensures ItemsRead(s, p, depth, items, k, close, c)
  {
    assert [items[k]] + items[k + 1..] == items[k..];
    SkipTo(s, q, q);
    SkipTo(s, q + 1, n);
  }

  /** Reading one item and what follows it. */
  lemma {:induction false} ItemBack(s: string, p: nat, items: seq<Json>, k: nat, rd: nat, format: bool, c: Libc,
      depth: nat, e: nat)
    returns (q: nat, n: nat)
    requires Terminated(s) && k < |items| && depth <= NESTING_LIMIT && Readable(Array(items), c)
    requires Occurs(s, p, RenderItems(items, k, rd, format, c))
    requires e == p + |RenderItems(items, k, rd, format, c)| < |s| - 1 && s[e] == ']'
    ensures p < |s| && s[p] > ' ' && q < |s| - 1
    ensures PValue(s, p, depth, c) == Expected(depth + Depth(items[k]) <= NESTING_LIMIT, items[k], q)
    ensures k + 1 == |items| ==> q == e
    ensures k + 1 < |items| ==> q < n < |s| && s[q] == ',' && forall x :: q < x < n ==> s[x] == ' '
    ensures k + 1 < |items| ==>
      Occurs(s, n, RenderItems(items, k + 1, rd, format, c)) && e == n + |RenderItems(items, k + 1, rd, format, c)|
    decreases items, 0
  {
    q, n := ItemsAt(s, p, items, k, rd, format, c);
    StartsAbove(s, p, items[k], rd, format, c);
    assert s[q] == ',' || s[q] == ']';
    ValueBack(s, p, items[k], rd, format, c, depth);
  }

  lemma {:induction false} ItemsBack(s: string, p: nat, items: seq<Json>, k: nat, rd: nat, format: bool, c: Libc,
      depth: nat, e: nat)
    requires Terminated(s) && k < |items| && depth <= NESTING_LIMIT && Readable(Array(items), c)
    requires Occurs(s, p, RenderItems(items, k, rd, format, c))
    requires e == p + |RenderItems(items, k, rd, format, c)| < |s| - 1 && s[e] == ']'
    ensures p < |s| && s[p] > ' ' && ItemsRead(s, p, depth, items, k, e, c)
    decreases items, 1, |items| - k
  {
    var q, n := ItemBack(s, p, items, k, rd, format, c, depth, e);
    if k + 1 == |items| {
      ItemsEnd(s, p, q, depth, items, k, c);
    } else {
      ItemsBack(s, n, items, k + 1, rd, format, c, depth, e);
      ItemsGoOn(s, p, q, n, depth, items, k, e, c);
    }
  }

  /** What `parse_array` makes of the items. */
  lemma {:induction false} ParseArray(s: string, i: nat, depth: nat, items: seq<Json>, fits: bool, close: nat, c: Libc)
    requires Terminated(s) && i + 1 < |s| && s[i] == '[' && s[i + 1] > ' '
    requires items != [] ==>
      s[i + 1] != ']' && (depth < NESTING_LIMIT ==> PItems(s, i + 1, depth + 1, c) == Expected(fits, items, close))
    requires items == [] ==> s[i + 1] == ']' && close == i + 1 && (depth < NESTING_LIMIT ==> fits)
    ensures PValue(s, i, depth, c) == Expected(depth < NESTING_LIMIT && fits, Array(items), close + 1)
  {
    SkipTo(s, i + 1, i + 1);
  }

  lemma {:induction false} ItemsDepthStart(items: seq<Json>, depth: nat)
    ensures depth < NESTING_LIMIT && ShallowItems(items, 0, depth + 1) <==> depth + Depth(Array(items)) <= NESTING_LIMIT
  {
    if depth < NESTING_LIMIT {
      ItemsDepth(items, 0, depth + 1);
    }
  }

  /** The first item does not start with a closing bracket. */
  lemma {:induction false} FirstNot(s: string, i: nat, items: seq<Json>, rd: nat, format: bool, c: Libc)
    requires Readable(Array(items), c) && items != [] && Occurs(s, i + 1, RenderItems(items, 0, rd + 1, format, c))
    ensures i + 1 < |s| && s[i + 1] != ']' && s[i + 1] > ' '
  {
    var q, n := ItemsAt(s, i + 1, items, 0, rd + 1, format, c);
    FirstChar(items[0], rd + 1, format, c);
    assert s[i + 1 + 0] == Render(items[0], rd + 1, format, c)[0];
  }

  lemma {:induction false} NotLast(s: string, i: nat)
    requires Terminated(s) && i < |s| && s[i] != '\0'
    ensures i < |s| - 1
  {
  }

  lemma {:induction false} ArrayBody(s: string, p: nat, close: nat, items: seq<Json>, rd: nat, format: bool, c: Libc,
      depth: nat)
    requires Terminated(s) && Readable(Array(items), c) && 0 < p
    requires Occurs(s, p, RenderItems(items, 0, rd + 1, format, c))
    requires close == p + |RenderItems(items, 0, rd + 1, format, c)| < |s| - 1 && s[close] == ']'
    ensures if items == [] then p == close else s[p] != ']' && s[p] > ' '
    ensures items != [] && depth <= NESTING_LIMIT ==>
      PItems(s, p, depth, c) == Expected(ShallowItems(items, 0, depth), items, close)
    decreases items, 2
  {
    if items != [] {
      FirstNot(s, p - 1, items, rd, format, c);
      if depth <= NESTING_LIMIT {
        ItemsBack(s, p, items, 0, rd + 1, format, c, depth, close);
        assert items[0..] == items;
      }
    }
  }

  lemma {:induction false} ArrayBack(s: string, i: nat, items: seq<Json>, rd: nat, format: bool, c: Libc, depth: nat)
    requires Terminated(s) && Readable(Array(items), c) && Occurs(s, i, Render(Array(items), rd, format, c))
    ensures i < |s|
    ensures PValue(s, i, depth, c) == Expected(depth + Depth(Array(items)) <= NESTING_LIMIT, Array(items), i
        + |Render(Array(items), rd, format, c)|)
    decreases items, 3
  {
    var t := RenderItems(items, 0, rd + 1, format, c);
    Enclosed(s, i, '[', t, ']');
    var fits, close := ShallowItems(items, 0, depth + 1), i + 1 + |t|;
    NotLast(s, close);
    ArrayBody(s, i + 1, close, items, rd, format, c, depth + 1);
    ParseArray(s, i, depth, items, fits, close, c);
    ItemsDepthStart(items, depth);
  }

  // ----- objects -----

  /** Where the parts of the members from `k` on stand: key, colon, value, end of value, next member. */
  datatype Spots = Spots(key: nat, colon: nat, value: nat, end: nat, next: nat)

  ghost predicate Blank(s: string, i: nat, j: nat) {
    i <= j <= |s| && forall y :: i <= y < j ==> s[y] == '\t' || s[y] == '\n'
  }

  lemma {:induction false} TabsBlank(s: string, p: nat, tabs: string)
    requires Occurs(s, p, tabs) && forall k :: 0 <= k < |tabs| ==> tabs[k] == '\t'
    ensures Blank(s, p, p + |tabs|)
  {
    forall y | p <= y < p + |tabs| ensures s[y] == '\t' {
      assert s[p + (y - p)] == tabs[y - p];
    }
  }

  /** Tabs, a quoted key and a colon, given as texts. */
  lemma {:induction false} KeyPartsAt(s: string, p: nat, tabs: string, q: string, colon: string)
    requires Occurs(s, p, tabs + q + colon) && (colon == [':'] || colon == [':', '\t'])
    requires forall k :: 0 <= k < |tabs| ==> tabs[k] == '\t'
    ensures var a, b, e := p + |tabs|, p + |tabs| + |q|, p + |tabs| + |q| + |colon|;
      Blank(s, p, a) && Occurs(s, a, q) && b < e <= |s| && s[b] == ':' && Blank(s, b + 1, e)
  {
    Split3(s, p, tabs, q, colon);
    TabsBlank(s, p, tabs);
    var b := p + |tabs| + |q|;
    assert s[b + 0] == colon[0];
    if |colon| == 2 {
      assert s[b + 1] == colon[1];
    }
  }

  /** The parts of a key text. */
  lemma {:induction false} KeyAt(s: string, p: nat, key: string, rd: nat, format: bool) returns (a: nat, b: nat)
    requires Occurs(s, p, KeyText(key, rd, format))
    ensures Blank(s, p, a) && Occurs(s, a, Quote(key)) && b == a + |Quote(key)| < |s| && s[b] == ':'
    ensures b < p + |KeyText(key, rd, format)| && Blank(s, b + 1, p + |KeyText(key, rd, format)|)
  {
    var tabs, colon := if format then Tabs(rd) else [], if format then [':', '\t'] else [':'];
    KeyPartsAt(s, p, tabs, Quote(key), colon);
    a, b := p + |tabs|, p + |tabs| + |Quote(key)|;
  }

  lemma {:induction false} LineEndAt(s: string, e: nat, last: bool, format: bool)
    requires Occurs(s, e, LineEnd(last, format))
    ensures var n :=
        e + |LineEnd(last, format)|; if last then Blank(s, e, n) else e < n <= |s| && s[e] == ',' && Blank(s, e + 1, n)
  {
    var t := LineEnd(last, format);
    if |t| > 0 {
      assert s[e + 0] == t[0];
    }
    if |t| > 1 {
      assert s[e + 1] == t[1];
    }
  }

  /** The parts of a member stand where `x` says. */
  ghost predicate Placed(s: string, p: nat, m: Member, x: Spots, rd: nat, format: bool, c: Libc) {
    && Blank(s, p, x.key) && Occurs(s, x.key, Quote(m.key)) && x.colon == x.key + |Quote(m.key)| < x.value <= |s|
    && s[x.colon] == ':' && Blank(s, x.colon + 1, x.value)
    && Occurs(s, x.value, Render(m.value, rd, format, c)) && x.end == x.value + |Render(m.value, rd, format, c)| <= |s|
  }

  lemma {:induction false} MembersAt(s: string, p: nat, ms: seq<Member>, k: nat, rd: nat, format: bool, c: Libc)
    returns (x: Spots)
    requires k < |ms| && Occurs(s, p, RenderMembers(ms, k, rd, format, c))
    ensures Placed(s, p, ms[k], x, rd, format, c) == true && x.end <= x.next <= |s|
    ensures if k + 1 < |ms| then x.end < x.next && s[x.end] == ',' && Blank(s, x.end + 1, x.next)
        else Blank(s, x.end, x.next)
    ensures Occurs(s, x.next, RenderMembers(ms, k + 1, rd, format, c))
    ensures x.next + |RenderMembers(ms, k + 1, rd, format, c)| == p + |RenderMembers(ms, k, rd, format, c)|
  {
    var key, value, end :=
        KeyText(ms[k].key, rd, format), Render(ms[k].value, rd, format, c), LineEnd(k + 1 == |ms|, format);
    Split(s, p, RenderMember(ms[k], k + 1 == |ms|, rd, format, c), RenderMembers(ms, k + 1, rd, format, c));
    Split3(s, p, key, value, end);
    var a, b := KeyAt(s, p, ms[k].key, rd, format);
    LineEndAt(s, p + |key| + |value|, k + 1 == |ms|, format);
    x := Spots(a, b, p + |key|, p + |key| + |value|, p + |key| + |value| + |end|);
  }

  /** What parsing the members from `k` on gives. */
  ghost predicate MembersRead(s: string, a: nat, depth: nat, ms: seq<Member>, k: nat, close: nat, c: Libc) {
    && Terminated(s) && a < |s| && k <= |ms|
    && PMembers(s, a, depth, c) == Expected(ShallowMembers(ms, k, depth), ms[k..], close)
  }

  /** What parsing one member gives. */
  ghost predicate MemberRead(s: string, a: nat, depth: nat, m: Member, end: nat, c: Libc) {
    && Terminated(s) && a < |s| && end < |s| - 1
    && PMember(s, a, depth, c) == Expected(depth + Depth(m.value) <= NESTING_LIMIT, m, end)
  }

  lemma {:induction false} MembersEnd(s: string, a: nat, depth: nat, ms: seq<Member>, k: nat, end: nat, close: nat,
      c: Libc)
    requires k + 1 == |ms| && MemberRead(s, a, depth, ms[k], end, c) == true && close < |s| - 1 && s[close] == '}'
    requires Skip(s, end) == close
    ensures MembersRead(s, a, depth, ms, k, close, c)
  {
    assert [ms[k]] == ms[k..];
  }

  lemma {:induction false} MembersGoOn(s: string, a: nat, depth: nat, ms: seq<Member>, k: nat, end: nat, b: nat,
      close: nat, c: Libc)
    requires k + 1 < |ms| && MemberRead(s, a, depth, ms[k], end, c) == true && s[end] == ',' && Skip(s, end) == end
    requires MembersRead(s, b, depth, ms, k + 1, close, c) && Skip(s, end + 1) == b
    ensures MembersRead(s, a, depth, ms, k, close, c)
  {
    assert [ms[k]] + ms[k + 1..] == ms[k..];
  }

  lemma {:induction false} SkipOver(s: string, i: nat, j: nat)
    requires i <= j < |s| && forall y :: i <= y < j ==> s[y] <= ' '
    ensures Skip(s, i) == Skip(s, j)
    decreases j - i
  {
    if i < j {
      SkipOver(s, i + 1, j);
    }
  }

  /** Name, colon and value make a member. */
  lemma {:induction false} ParseMember(s: string, depth: nat, m: Member, x: Spots, c: Libc)
    requires Terminated(s) && x.key < |s| && x.colon < x.value < |s| && x.end < |s| - 1
    requires PString(s, x.key) == Some((m.key, x.colon)) && s[x.colon] == ':' && Skip(s, x.colon) == x.colon
    requires Skip(s, x.colon + 1) == x.value
    requires PValue(s, x.value, depth, c) == Expected(depth + Depth(m.value) <= NESTING_LIMIT, m.value, x.end)
    ensures MemberRead(s, x.key, depth, m, x.end, c)
  {
  }

  /** Reading the key of a member, up to its value. */
  lemma {:induction false} KeyBack(s: string, p: nat, m: Member, x: Spots, rd: nat, format: bool, c: Libc)
    requires Terminated(s) && NoNul(m.key) && Readable(m.value, c) && Placed(s, p, m, x, rd, format, c) == true
    ensures p < |s| && Skip(s, p) == x.key < |s| && s[x.key] == '"' && PString(s, x.key) == Some((m.key, x.colon))
    ensures x.value < |s| && Skip(s, x.colon) == x.colon && Skip(s, x.colon + 1) == x.value
  {
    StringBack(s, x.key, m.key);
    assert s[x.key + 0] == Quote(m.key)[0];
    SkipTo(s, p, x.key);
    SkipTo(s, x.colon, x.colon);
    StartsAbove(s, x.value, m.value, rd, format, c);
    SkipTo(s, x.colon + 1, x.value);
  }

  /** Reading one member. */
  lemma {:induction false} MemberBack(s: string, p: nat, m: Member, x: Spots, rd: nat, format: bool, c: Libc,
      depth: nat)
    requires Terminated(s) && NoNul(m.key) && Readable(m.value, c) && depth <= NESTING_LIMIT
    requires Placed(s, p, m, x, rd, format, c) == true && x.end < |s| - 1 && !Numeric(s[x.end])
    ensures p < |s| && Skip(s, p) == x.key && s[x.key] == '"' && MemberRead(s, x.key, depth, m, x.end, c) == true
    decreases m.value, 6
  {
    KeyBack(s, p, m, x, rd, format, c);
    ValueBack(s, x.value, m.value, rd, format, c, depth);
    ParseMember(s, depth, m, x, c);
  }

  /** What stands between the end of a member and the next member, or the closing brace. */
  lemma {:induction false} AfterMember(s: string, end: nat, next: nat, e: nat, close: nat, last: bool)
    requires e <= close < |s| - 1 && s[close] == '}' && Blank(s, e, close) && end <= next <= e
    requires if last then next == e && Blank(s, end, next) else end < next && s[end] == ',' && Blank(s, end + 1, next)
    ensures end < |s| - 1 && !Numeric(s[end])
    ensures if last then Skip(s, end) == close else Skip(s, end) == end && Skip(s, end + 1) == Skip(s, next)
  {
    if last {
      SkipTo(s, end, close);
    } else {
      SkipTo(s, end, end);
      SkipOver(s, end + 1, next);
    }
  }

  /** Reading one member and what follows it. */
  lemma {:induction false} MemberAndNext(s: string, p: nat, ms: seq<Member>, k: nat, rd: nat, format: bool, c: Libc,
      depth: nat, e: nat, close: nat)
    returns (a: nat, end: nat, next: nat)
    requires Terminated(s) && k < |ms| && depth <= NESTING_LIMIT && Readable(Object(ms), c)
    requires Occurs(s, p, RenderMembers(ms, k, rd, format, c))
    requires e == p + |RenderMembers(ms, k, rd, format, c)| <= close < |s| - 1
    requires s[close] == '}' && Blank(s, e, close)
    ensures p < |s| && Skip(s, p) == a < |s| && s[a] == '"' && MemberRead(s, a, depth, ms[k], end, c) == true
    ensures k + 1 == |ms| ==> Skip(s, end) == close
    ensures k + 1 < |ms| ==> s[end] == ',' && Skip(s, end) == end && next < |s| && Skip(s, end + 1) == Skip(s, next)
    ensures k + 1 < |ms| ==>
      Occurs(s, next, RenderMembers(ms, k + 1, rd, format, c)) && e == next + |RenderMembers(ms, k + 1, rd, format, c)|
    decreases ms, 0
  {
    var x := MembersAt(s, p, ms, k, rd, format, c);
    a, end, next := x.key, x.end, x.next;
    LastOfAll(ms, k, rd, format, c);
    AfterMember(s, end, next, e, close, k + 1 == |ms|);
    MemberBack(s, p, ms[k], x, rd, format, c, depth);
  }

  lemma {:induction false} LastOfAll(ms: seq<Member>, k: nat, rd: nat, format: bool, c: Libc)
    requires k < |ms|
    ensures k + 1 == |ms| ==> RenderMembers(ms, k + 1, rd, format, c) == ""
  {
  }

  lemma {:induction false} MembersBack(s: string, p: nat, ms: seq<Member>, k: nat, rd: nat, format: bool, c: Libc,
      depth: nat, e: nat, close: nat)
    returns (a: nat)
    requires Terminated(s) && k < |ms| && depth <= NESTING_LIMIT && Readable(Object(ms), c)
    requires Occurs(s, p, RenderMembers(ms, k, rd, format, c))
    requires e == p + |RenderMembers(ms, k, rd, format, c)| <= close < |s| - 1
    requires s[close] == '}' && Blank(s, e, close)
    ensures p < |s| && Skip(s, p) == a < |s| && s[a] == '"' && MembersRead(s, a, depth, ms, k, close, c)
    decreases ms, 1, |ms| - k
  {
    var end, next;
    a, end, next := MemberAndNext(s, p, ms, k, rd, format, c, depth, e, close);
    if k + 1 == |ms| {
      MembersEnd(s, a, depth, ms, k, end, close, c);
      return;
    }
    var b := MembersBack(s, next, ms, k + 1, rd, format, c, depth, e, close);
    MembersGoOn(s, a, depth, ms, k, end, b, close, c);
  }

  /** What `parse_object` makes of the members. */
  lemma {:induction false} ParseObject(s: string, i: nat, a: nat, depth: nat, ms: seq<Member>, fits: bool, close: nat,
      c: Libc)
    requires Terminated(s) && i + 1 < |s| && s[i] == '{' && Skip(s, i + 1) == a < |s|
    requires ms != [] ==>
      s[a] != '}' && (depth < NESTING_LIMIT ==> PMembers(s, a, depth + 1, c) == Expected(fits, ms, close))
    requires ms == [] ==> s[a] == '}' && close == a && (depth < NESTING_LIMIT ==> fits)
    ensures PValue(s, i, depth, c) == Expected(depth < NESTING_LIMIT && fits, Object(ms), close + 1)
  {
  }

  lemma {:induction false} MembersDepthStart(ms: seq<Member>, depth: nat)
    ensures depth < NESTING_LIMIT && ShallowMembers(ms, 0, depth + 1) <==> depth + Depth(Object(ms)) <= NESTING_LIMIT
  {
    if depth < NESTING_LIMIT {
      MembersDepth(ms, 0, depth + 1);
    }
  }

  /** The parts of an object, given as texts. */
  lemma {:induction false} BracesAt(s: string, i: nat, line: string, body: string, tabs: string)
    requires Terminated(s) && Occurs(s, i, ['{'] + line + body + tabs + ['}']) && (line == [] || line == ['\n'])
    requires forall y :: 0 <= y < |tabs| ==> tabs[y] == '\t'
    ensures var p, e, close := i + 1 + |line|, i + 1 + |line| + |body|, i + 1 + |line| + |body| + |tabs|;
      close < |s| - 1 && s[i] == '{' && Blank(s, i + 1, p) && Occurs(s, p, body) && Blank(s, e, close) && s[close]
          == '}'
  {
    Split3(s, i, ['{'] + line + body, tabs, ['}']);
    Split3(s, i, ['{'], line, body);
    var e := i + 1 + |line| + |body|;
    assert s[i + 0] == ['{'][0] && s[e + |tabs| + 0] == ['}'][0];
    if line != [] {
      assert s[i + 1 + 0] == line[0];
    }
    TabsBlank(s, e, tabs);
  }

  lemma {:induction false} ObjectAt(s: string, i: nat, ms: seq<Member>, rd: nat, format: bool, c: Libc)
    returns (p: nat, e: nat, close: nat)
    requires Terminated(s) && Occurs(s, i, Render(Object(ms), rd, format, c))
    ensures i < p <= e <= close < |s| - 1 && s[i] == '{' && Blank(s, i + 1, p)
    ensures Occurs(s, p, RenderMembers(ms, 0, rd + 1, format, c))
    ensures e == p + |RenderMembers(ms, 0, rd + 1, format, c)| && s[close] == '}'
    ensures close + 1 == i + |Render(Object(ms), rd, format, c)| && Blank(s, e, close)
  {
    var line, body, tabs :=
        if format then ['\n'] else [], RenderMembers(ms, 0, rd + 1, format, c), if format then Tabs(rd) else [];
    BracesAt(s, i, line, body, tabs);
    p, e, close := i + 1 + |line|, i + 1 + |line| + |body|, i + 1 + |line| + |body| + |tabs|;
  }

  /** The first key of an object. */
  lemma {:induction false} FirstKey(s: string, p: nat, ms: seq<Member>, rd: nat, format: bool, c: Libc) returns (a: nat)
    requires Terminated(s) && ms != [] && Occurs(s, p, RenderMembers(ms, 0, rd, format, c))
    ensures p < |s| && Skip(s, p) == a < |s| && s[a] == '"'
  {
    var x := MembersAt(s, p, ms, 0, rd, format, c);
    a := x.key;
    assert s[a + 0] == Quote(ms[0].key)[0];
    SkipTo(s, p, a);
  }

  lemma {:induction false} ObjectBody(s: string, i: nat, p: nat, e: nat, close: nat, ms: seq<Member>, rd: nat,
      format: bool, c: Libc, depth: nat)
    returns (a: nat)
    requires Terminated(s) && Readable(Object(ms), c) && i < p <= e <= close < |s| - 1 && Blank(s, i + 1, p)
    requires Occurs(s, p, RenderMembers(ms, 0, rd, format, c)) && e == p + |RenderMembers(ms, 0, rd, format, c)|
    requires s[close] == '}' && Blank(s, e, close)
    ensures Skip(s, i + 1) == a < |s| && if ms == [] then a == close else s[a] != '}'
    ensures ms != [] && depth <= NESTING_LIMIT ==>
      PMembers(s, a, depth, c) == Expected(ShallowMembers(ms, 0, depth), ms, close)
    decreases ms, 2
  {
    if ms == [] {
      a := close;
      SkipTo(s, i + 1, close);
    } else {
      a := FirstKey(s, p, ms, rd, format, c);
      SkipOver(s, i + 1, p);
      if depth <= NESTING_LIMIT {
        var b := MembersBack(s, p, ms, 0, rd, format, c, depth, e, close);
        assert ms[0..] == ms;
      }
    }
  }

  lemma {:induction false} ObjectThere(s: string, i: nat, p: nat, e: nat, close: nat, ms: seq<Member>, rd: nat,
      format: bool, c: Libc, depth: nat)
    requires Terminated(s) && Readable(Object(ms), c) && i < p <= e <= close < |s| - 1 && s[i] == '{'
    requires Blank(s, i + 1, p)
    requires Occurs(s, p, RenderMembers(ms, 0, rd, format, c)) && e == p + |RenderMembers(ms, 0, rd, format, c)|
    requires s[close] == '}' && Blank(s, e, close)
    ensures PValue(s, i, depth, c) == Expected(depth < NESTING_LIMIT && ShallowMembers(ms, 0, depth + 1), Object(ms),
        close + 1)
    decreases ms, 3
  {
    var a := ObjectBody(s, i, p, e, close, ms, rd, format, c, depth + 1);
    ParseObject(s, i, a, depth, ms, ShallowMembers(ms, 0, depth + 1), close, c);
  }

  lemma {:induction false} ObjectBack(s: string, i: nat, ms: seq<Member>, rd: nat, format: bool, c: Libc, depth: nat)
    requires Terminated(s) && Readable(Object(ms), c) && Occurs(s, i, Render(Object(ms), rd, format, c))
    ensures i < |s|
    ensures PValue(s, i, depth, c) == Expected(depth + Depth(Object(ms)) <= NESTING_LIMIT, Object(ms), i
        + |Render(Object(ms), rd, format, c)|)
    decreases ms, 4
  {
    var p, e, close := ObjectAt(s, i, ms, rd, format, c);
    ObjectThere(s, i, p, e, close, ms, rd + 1, format, c, depth);
    MembersDepthStart(ms, depth);
  }

  /** The text of a value is parsed back, unless it is nested too deep. */
  lemma {:induction false} ValueBack(s: string, i: nat, j: Json, rd: nat, format: bool, c: Libc, depth: nat)
    requires Terminated(s) && Readable(j, c) && Occurs(s, i, Render(j, rd, format, c)) && depth <= NESTING_LIMIT
    requires i + |Render(j, rd, format, c)| < |s| && !Numeric(s[i + |Render(j, rd, format, c)|])
    ensures i < |s|
    ensures PValue(s, i, depth, c) == Expected(depth + Depth(j) <= NESTING_LIMIT, j, i + |Render(j, rd, format, c)|)
    decreases j, 5
  {
    match j {
      case Array(items) => ArrayBack(s, i, items, rd, format, c, depth);
      case Object(ms) => ObjectBack(s, i, ms, rd, format, c, depth);
      case _ => ScalarBack(s, i, j, rd, format, c, depth);
    }
  }

  // ----- whole texts -----

  /** The strings of a readable document are C strings. */
  lemma {:induction false} ReadableCStrings(j: Json, c: Libc)
    requires Readable(j, c)
    ensures CStrings(j, c)
    decreases j
  {
    match j {
      case Array(items) =>
        forall i | 0 <= i < |items| ensures CStrings(items[i], c) {
          ReadableCStrings(items[i], c);
        }
      case Object(ms) =>
        forall i | 0 <= i < |ms| ensures CStrings(ms[i].value, c) {
          ReadableCStrings(ms[i].value, c);
        }
      case Number(_, d) =>
        forall k | 0 <= k < |c.sprintf(d)| ensures c.sprintf(d)[k] != '\0' {
          assert Numeric(c.sprintf(d)[k]);
        }
      case _ =>
    }
  }

  /** Print then parse: the text of a document, with or without formatting and whether or not the
      parser insists on the end, gives back the document and is consumed exactly, if and only if the
      document is nested at most 1000 deep; deeper documents are rejected. */
  lemma {:induction false} PrintThenParse(j: Json, format: bool, whole: bool, c: Libc)
    requires Readable(j, c)
    ensures var text := Render(j, 0, format, c);
      Terminated(text + ['\0']) && ParseText(text, whole, c) == Expected(Depth(j) <= NESTING_LIMIT, j, |text|)
  {
    var text := Render(j, 0, format, c);
    var s := text + ['\0'];
    ReadableCStrings(j, c);
    RenderNoNul(j, 0, format, c);
    assert Terminated(s);
    FirstChar(j, 0, format, c);
    assert s[0] == text[0];
    assert text[0] < 0x7F as char;
    SkipTo(s, 0, 0);
    ValueBack(s, 0, j, 0, format, c, 0);
  }

  // ----- integers -----

  /** `%1.15g` of an integer below 10^15. */
  function IntText(n: int): string {
    if n < 0 then ['-'] + JsonPointer.Decimal(-n) else JsonPointer.Decimal(n)
  }

  function Power(k: nat): nat {
    if k == 0 then 1 else 10 * Power(k - 1)
  }

  lemma {:induction false} DecimalShort(n: nat, k: nat)
    requires 0 < k && n < Power(k)
    ensures |JsonPointer.Decimal(n)| <= k
    decreases k
  {
    if n >= 10 {
      assert k > 1;
      DecimalShort(n / 10, k - 1);
    }
  }

  lemma {:induction false} Quadrillion()
    ensures Power(15) == 1_000_000_000_000_000
  {
    assert Power(5) == 100_000;
    assert Power(10) == 10_000_000_000;
  }

  /** Integers below 10^15 are written and read faithfully. */
  lemma {:induction false} IntegerFaithful(n: int, c: Libc)
    requires -1_000_000_000_000_000 < n < 1_000_000_000_000_000
    requires c.sprintf(n as real) == IntText(n) && c.strtod(IntText(n)) == Some((n as real, |IntText(n)|))
    ensures Faithful(c, n as real)
  {
    Quadrillion();
    var t, m := IntText(n), if n < 0 then -n else n;
    DecimalShort(m, 15);
    var d := JsonPointer.Decimal(m);
    forall k | 0 <= k < |t| ensures Numeric(t[k]) {
      assert n < 0 && k > 0 ==> t[k] == d[k - 1];
    }
  }
}
