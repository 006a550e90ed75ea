/** The text of a document: a renderer, and the grammar that the parser of apps/cjson/cJSON.c
    accepts. Texts are NUL-terminated, as `cJSON_Parse` gets them; a character is one byte. */
module JsonText {
  import opened Basics
  import opened Json

  /** The two library calls numbers go through: what `sprintf` writes for a number, and what
      `strtod` reads from the start of a text, with the length it used. */
  datatype Libc = Libc(sprintf: real -> string, strtod: string -> Option<(real, nat)>)

  // ----- rendering -----

  function HexDigit(n: nat): char
    requires n < 16
  {
    if n < 10 then '0' + n as char else 'a' + (n - 10) as char
  }

  /** How `print_string_ptr` writes one character. */
  function Quoted(c: char): string {
    if c == '"' then ['\\', '"']
    else if c == '\\' then ['\\', '\\']
    else if c == 8 as char then ['\\', 'b']
    else if c == 12 as char then ['\\', 'f']
    else if c == '\n' then ['\\', 'n']
    else if c == '\r' then ['\\', 'r']
    else if c == '\t' then ['\\', 't']
    else if c < ' ' then ['\\', 'u', '0', '0', HexDigit(c as int / 16), HexDigit(c as int % 16)]
    else [c]
  }

  /** The characters of a string from `k` on, each as it is written. */
  function QuotedFrom(text: string, k: nat): string
    requires k <= |text|
    decreases |text| - k
  {
    if k == |text| then [] else Quoted(text[k]) + QuotedFrom(text, k + 1)
  }

  function Quote(text: string): string {
    ['"'] + QuotedFrom(text, 0) + ['"']
  }

  function Tabs(n: nat): (r: string)
    ensures |r| == n && forall k :: 0 <= k < n ==> r[k] == '\t'
  {
    seq(n, _ => '\t')
  }

  /** The text of a document at a nesting depth; an invalid item has no text. */
  function Render(j: Json, depth: nat, format: bool, c: Libc): string
    decreases j, 0
  {
    match j
    case Invalid => ""
    case False => "false"
    case True => "true"
    case Null => "null"
    case Number(_, d) => c.sprintf(d)
    case Str(t) => Quote(t)
    case Raw(t) => t
    case Array(items) => ['['] + RenderItems(items, 0, depth + 1, format, c) + [']']
    case Object(ms) =>
      ['{'] + (if format then ['\n'] else []) + RenderMembers(ms, 0, depth + 1, format, c)
      + (if format then Tabs(depth) else []) + ['}']
  }

  /** The items from `i` on, with separators. */
  function RenderItems(items: seq<Json>, i: nat, depth: nat, format: bool, c: Libc): string
    requires i <= |items|
    decreases items, 1, |items| - i
  {
    if i == |items| then "" else
      Render(items[i], depth, format, c)
      + (if i + 1 < |items| then (if format then [',', ' '] else [',']) else [])
      + RenderItems(items, i + 1, depth, format, c)
  }

  /** The tabs, key and colon of a member, and what follows its value. */
  function KeyText(key: string, depth: nat, format: bool): string {
    (if format then Tabs(depth) else []) + Quote(key) + (if format then [':', '\t'] else [':'])
  }

  function LineEnd(last: bool, format: bool): string {
    (if last then [] else [',']) + (if format then ['\n'] else [])
  }

  /** One member and what follows it; if formatted, a line of its own. */
  function RenderMember(m: Member, last: bool, depth: nat, format: bool, c: Libc): string
    decreases m, 2
  {
    KeyText(m.key, depth, format) + Render(m.value, depth, format, c) + LineEnd(last, format)
  }

  /** The members from `i` on. */
  function RenderMembers(ms: seq<Member>, i: nat, depth: nat, format: bool, c: Libc): string
    requires i <= |ms|
    decreases ms, 1, |ms| - i
  {
    if i == |ms| then ""
    else RenderMember(ms[i], i + 1 == |ms|, depth, format, c) + RenderMembers(ms, i + 1, depth, format, c)
  }

  // ----- no text holds the terminator -----

  predicate NoNul(t: string) {
    forall k :: 0 <= k < |t| ==> t[k] != '\0'
  }

  /** Every string of a document, and every number as written, is a C string. */
  predicate CStrings(j: Json, c: Libc)
    decreases j
  {
    match j
    case Number(_, d) => NoNul(c.sprintf(d))
    case Str(t) => NoNul(t)
    case Raw(t) => NoNul(t)
    case Array(items) => forall i :: 0 <= i < |items| ==> CStrings(items[i], c)
    case Object(ms) => forall i :: 0 <= i < |ms| ==> NoNul(ms[i].key) && CStrings(ms[i].value, c)
    case _ => true
  }

  lemma {:induction false} NoNulAppend(a: string, b: string)
    requires NoNul(a) && NoNul(b)
    ensures NoNul(a + b)
  {
  }

  lemma {:induction false} QuotedNoNul(t: string, k: nat)
    requires NoNul(t) && k <= |t|
    ensures NoNul(QuotedFrom(t, k))
    decreases |t| - k
  {
    if k < |t| {
      QuotedNoNul(t, k + 1);
      assert NoNul(Quoted(t[k]));
      NoNulAppend(Quoted(t[k]), QuotedFrom(t, k + 1));
    }
  }

  lemma {:induction false} QuoteNoNul(t: string)
    requires NoNul(t)
    ensures NoNul(Quote(t))
  {
    QuotedNoNul(t, 0);
  }

  lemma {:induction false} ItemsNoNul(items: seq<Json>, k: nat, rd: nat, format: bool, c: Libc)
    requires CStrings(Array(items), c) && k <= |items|
    ensures NoNul(RenderItems(items, k, rd, format, c))
    decreases items, 0, |items| - k
  {
    if k < |items| {
      var v, rest := Render(items[k], rd, format, c), RenderItems(items, k + 1, rd, format, c);
      var sep := if k + 1 < |items| then (if format then [',', ' '] else [',']) else [];
      RenderNoNul(items[k], rd, format, c);
      ItemsNoNul(items, k + 1, rd, format, c);
      NoNulAppend(v, sep);
      NoNulAppend(v + sep, rest);
    }
  }

  lemma {:induction false} KeyNoNul(key: string, depth: nat, format: bool)
    requires NoNul(key)
    ensures NoNul(KeyText(key, depth, format))
  {
    QuoteNoNul(key);
    var tabs, colon := if format then Tabs(depth) else [], if format then [':', '\t'] else [':'];
    NoNulAppend(tabs, Quote(key));
    NoNulAppend(tabs + Quote(key), colon);
  }

  lemma {:induction false} MembersNoNul(ms: seq<Member>, k: nat, rd: nat, format: bool, c: Libc)
    requires CStrings(Object(ms), c) && k <= |ms|
    ensures NoNul(RenderMembers(ms, k, rd, format, c))
    decreases ms, 0, |ms| - k
  {
    if k < |ms| {
      var key, value, end :=
          KeyText(ms[k].key, rd, format), Render(ms[k].value, rd, format, c), LineEnd(k + 1 == |ms|, format);
      KeyNoNul(ms[k].key, rd, format);
      RenderNoNul(ms[k].value, rd, format, c);
      NoNulAppend(key, value);
      NoNulAppend(key + value, end);
      MembersNoNul(ms, k + 1, rd, format, c);
      NoNulAppend(key + value + end, RenderMembers(ms, k + 1, rd, format, c));
    }
  }

  lemma {:induction false} BracesNoNul(line: string, body: string, tabs: string)
    requires NoNul(line) && NoNul(body) && NoNul(tabs)
    ensures NoNul(['{'] + line + body + tabs + ['}'])
  {
    NoNulAppend(['{'], line);
    NoNulAppend(['{'] + line, body);
    NoNulAppend(['{'] + line + body, tabs);
  }

  lemma {:induction false} RenderNoNul(j: Json, rd: nat, format: bool, c: Libc)
    requires CStrings(j, c)
    ensures NoNul(Render(j, rd, format, c))
    decreases j, 1
  {
    match j {
      case Str(t) => QuoteNoNul(t);
      case Array(items) => ItemsNoNul(items, 0, rd + 1, format, c);
      case Object(ms) =>
        MembersNoNul(ms, 0, rd + 1, format, c);
        BracesNoNul(if format then ['\n'] else [], RenderMembers(ms, 0, rd + 1, format, c), if format then Tabs(rd)
            else []);
      case _ =>
    }
  }

  // ----- the input -----

  /** A C string with its terminator. */
  predicate Terminated(s: string) {
    |s| > 0 && s[|s| - 1] == '\0' && forall k :: 0 <= k < |s| - 1 ==> s[k] != '\0'
  }

  /** `buffer_skip_whitespace`: to the next character above the space, or back to the terminator. */
  function Skip(s: string, i: nat): (r: nat)
    requires i < |s|
    ensures i <= r < |s|
    decreases |s| - i
  {
    if s[i] > ' ' || i == |s| - 1 then i else Skip(s, i + 1)
  }

  // ----- strings: parse_string -----

  /** The closing quote that the sizing scan finds. */
  function ScanQuote(s: string, i: nat): (r: Option<nat>)
    requires i <= |s|
    ensures r.Some? ==> i <= r.value < |s| && s[r.value] == '"'
    decreases |s| - i
  {
    if i >= |s| then None
    else if s[i] == '"' then Some(i)
    else if s[i] == '\\' then (if i + 1 >= |s| then None else ScanQuote(s, i + 2))
    else ScanQuote(s, i + 1)
  }

  function HexValue(c: char): (r: Option<nat>)
    ensures r.Some? ==> r.value < 16
  {
    if '0' <= c <= '9' then Some(c as int - '0' as int)
    else if 'A' <= c <= 'F' then Some(10 + c as int - 'A' as int)
    else if 'a' <= c <= 'f' then Some(10 + c as int - 'a' as int)
    else None
  }

  /** `parse_hex4`: the number of four digits, 0 if one of them is not a digit. */
  function Hex4(s: string, i: nat): (r: nat)
    requires i + 4 <= |s|
    ensures r < 0x10000
  {
    var a, b, c, d := HexValue(s[i]), HexValue(s[i + 1]), HexValue(s[i + 2]), HexValue(s[i + 3]);
    if a.Some? && b.Some? && c.Some? && d.Some? then ((a.value * 16 + b.value) * 16 + c.value) * 16 + d.value else 0
  }

  /** The UTF-8 bytes of a code point. */
  function Utf8(cp: nat): (r: string)
    requires cp <= 0x10FFFF
    ensures 1 <= |r| <= 4 && (cp < 0x10000 ==> |r| <= 3)
  {
    if cp < 0x80 then [cp as char]
    else if cp < 0x800 then [(0xC0 + cp / 0x40) as char, (0x80 + cp % 0x40) as char]
    else if cp < 0x10000 then [(0xE0 + cp / 0x1000) as char, (0x80 + cp / 0x40 % 0x40) as char,
        (0x80 + cp % 0x40) as char]
    else [(0xF0 + cp / 0x40000) as char, (0x80 + cp / 0x1000 % 0x40) as char, (0x80 + cp / 0x40 % 0x40) as char,
        (0x80 + cp % 0x40) as char]
  }

  /** `utf16_literal_to_utf8`: the bytes and the length of the literal. */
  function Utf16(s: string, p: nat, end: nat): (r: Option<(string, nat)>)
    requires p <= end < |s|
    ensures r.Some? ==>
      ((r.value.1 == 6 && 1 <= |r.value.0| <= 3) || (r.value.1 == 12 && |r.value.0| == 4)) && p + r.value.1 <= end
  {
    if end - p < 6 then None
    else
      var first := Hex4(s, p + 2);
      if 0xDC00 <= first <= 0xDFFF then None
      else if 0xD800 <= first <= 0xDBFF then
        if end - (p + 6) < 6 || s[p + 6] != '\\' || s[p + 7] != 'u' then None
        else
          var second := Hex4(s, p + 8);
          if second < 0xDC00 || second > 0xDFFF then None
          else Some((Utf8(0x10000 + first % 0x400 * 0x400 + second % 0x400), 12))
      else Some((Utf8(first), 6))
  }

  /** What one escape other than `\u` stands for. */
  function Unescape(c: char): Option<char> {
    if c == 'b' then Some(8 as char)
    else if c == 'f' then Some(12 as char)
    else if c == 'n' then Some('\n')
    else if c == 'r' then Some('\r')
    else if c == 't' then Some('\t')
    else if c == '"' || c == '\\' || c == '/' then Some(c)
    else None
  }

  /** One turn of the decoding loop: the bytes it writes and how far it goes. */
  function DecodeOne(s: string, p: nat, end: nat): (r: Option<(string, nat)>)
    requires p < end < |s|
    ensures r.Some? ==> r.value.1 > 0
  {
    if s[p] != '\\' then Some(([s[p]], 1))
    else if s[p + 1] == 'u' then Utf16(s, p, end)
    else match Unescape(s[p + 1])
      case None => None
      case Some(c) => Some(([c], 2))
  }

  /** The bytes the decoding loop writes from `p` on. */
  function Decode(s: string, p: nat, end: nat): Option<string>
    requires end < |s|
    decreases end - p
  {
    if p >= end then Some("")
    else match DecodeOne(s, p, end)
      case None => None
      case Some(one) => match Decode(s, p + one.1, end)
        case None => None
        case Some(rest) => Some(one.0 + rest)
  }

  /** The part of a buffer that is its C string. */
  function CString(s: string, i: nat): (r: nat)
    requires i <= |s|
    ensures i <= r <= |s|
    decreases |s| - i
  {
    if i < |s| && s[i] != '\0' then CString(s, i + 1) else i
  }

  function Cut(s: string): string {
    s[..CString(s, 0)]
  }

  /** A string literal at `i`: its value and the position after it. */
  function PString(s: string, i: nat): (r: Option<(string, nat)>)
    requires Terminated(s) && i < |s|
    ensures r.Some? ==> i < r.value.1 < |s|
  {
    if s[i] != '"' then None
    else match ScanQuote(s, i + 1)
      case None => None
      case Some(end) => match Decode(s, i + 1, end)
        case None => None
        case Some(t) => Some((Cut(t), end + 1))
  }

  // ----- numbers: parse_number -----

  predicate Digit(c: char) {
    '0' <= c <= '9'
  }

  predicate Numeric(c: char) {
    Digit(c) || c == '+' || c == '-' || c == 'e' || c == 'E' || c == '.'
  }

  /** The end of the characters copied for `strtod`, from `i` on: at most 63, all numeric. */
  function NumberEnd(s: string, start: nat, i: nat): (r: nat)
    requires i < |s| && !Numeric(s[|s| - 1])
    ensures i <= r < |s|
    decreases |s| - i
  {
    if i - start < 63 && Numeric(s[i]) then NumberEnd(s, start, i + 1) else i
  }

  /** The number as an `int`: a cast drops the fraction. */
  function ToInt(d: real): int {
    Saturated(if d >= 0.0 then d.Floor else -(-d).Floor)
  }

  /** A number at `i`; no number if `strtod` uses nothing. */
  function PNumber(s: string, i: nat, c: Libc): (r: Option<(Json, nat)>)
    requires Terminated(s) && i < |s|
    ensures r.Some? ==> i < r.value.1 < |s|
  {
    var t := s[i..NumberEnd(s, i, i)];
    match c.strtod(t)
    case None => None
    case Some(v) => if 0 < v.1 <= |t| then Some((Number(ToInt(v.0), v.0), i + v.1)) else None
  }

  // ----- values: parse_value, parse_array, parse_object -----

  const NESTING_LIMIT: nat := 1000

  predicate Occurs(s: string, i: nat, t: string) {
    i + |t| <= |s| && forall k :: 0 <= k < |t| ==> s[i + k] == t[k]
  }

  /** One of the three words at `i`, in the order they are tried. */
  function PWord(s: string, i: nat): (r: Option<(Json, nat)>)
    requires Terminated(s) && i < |s|
    ensures r.Some? ==> i < r.value.1 < |s|
  {
    if i + 4 <= |s| && s[i] == 'n' && s[i + 1] == 'u' && s[i + 2] == 'l' && s[i + 3] == 'l' then Some((Null, i + 4))
    else if i + 5 <= |s| && s[i] == 'f' && s[i + 1] == 'a' && s[i + 2] == 'l' && s[i + 3] == 's' && s[i + 4]
        == 'e' then Some((False, i + 5))
    else if i + 4 <= |s| && s[i] == 't' && s[i + 1] == 'r' && s[i + 2] == 'u' && s[i + 3]
        == 'e' then Some((True, i + 4))
    else None
  }

  function PValue(s: string, i: nat, depth: nat, c: Libc): (r: Option<(Json, nat)>)
    requires Terminated(s) && i < |s|
    ensures r.Some? ==> i < r.value.1 < |s|
    decreases |s| - i, 0
  {
    if PWord(s, i).Some? then PWord(s, i)
    else if s[i] == '"' then
      match PString(s, i)
      case None => None
      case Some(t) => Some((Str(t.0), t.1))
    else if s[i] == '-' || Digit(s[i]) then PNumber(s, i, c)
    else if s[i] == '[' then
      if depth >= NESTING_LIMIT then None
      else
        var j := Skip(s, i + 1);
        if s[j] == ']' then Some((Array([]), j + 1))
        else match PItems(s, j, depth + 1, c)
          case None => None
          case Some(r) => Some((Array(r.0), r.1 + 1))
    else if s[i] == '{' then
      if depth >= NESTING_LIMIT then None
      else
        var j := Skip(s, i + 1);
        if s[j] == '}' then Some((Object([]), j + 1))
        else match PMembers(s, j, depth + 1, c)
          case None => None
          case Some(r) => Some((Object(r.0), r.1 + 1))
    else None
  }

  /** The items from `j` on and where the closing bracket is. */
  function PItems(s: string, j: nat, depth: nat, c: Libc): (r: Option<(seq<Json>, nat)>)
    requires Terminated(s) && j < |s|
    ensures r.Some? ==> j < r.value.1 < |s| - 1
    decreases |s| - j, 1
  {
    match PValue(s, j, depth, c)
    case None => None
    case Some(v) =>
      var m := Skip(s, v.1);
      if s[m] == ',' then
        match PItems(s, Skip(s, m + 1), depth, c)
        case None => None
        case Some(rest) => Some(([v.0] + rest.0, rest.1))
      else if s[m] == ']' then Some(([v.0], m))
      else None
  }

  /** One member: its name, a colon and its value. */
  function PMember(s: string, j: nat, depth: nat, c: Libc): (r: Option<(Member, nat)>)
    requires Terminated(s) && j < |s|
    ensures r.Some? ==> j < r.value.1 < |s|
    decreases |s| - j, 1
  {
    match PString(s, j)
    case None => None
    case Some(key) =>
      var colon := Skip(s, key.1);
      if s[colon] != ':' then None
      else match PValue(s, Skip(s, colon + 1), depth, c)
        case None => None
        case Some(v) => Some((Member(key.0, v.0), v.1))
  }

  /** The members from `j` on and where the closing brace is. */
  function PMembers(s: string, j: nat, depth: nat, c: Libc): (r: Option<(seq<Member>, nat)>)
    requires Terminated(s) && j < |s|
    ensures r.Some? ==> j < r.value.1 < |s| - 1
    decreases |s| - j, 2
  {
    match PMember(s, j, depth, c)
    case None => None
    case Some(m) =>
      var e := Skip(s, m.1);
      if s[e] == ',' then
        match PMembers(s, Skip(s, e + 1), depth, c)
        case None => None
        case Some(rest) => Some(([m.0] + rest.0, rest.1))
      else if s[e] == '}' then Some(([m.0], e))
      else None
  }

  // ----- cJSON_ParseWithOpts -----

  /** A byte order mark is skipped if there is something after it. */
  function AfterMark(s: string): nat {
    if |s| > 4 && s[0] == 0xEF as char && s[1] == 0xBB as char && s[2] == 0xBF as char then 3 else 0
  }

  /** The document in a NUL-free text and where parsing ended; `whole` rejects anything after it. */
  function ParseText(text: string, whole: bool, c: Libc): Option<(Json, nat)>
    requires Terminated(text + ['\0'])
  {
    var s := text + ['\0'];
    match PValue(s, Skip(s, AfterMark(s)), 0, c)
    case None => None
    case Some(v) =>
      var end := if whole then Skip(s, v.1) else v.1;
      if whole && s[end] != '\0' then None else Some((v.0, end))
  }
}
