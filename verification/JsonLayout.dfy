/** How printed text is laid out (apps/cjson/cJSON.c:898-1018, 1535-1594, 1710-1821), said by a scanner that sees one
    character after the other: line breaks, tabs and spaces of formatted text, and none in unformatted text. */
module JsonLayout {
  import opened Basics
  import opened Json
  import opened JsonText
  import opened JsonRoundTrip

  /** Outside a string, inside one, or behind a backslash in one. */
  datatype Mode = Outside | Inside | Escaped

  function NextMode(mode: Mode, c: char): Mode {
    match mode
    case Outside => if c == '"' then Inside else Outside
    case Inside => if c == '"' then Outside else if c == '\\' then Escaped else Inside
    case Escaped => Inside
  }

  // ----- without the blanks -----

  /** The mode behind a text. */
  function ModeAfter(t: string, mode: Mode): Mode {
    if t == "" then mode else NextMode(ModeAfter(t[..|t| - 1], mode), t[|t| - 1])
  }

  /** A text without the blanks outside its strings. */
  function Stripped(t: string, mode: Mode): string {
    if t == "" then ""
    else
      var front, c := t[..|t| - 1], t[|t| - 1];
      Stripped(front, mode) + if ModeAfter(front, mode).Outside? && c <= ' ' then [] else [c]
  }

  lemma {:induction false} StripAppend(a: string, b: string, mode: Mode)
    ensures ModeAfter(a + b, mode) == ModeAfter(b, ModeAfter(a, mode))
    ensures Stripped(a + b, mode) == Stripped(a, mode) + Stripped(b, ModeAfter(a, mode))
    decreases b
  {
    if b == "" {
      assert a + b == a;
    } else {
      var front, c := b[..|b| - 1], b[|b| - 1];
      assert (a + b)[..|a + b| - 1] == a + front && (a + b)[|a + b| - 1] == c;
      StripAppend(a, front, mode);
    }
  }

  /** A text that begins and ends outside strings. */
  ghost predicate Closed(t: string, s: string) {
    ModeAfter(t, Outside) == Outside && Stripped(t, Outside) == s
  }

  lemma {:induction false} ClosedAppend(a: string, b: string, x: string, y: string)
    requires Closed(a, x) && Closed(b, y)
    ensures Closed(a + b, x + y)
  {
    StripAppend(a, b, Outside);
  }

  lemma {:induction false} ClosedOne(c: char)
    requires c != '"'
    ensures Closed([c], if c <= ' ' then [] else [c])
  {
    assert [c][..0] == "";
  }

  lemma {:induction false} ClosedPlain(t: string)
    requires forall k :: 0 <= k < |t| ==> ' ' < t[k] && t[k] != '"'
    ensures Closed(t, t)
    decreases t
  {
    if t != "" {
      var front := t[..|t| - 1];
      ClosedPlain(front);
      ClosedOne(t[|t| - 1]);
      assert t == front + [t[|t| - 1]];
    }
  }

  lemma {:induction false} ClosedBlank(t: string)
    requires forall k :: 0 <= k < |t| ==> t[k] <= ' '
    ensures Closed(t, "")
    decreases t
  {
    if t != "" {
      ClosedBlank(t[..|t| - 1]);
    }
  }

  /** What is written for a character keeps the string open. */
  lemma {:induction false} QuotedInside(c: char)
    ensures ModeAfter(Quoted(c), Inside) == Inside && Stripped(Quoted(c), Inside) == Quoted(c)
  {
    var q := Quoted(c);
    if |q| == 1 {
      StripOne(q[0], Inside);
      assert q == [q[0]];
    } else {
      StripOne(q[0], Inside);
      StripOne(q[1], Escaped);
      StripAppend([q[0]], [q[1]], Inside);
      assert [q[0]] + [q[1]] == q[..2];
      if |q| == 6 {
        InsidePlain(q[2..]);
        StripAppend(q[..2], q[2..], Inside);
        assert q == q[..2] + q[2..];
      } else {
        assert q == q[..2];
      }
    }
  }

  lemma {:induction false} StripOne(c: char, mode: Mode)
    ensures ModeAfter([c], mode) == NextMode(mode, c)
    ensures Stripped([c], mode) == if mode.Outside? && c <= ' ' then [] else [c]
  {
    assert [c][..0] == "";
  }

  lemma {:induction false} InsidePlain(t: string)
    requires forall k :: 0 <= k < |t| ==> t[k] != '"' && t[k] != '\\'
    ensures ModeAfter(t, Inside) == Inside && Stripped(t, Inside) == t
    decreases t
  {
    if t != "" {
      var front := t[..|t| - 1];
      InsidePlain(front);
      assert t == front + [t[|t| - 1]];
    }
  }

  lemma {:induction false} QuotedFromInside(text: string, k: nat)
    requires k <= |text|
    ensures ModeAfter(QuotedFrom(text, k), Inside) == Inside && Stripped(QuotedFrom(text, k), Inside)
        == QuotedFrom(text, k)
    decreases |text| - k
  {
    if k < |text| {
      QuotedInside(text[k]);
      QuotedFromInside(text, k + 1);
      StripAppend(Quoted(text[k]), QuotedFrom(text, k + 1), Inside);
    }
  }

  lemma {:induction false} ClosedQuote(text: string)
    ensures Closed(Quote(text), Quote(text))
  {
    var q := QuotedFrom(text, 0);
    StripOne('"', Outside);
    StripOne('"', Inside);
    QuotedFromInside(text, 0);
    StripAppend(['"'], q, Outside);
    StripAppend(['"'] + q, ['"'], Outside);
  }

  lemma {:induction false} ClosedThree(a: string, b: string, c: string, x: string, y: string, z: string)
    requires Closed(a, x) && Closed(b, y) && Closed(c, z)
    ensures Closed(a + b + c, x + y + z)
  {
    ClosedAppend(a, b, x, y);
    ClosedAppend(a + b, c, x + y, z);
  }

  lemma {:induction false} ClosedComma(last: bool, format: bool)
    ensures Closed(if last then [] else if format then [',', ' '] else [','], if last then [] else [','])
  {
    ClosedOne(',');
    ClosedOne(' ');
    ClosedAppend([','], [' '], [','], []);
    assert [','] + [] == [','] && [','] + [' '] == [',', ' '];
    assert Closed([], []);
  }

  lemma {:induction false} StripItems(items: seq<Json>, i: nat, depth: nat, format: bool, c: Libc)
    requires Readable(Array(items), c) && i <= |items|
    ensures Closed(RenderItems(items, i, depth, format, c), RenderItems(items, i, depth, false, c))
    decreases items, 0, |items| - i
  {
    if i < |items| {
      var last := i + 1 == |items|;
      StripRender(items[i], depth, format, c);
      ClosedComma(last, format);
      StripItems(items, i + 1, depth, format, c);
      ClosedThree(Render(items[i], depth, format, c), if last then [] else if format then [',', ' '] else [','],
          RenderItems(items, i + 1, depth, format, c), Render(items[i], depth, false, c), if last then [] else [','],
          RenderItems(items, i + 1, depth, false, c));
    }
  }

  lemma {:induction false} StripKey(key: string, depth: nat, format: bool)
    ensures Closed(KeyText(key, depth, format), KeyText(key, depth, false))
  {
    var tabs, colon := if format then Tabs(depth) else [], if format then [':', '\t'] else [':'];
    ClosedBlank(tabs);
    ClosedQuote(key);
    ClosedOne(':');
    ClosedOne('\t');
    ClosedAppend([':'], ['\t'], [':'], []);
    assert [':'] + ['\t'] == [':', '\t'] && [':'] + [] == [':'];
    ClosedThree(tabs, Quote(key), colon, [], Quote(key), [':']);
  }

  lemma {:induction false} StripEnd(last: bool, format: bool)
    ensures Closed(LineEnd(last, format), LineEnd(last, false))
  {
    var comma, line := if last then [] else [','], if format then ['\n'] else [];
    ClosedOne(',');
    ClosedBlank(line);
    assert Closed([], []);
    ClosedAppend(comma, line, comma, []);
  }

  lemma {:induction false} StripMembers(ms: seq<Member>, i: nat, depth: nat, format: bool, c: Libc)
    requires Readable(Object(ms), c) && i <= |ms|
    ensures Closed(RenderMembers(ms, i, depth, format, c), RenderMembers(ms, i, depth, false, c))
    decreases ms, 0, |ms| - i
  {
    if i < |ms| {
      var m, last := ms[i], i + 1 == |ms|;
      StripKey(m.key, depth, format);
      StripRender(m.value, depth, format, c);
      StripEnd(last, format);
      ClosedThree(KeyText(m.key, depth, format), Render(m.value, depth, format, c), LineEnd(last, format),
          KeyText(m.key, depth, false), Render(m.value, depth, false, c), LineEnd(last, false));
      StripMembers(ms, i + 1, depth, format, c);
      ClosedAppend(RenderMember(m, last, depth, format, c), RenderMembers(ms, i + 1, depth, format, c),
          RenderMember(m, last, depth, false, c), RenderMembers(ms, i + 1, depth, false, c));
    }
  }

  lemma {:induction false} StripBraces(body: string, tight: string, depth: nat, format: bool)
    requires Closed(body, tight)
    ensures Closed(['{'] + (if format then ['\n'] else []) + body + (if format then Tabs(depth) else []) + ['}'],
        ['{'] + [] + tight + [] + ['}'])
  {
    var line, tabs := if format then ['\n'] else [], if format then Tabs(depth) else [];
    ClosedOne('{');
    ClosedOne('}');
    ClosedBlank(line);
    ClosedBlank(tabs);
    ClosedThree(['{'], line, body, ['{'], [], tight);
    ClosedThree(['{'] + line + body, tabs, ['}'], ['{'] + [] + tight, [], ['}']);
  }

  /** Formatting adds blanks outside strings and nothing else; unformatted text has none there. */
  lemma {:induction false} StripRender(j: Json, depth: nat, format: bool, c: Libc)
    requires Readable(j, c)
    ensures Closed(Render(j, depth, format, c), Render(j, depth, false, c))
    decreases j, 1
  {
    match j {
      case Str(t) => ClosedQuote(t);
      case Array(items) =>
        StripItems(items, 0, depth + 1, format, c);
        ClosedOne('[');
        ClosedOne(']');
        ClosedThree(['['], RenderItems(items, 0, depth + 1, format, c), [']'], ['['],
            RenderItems(items, 0, depth + 1, false, c), [']']);
      case Object(ms) =>
        StripMembers(ms, 0, depth + 1, format, c);
        StripBraces(RenderMembers(ms, 0, depth + 1, format, c), RenderMembers(ms, 0, depth + 1, false, c), depth,
            format);
      case Number(_, d) =>
        forall k | 0 <= k < |c.sprintf(d)| ensures ' ' < c.sprintf(d)[k] && c.sprintf(d)[k] != '"' {
          assert Numeric(c.sprintf(d)[k]);
        }
        ClosedPlain(c.sprintf(d));
      case _ => ClosedPlain(Render(j, depth, format, c));
    }
  }

  /** The unformatted text of a document is its formatted text without the blanks, and has none. */
  lemma {:induction false} FormattingIsBlank(j: Json, depth: nat, c: Libc)
    requires Readable(j, c)
    ensures Stripped(Render(j, depth, true, c), Outside) == Render(j, depth, false, c)
    ensures Stripped(Render(j, depth, false, c), Outside) == Render(j, depth, false, c)
  {
    StripRender(j, depth, true, c);
    StripRender(j, depth, false, c);
  }

  // ----- lines and tabs -----

  /** What a scanner of formatted text knows: the mode, the open brackets (true for a brace), the tabs since the last
      line break if nothing else has come yet, and a blank that has to come next. */
  datatype Scan = Scan(mode: Mode, open: seq<bool>, line: Option<nat>, due: Option<char>)

  function Popped(open: seq<bool>): seq<bool> {
    if open == [] then [] else open[..|open| - 1]
  }

  predicate InObject(open: seq<bool>) {
    open != [] && open[|open| - 1]
  }

  predicate InArray(open: seq<bool>) {
    open != [] && !open[|open| - 1]
  }

  /** One character of formatted text, or nothing if it is out of place: a line breaks behind an opening brace, behind
      a comma between members and before a closing brace; it then begins with as many tabs as brackets are open, one
      less before a closing brace; a space follows a comma between items and a tab a colon; there are no other
      blanks. */
  function NextScan(s: Scan, c: char): Option<Scan> {
    if !s.mode.Outside? then Some(s.(mode := NextMode(s.mode, c)))
    else if s.due.Some? then
      if c != s.due.value then None else Some(s.(due := None, line := if c == '\n' then Some(0) else None))
    else if s.line.Some? && c == '\t' then Some(s.(line := Some(s.line.value + 1)))
    else if c == '}' then
      if InObject(s.open) && s.line == Some(|s.open| - 1) then Some(s.(line := None, open := Popped(s.open))) else None
    else if s.line.Some? && s.line.value != |s.open| then None
    else Token(s.(line := None), c)
  }

  function Token(s: Scan, c: char): Option<Scan> {
    if c == '"' then Some(s.(mode := Inside))
    else if c == '{' then Some(s.(open := s.open + [true], due := Some('\n')))
    else if c == '[' then Some(s.(open := s.open + [false]))
    else if c == ']' then (if InArray(s.open) then Some(s.(open := Popped(s.open))) else None)
    else if c == ',' then
      if s.open == [] then None else Some(s.(due := Some(if InObject(s.open) then '\n' else ' ')))
    else if c == ':' then Some(s.(due := Some('\t')))
    else if c == '\n' then (if InObject(s.open) then Some(s.(line := Some(0))) else None)
    else if c <= ' ' then None
    else Some(s)
  }

  /** The state behind a text, if everything in it is in place. */
  function ScanText(t: string, s: Scan): Option<Scan> {
    if t == "" then Some(s)
    else
      match ScanText(t[..|t| - 1], s)
      case None => None
      case Some(m) => NextScan(m, t[|t| - 1])
  }

  lemma {:induction false} ScanAppend(a: string, b: string, s: Scan)
    requires ScanText(a, s).Some?
    ensures ScanText(a + b, s) == ScanText(b, ScanText(a, s).value)
    decreases b
  {
    if b == "" {
      assert a + b == a;
    } else {
      var front := b[..|b| - 1];
      assert (a + b)[..|a + b| - 1] == a + front;
      ScanAppend(a, front, s);
    }
  }

  lemma {:induction false} ScanOne(c: char, s: Scan)
    ensures ScanText([c], s) == NextScan(s, c)
  {
    assert [c][..0] == "";
  }

  /** Text that leads from one state to another. */
  ghost predicate LeadsTo(t: string, s: Scan, s': Scan) {
    ScanText(t, s) == Some(s')
  }

  lemma {:induction false} ThenLeads(a: string, b: string, s: Scan, m: Scan, s': Scan)
    requires LeadsTo(a, s, m) && LeadsTo(b, m, s')
    ensures LeadsTo(a + b, s, s')
  {
    ScanAppend(a, b, s);
  }

  lemma {:induction false} TabsLead(n: nat, s: Scan)
    requires s.mode.Outside? && s.due.None? && s.line.Some?
    ensures LeadsTo(Tabs(n), s, s.(line := Some(s.line.value + n)))
  {
    if n > 0 {
      TabsLead(n - 1, s);
      var m := s.(line := Some(s.line.value + n - 1));
      ScanOne('\t', m);
      ThenLeads(Tabs(n - 1), ['\t'], s, m, s.(line := Some(s.line.value + n)));
      assert Tabs(n) == Tabs(n - 1) + ['\t'];
    }
  }

  /** Where a value can stand: on a line of its own depth, or behind something. */
  predicate Fresh(s: Scan) {
    s.mode.Outside? && s.due.None? && s.line.None?
  }

  lemma {:induction false} InsideLeads(t: string, s: Scan)
    requires s.mode.Inside? && forall k :: 0 <= k < |t| ==> t[k] != '"' && t[k] != '\\'
    ensures LeadsTo(t, s, s)
    decreases t
  {
    if t != "" {
      InsideLeads(t[..|t| - 1], s);
    }
  }

  lemma {:induction false} QuotedLeads(c: char, s: Scan)
    requires s.mode.Inside?
    ensures LeadsTo(Quoted(c), s, s)
  {
    var q := Quoted(c);
    if |q| == 1 {
      InsideLeads(q, s);
    } else {
      ScanOne(q[0], s);
      ScanOne(q[1], s.(mode := Escaped));
      ThenLeads([q[0]], [q[1]], s, s.(mode := Escaped), s);
      assert [q[0]] + [q[1]] == q[..2];
      if |q| == 6 {
        InsideLeads(q[2..], s);
        ThenLeads(q[..2], q[2..], s, s, s);
        assert q == q[..2] + q[2..];
      } else {
        assert q == q[..2];
      }
    }
  }

  lemma {:induction false} QuotedFromLeads(text: string, k: nat, s: Scan)
    requires k <= |text| && s.mode.Inside?
    ensures LeadsTo(QuotedFrom(text, k), s, s)
    decreases |text| - k
  {
    if k < |text| {
      QuotedLeads(text[k], s);
      QuotedFromLeads(text, k + 1, s);
      ThenLeads(Quoted(text[k]), QuotedFrom(text, k + 1), s, s, s);
    }
  }

  /** A string stands at the beginning of a line with the right number of tabs, or anywhere within one. */
  lemma {:induction false} QuoteLeads(text: string, s: Scan)
    requires s.mode.Outside? && s.due.None? && (s.line.Some? ==> s.line.value == |s.open|)
    ensures LeadsTo(Quote(text), s, s.(line := None))
  {
    var m := s.(line := None, mode := Inside);
    ScanOne('"', s);
    QuotedFromLeads(text, 0, m);
    ThenLeads(['"'], QuotedFrom(text, 0), s, m, m);
    ScanOne('"', m);
    ThenLeads(['"'] + QuotedFrom(text, 0), ['"'], s, m, s.(line := None));
  }

  lemma {:induction false} PairLeads(a: char, b: char, s: Scan, m: Scan, s': Scan)
    requires NextScan(s, a) == Some(m) && NextScan(m, b) == Some(s')
    ensures LeadsTo([a, b], s, s')
  {
    ScanOne(a, s);
    ScanOne(b, m);
    ThenLeads([a], [b], s, m, s');
    assert [a] + [b] == [a, b];
  }

  /** Inside an array or object that is open at some depth. */
  ghost predicate At(s: Scan, depth: nat) {
    Fresh(s) && |s.open| == depth
  }

  lemma {:induction false} ItemsLead(items: seq<Json>, i: nat, depth: nat, c: Libc, s: Scan)
    requires Readable(Array(items), c) && i <= |items| && At(s, depth) && InArray(s.open)
    ensures LeadsTo(RenderItems(items, i, depth, true, c), s, s)
    decreases items, 0, |items| - i
  {
    if i < |items| {
      var last, v := i + 1 == |items|, Render(items[i], depth, true, c);
      var comma := if i + 1 < |items| then [',', ' '] else [];
      RenderLeads(items[i], depth, c, s);
      PairLeads(',', ' ', s, s.(due := Some(' ')), s);
      assert LeadsTo(comma, s, s);
      ThenLeads(v, comma, s, s, s);
      ItemsLead(items, i + 1, depth, c, s);
      ThenLeads(v + comma, RenderItems(items, i + 1, depth, true, c), s, s, s);
    }
  }

  lemma {:induction false} KeyLeads(key: string, depth: nat, s: Scan)
    requires At(s, depth)
    ensures LeadsTo(KeyText(key, depth, true), s.(line := Some(0)), s)
  {
    var begin, indented := s.(line := Some(0)), s.(line := Some(depth));
    TabsLead(depth, begin);
    QuoteLeads(key, indented);
    ThenLeads(Tabs(depth), Quote(key), begin, indented, s);
    PairLeads(':', '\t', s, s.(due := Some('\t')), s);
    ThenLeads(Tabs(depth) + Quote(key), [':', '\t'], begin, s, s);
  }

  lemma {:induction false} EndLeads(last: bool, depth: nat, s: Scan)
    requires At(s, depth) && InObject(s.open)
    ensures LeadsTo(LineEnd(last, true), s, s.(line := Some(0)))
  {
    if last {
      ScanOne('\n', s);
      assert LineEnd(last, true) == ['\n'];
    } else {
      PairLeads(',', '\n', s, s.(due := Some('\n')), s.(line := Some(0)));
      assert LineEnd(last, true) == [',', '\n'];
    }
  }

  lemma {:induction false} MembersLead(ms: seq<Member>, i: nat, depth: nat, c: Libc, s: Scan)
    requires Readable(Object(ms), c) && i <= |ms| && At(s, depth) && InObject(s.open)
    ensures LeadsTo(RenderMembers(ms, i, depth, true, c), s.(line := Some(0)), s.(line := Some(0)))
    decreases ms, 0, |ms| - i
  {
    if i < |ms| {
      var m, last, begin := ms[i], i + 1 == |ms|, s.(line := Some(0));
      var key, value, end := KeyText(m.key, depth, true), Render(m.value, depth, true, c), LineEnd(last, true);
      KeyLeads(m.key, depth, s);
      RenderLeads(m.value, depth, c, s);
      ThenLeads(key, value, begin, s, s);
      EndLeads(last, depth, s);
      ThenLeads(key + value, end, begin, s, begin);
      MembersLead(ms, i + 1, depth, c, s);
      ThenLeads(key + value + end, RenderMembers(ms, i + 1, depth, true, c), begin, begin, begin);
    }
  }

  lemma {:induction false} BracesLead(body: string, depth: nat, s: Scan, inner: Scan)
    requires At(s, depth) && inner == s.(open := s.open + [true])
    requires LeadsTo(body, inner.(line := Some(0)), inner.(line := Some(0)))
    ensures LeadsTo(['{'] + ['\n'] + body + Tabs(depth) + ['}'], s, s)
  {
    var begin, close := inner.(line := Some(0)), inner.(line := Some(depth));
    PairLeads('{', '\n', s, inner.(due := Some('\n')), begin);
    assert ['{'] + ['\n'] == ['{', '\n'];
    ThenLeads(['{'] + ['\n'], body, s, begin, begin);
    TabsLead(depth, begin);
    ThenLeads(['{'] + ['\n'] + body, Tabs(depth), s, begin, close);
    assert Popped(inner.open) == s.open;
    ScanOne('}', close);
    ThenLeads(['{'] + ['\n'] + body + Tabs(depth), ['}'], s, close, s);
  }

  /** Formatted text is laid out like that all the way down. */
  lemma {:induction false} RenderLeads(j: Json, depth: nat, c: Libc, s: Scan)
    requires Readable(j, c) && At(s, depth)
    ensures LeadsTo(Render(j, depth, true, c), s, s)
    decreases j, 1
  {
    match j {
      case Str(t) => QuoteLeads(t, s);
      case Array(items) =>
        var inner := s.(open := s.open + [false]);
        ScanOne('[', s);
        ItemsLead(items, 0, depth + 1, c, inner);
        ThenLeads(['['], RenderItems(items, 0, depth + 1, true, c), s, inner, inner);
        assert Popped(inner.open) == s.open;
        ScanOne(']', inner);
        ThenLeads(['['] + RenderItems(items, 0, depth + 1, true, c), [']'], s, inner, s);
      case Object(ms) =>
        var inner := s.(open := s.open + [true]);
        MembersLead(ms, 0, depth + 1, c, inner);
        BracesLead(RenderMembers(ms, 0, depth + 1, true, c), depth, s, inner);
      case Number(_, d) => NumberLeads(c.sprintf(d), s);
      case _ => WordLeads(Render(j, depth, true, c), s);
    }
  }

  lemma {:induction false} NumberLeads(t: string, s: Scan)
    requires Fresh(s) && forall k :: 0 <= k < |t| ==> Numeric(t[k])
    ensures LeadsTo(t, s, s)
    decreases t
  {
    if t != "" {
      NumberLeads(t[..|t| - 1], s);
    }
  }

  lemma {:induction false} WordLeads(t: string, s: Scan)
    requires Fresh(s) && forall k :: 0 <= k < |t| ==> 'a' <= t[k] <= 'z'
    ensures LeadsTo(t, s, s)
    decreases t
  {
    if t != "" {
      WordLeads(t[..|t| - 1], s);
    }
  }

  /** The formatted text of a document: every line break, tab and space in it is in its place. */
  lemma {:induction false} LaidOut(j: Json, c: Libc)
    requires Readable(j, c)
    ensures ScanText(Render(j, 0, true, c), Scan(Outside, [], None, None)) == Some(Scan(Outside, [], None, None))
  {
    RenderLeads(j, 0, c, Scan(Outside, [], None, None));
  }

  // ----- raw items and hexadecimal digits -----

  /** The text of a raw item comes out as it is, wherever it stands in an array. */
  lemma {:induction false} RawUnchanged(items: seq<Json>, i: nat, t: string, depth: nat, format: bool, c: Libc)
    requires i < |items| && items[i] == Raw(t)
    ensures exists before, after :: RenderItems(items, 0, depth, format, c) == before + t + after
  {
    RawBehind(items, 0, i, t, depth, format, c);
  }

  lemma {:induction false} RawBehind(items: seq<Json>, k: nat, i: nat, t: string, depth: nat, format: bool, c: Libc)
    requires k <= i < |items| && items[i] == Raw(t)
    ensures exists before, after :: RenderItems(items, k, depth, format, c) == before + t + after
    decreases i - k
  {
    var sep := if k + 1 < |items| then (if format then [',', ' '] else [',']) else [];
    var v, rest := Render(items[k], depth, format, c), RenderItems(items, k + 1, depth, format, c);
    if k == i {
      assert v + sep + rest == "" + t + (sep + rest);
    } else {
      RawBehind(items, k + 1, i, t, depth, format, c);
      var before, after :| rest == before + t + after;
      assert v + sep + rest == (v + sep + before) + t + after;
    }
  }

  /** Control characters without a short escape are written with small hexadecimal digits. */
  lemma {:induction false} ControlsInHex(c: char)
    requires c < ' ' && |Quoted(c)| != 2
    ensures var q := Quoted(c);
      && |q| == 6 && q[..4] == ['\\', 'u', '0', '0'] && (q[4] == '0' || q[4] == '1')
      && c as int == (if q[4] == '1' then 16 else 0)
          + (if q[5] <= '9' then q[5] as int - 0x30 else q[5] as int - 0x61 + 10)
      && ('0' <= q[5] <= '9' || 'a' <= q[5] <= 'f')
  {
  }

  /** Only quotes, backslashes and control characters are escaped. */
  lemma {:induction false} EscapedExactly(c: char)
    ensures Quoted(c) != [c] <==> c == '"' || c == '\\' || c as int < 0x20
    ensures |Quoted(c)| == 2 <==> c in ['"', '\\', 8 as char, 9 as char, 10 as char, 12 as char, 13 as char]
  {
  }
}
