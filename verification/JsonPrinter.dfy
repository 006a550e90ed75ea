/** The printer of apps/cjson/cJSON.c:427-609, 875-1018, 1180-1305, 1363-1434, 1535-1594 and 1710-1821:
    text written into a buffer that grows while it is being filled, against `JsonText.Render`.
    A predicate compared with `true` in a contract is proved as one fact, not conjunct by conjunct. */
module JsonPrinter {
  import opened Basics
  import opened Json
  import opened JsonText

  /** What can be printed: no invalid item, and no number longer than the temporary buffer. */
  predicate Printable(j: Json, c: Libc)
    decreases j
  {
    match j
    case Invalid => false
    case Number(_, d) => |c.sprintf(d)| <= 25
    case Array(items) => forall i :: 0 <= i < |items| ==> Printable(items[i], c)
    case Object(ms) => forall i :: 0 <= i < |ms| ==> Printable(ms[i].value, c)
    case _ => true
  }

  /** The values of the first `n` members can be printed. */
  ghost predicate AllPrintable(ms: seq<Member>, n: nat, c: Libc) {
    n <= |ms| && forall x :: 0 <= x < n ==> Printable(ms[x].value, c)
  }

  lemma {:induction false} MorePrintable(ms: seq<Member>, n: nat, c: Libc)
    requires AllPrintable(ms, n, c) == true
    ensures n < |ms| && Printable(ms[n].value, c) ==> AllPrintable(ms, n + 1, c)
    ensures n == |ms| ==> Printable(Object(ms), c)
  {
  }

  class PrintBuffer {
    var buffer: array<char>
    var offset: nat
    var depth: nat
    var overread: bool  // a copy by hand has read past the end of the buffer
    const start: nat
    const noalloc: bool
    const format: bool
    const reallocates: bool
    const libc: Libc

    ghost predicate Valid()
      reads this`buffer, this`offset, this`overread
    {
      && buffer.Length <= INT_MAX
      && (offset < buffer.Length || (buffer.Length == 0 && offset == 0))
      && (start > 0 ==> buffer.Length > 0)
      && (overread <==> start == 0 && !reallocates && buffer.Length > 0)
    }

    /** The text before the offset. */
    ghost predicate Before(done: string)
      reads this`buffer, this`offset, this`overread, buffer
    {
      Valid() && offset == |done| && buffer[..offset] == done
    }

    /** A text and its terminator, with the offset somewhere in it. */
    ghost predicate Written(text: string)
      reads this`buffer, this`offset, this`overread, buffer
    {
      Valid() && |text| < buffer.Length && buffer[..|text|] == text && buffer[|text|] == '\0' && offset <= |text|
    }

    /** How large the buffer can become. */
    ghost function Room(): nat
      reads this`buffer
    {
      if noalloc then buffer.Length else INT_MAX
    }

    /** The buffer is the same or a new one, with as much room as before. */
    twostate predicate Grown()
      reads this`buffer
    {
      Room() == old(Room()) && (buffer == old(buffer) || fresh(buffer))
    }

    constructor (size: nat, noalloc: bool, format: bool, reallocates: bool, libc: Libc)
      requires size <= INT_MAX
      ensures Before("") && depth == 0 && fresh(buffer) && buffer.Length == start == size
      ensures this.noalloc == noalloc && this.format == format && this.reallocates == reallocates && this.libc == libc
    {
      buffer := new char[size];
      offset, depth, overread := 0, 0, false;
      start := size;
      this.noalloc, this.format, this.reallocates, this.libc := noalloc, format, reallocates, libc;
    }

    /** `realloc`, or a copy by hand of the text and one more byte: an empty buffer does not have that
        byte, and `past` says that it was read nevertheless. */
    method Grow(size: nat) returns (larger: array<char>, past: bool)
      requires Valid() && buffer.Length <= size
      ensures fresh(larger) && larger.Length == size && larger[..offset] == buffer[..offset]
      ensures past <==> !reallocates && buffer.Length == 0
    {
      larger := new char[size];
      var count := if reallocates then buffer.Length else offset + 1;
      past := count > buffer.Length;
      var i := 0;
      while i < count && i < buffer.Length
        invariant i <= count && i <= buffer.Length && forall k :: 0 <= k < i ==> larger[k] == buffer[k]
      {
        larger[i] := buffer[i];
        i := i + 1;
      }
    }

    /** `ensure`: room for `needed` bytes and a terminator after the offset, if there can be; the
        text already written stays. */
    method Ensure(needed: nat, ghost done: string) returns (ok: bool)
      requires Before(done)
      modifies this`buffer, this`overread
      ensures Before(done) && Grown() == true
      ensures ok <==> offset + needed < Room()
      ensures ok ==> offset + needed < buffer.Length
    {
      if needed > INT_MAX {
        return false;
      }
      var total := needed + offset + 1;
      if total <= buffer.Length {
        return true;
      }
      if noalloc {
        return false;
      }
      var size := total * 2;
      if total > INT_MAX / 2 {
        if total > INT_MAX {
          return false;
        }
        size := INT_MAX;
      }
      var larger, past := Grow(size);
      buffer, overread := larger, overread || past;
      return true;
    }

    /** Writing bytes behind a text that ends at `at`. */
    method Store(at: nat, bytes: string, ghost done: string)
      requires at == |done| && at + |bytes| <= buffer.Length && buffer[..at] == done
      modifies buffer
      ensures buffer[..at + |bytes|] == done + bytes
    {
      ghost var all := done + bytes;
      var i := 0;
      assert forall k :: 0 <= k < at ==> buffer[k] == buffer[..at][k];
      while i < |bytes|
        invariant i <= |bytes| && forall k :: 0 <= k < at + i ==> buffer[k] == all[k]
      {
        buffer[at + i] := bytes[i];
        i := i + 1;
      }
    }

    /** Writing bytes and a terminator behind a text. */
    method Finish(at: nat, bytes: string, ghost done: string)
      requires Valid() && at == |done| && at + |bytes| < buffer.Length && buffer[..at] == done && offset <= at + |bytes|
      modifies buffer
      ensures Written(done + bytes)
    {
      Store(at, bytes + ['\0'], done);
      ghost var all := buffer[..at + |bytes| + 1];
      assert all == done + (bytes + ['\0']);
      assert all[at + |bytes|] == '\0' && all[..at + |bytes|] == done + bytes;
    }

    /** `ensure` and `strcpy`: bytes and a terminator at the offset, which stays. */
    method Copy(bytes: string, ghost done: string) returns (ok: bool)
      requires Before(done)
      modifies this`buffer, this`overread, buffer
      ensures Grown() == true
      ensures ok <==> |done| + |bytes| + 1 < Room()
      ensures ok ==> Written(done + bytes)
    {
      ok := Ensure(|bytes| + 1, done);
      if ok {
        Finish(offset, bytes, done);
      }
    }

    /** `ensure`, writing and moving the offset; some callers ask for a spare byte, and some of them
        write a terminator into it. */
    method Emit(bytes: string, spare: nat, terminate: bool, ghost done: string) returns (ok: bool)
      requires Before(done) && (terminate ==> spare == 1)
      modifies this`buffer, this`overread, this`offset, buffer
      ensures Grown() == true
      ensures ok <==> |done| + |bytes| + spare < Room()
      ensures ok ==> Before(done + bytes)
    {
      ok := Ensure(|bytes| + spare, done);
      if ok {
        if terminate {
          Finish(offset, bytes, done);
        } else {
          Store(offset, bytes, done);
        }
        offset := offset + |bytes|;
      }
    }

    /** `update_offset`: to the terminator of what has been written. */
    method UpdateOffset(ghost text: string)
      requires Written(text) && forall k :: offset <= k < |text| ==> text[k] != '\0'
      modifies this`offset
      ensures Before(text) && buffer[offset] == '\0'
    {
      forall k | offset <= k < |text| ensures buffer[k] != '\0' {
        assert buffer[..|text|][k] == text[k];
      }
      while buffer[offset] != '\0'
        invariant old(offset) <= offset <= |text| && Valid()
        decreases |text| - offset
      {
        offset := offset + 1;
      }
    }

    /** How many bytes more than one a character takes. */
    static method EscapeSize(c: char) returns (n: nat)
      ensures n == |Quoted(c)| - 1
    {
      if c == '"' || c == '\\' || c == 8 as char || c == 12 as char || c == '\n' || c == '\r' || c == '\t' {
        return 1;
      }
      n := if (c as int) < 32 then 5 else 0;
    }

    /** What is written for a character. */
    static method EscapeChar(c: char) returns (q: string)
      ensures q == Quoted(c)
    {
      if c as int > 31 && c != '"' && c != '\\' {
        return [c];
      }
      q := ['\\'];
      if c == '\\' {
        q := q + ['\\'];
      } else if c == '"' {
        q := q + ['"'];
      } else if c == 8 as char {
        q := q + ['b'];
      } else if c == 12 as char {
        q := q + ['f'];
      } else if c == '\n' {
        q := q + ['n'];
      } else if c == '\r' {
        q := q + ['r'];
      } else if c == '\t' {
        q := q + ['t'];
      } else {
        q := q + ['u', '0', '0', HexDigit(c as int / 16), HexDigit(c as int % 16)];
      }
    }

    /** The size of a string when escaped. */
    method QuotedLength(text: string) returns (escapes: nat)
      ensures |text| + escapes == |QuotedFrom(text, 0)|
    {
      escapes := 0;
      var i := 0;
      while i < |text|
        invariant i <= |text| && i + escapes + |QuotedFrom(text, i)| == |QuotedFrom(text, 0)|
      {
        var n := EscapeSize(text[i]);
        escapes := escapes + n;
        i := i + 1;
      }
    }

    /** The escaping loop of `print_string_ptr`. */
    method StoreQuoted(at: nat, text: string, ghost done: string)
      requires at == |done| && at + |QuotedFrom(text, 0)| <= buffer.Length && buffer[..at] == done
      modifies buffer
      ensures buffer[..at + |QuotedFrom(text, 0)|] == done + QuotedFrom(text, 0)
    {
      var i, to := 0, at;
      ghost var cur := done;
      while i < |text|
        invariant i <= |text| && to == |cur| && to + |QuotedFrom(text, i)| <= buffer.Length && buffer[..to] == cur
        invariant cur + QuotedFrom(text, i) == done + QuotedFrom(text, 0)
      {
        var q := EscapeChar(text[i]);
        QuotedStep(cur, q, QuotedFrom(text, i + 1));
        Store(to, q, cur);
        to, cur := to + |q|, cur + q;
        i := i + 1;
      }
    }

    /** `print_string_ptr`. */
    method PrintString(text: string, ghost done: string) returns (ok: bool)
      requires Before(done)
      modifies this`buffer, this`overread, buffer
      ensures Grown() == true
      ensures ok <==> |done| + |Quote(text)| + 1 < Room()
      ensures ok ==> Written(done + Quote(text)) == true
    {
      var escapes := QuotedLength(text);
      ok := Ensure(|text| + escapes + 3, done);
      if !ok {
        return;
      }
      if escapes == 0 {
        NothingQuoted(text, 0);
        Finish(offset, ['"'] + text[0..] + ['"'], done);
        return;
      }
      Store(offset, ['"'], done);
      StoreQuoted(offset + 1, text, done + ['"']);
      Finish(offset + 1 + |text| + escapes, ['"'], done + ['"'] + QuotedFrom(text, 0));
      QuotedStep3(done, ['"'], QuotedFrom(text, 0), ['"']);
    }

    /** `print_number`. */
    method PrintNumber(d: real, ghost done: string) returns (ok: bool)
      requires Before(done)
      modifies this`buffer, this`overread, this`offset, buffer
      ensures Grown() == true
      ensures ok <==> |libc.sprintf(d)| <= 25 && |done| + |libc.sprintf(d)| + 1 < Room()
      ensures ok ==> Written(done + libc.sprintf(d)) && |done| <= offset
    {
      var text := libc.sprintf(d);
      if |text| > 25 {
        return false;
      }
      ok := Copy(text, done);
      if ok {
        offset := offset + |text|;
      }
    }

    /** `print_value`: on success exactly the rendered text and a terminator follow what was there,
        the offset is somewhere in between, and there is success whenever the text and two more
        bytes fit. */
    method PrintValue(j: Json, ghost done: string) returns (ok: bool)
      requires Before(done) == true && CStrings(j, libc) == true
      modifies this, buffer
      ensures Grown() == true
      ensures ok ==> Printable(j, libc) == true && depth == old(depth) && |done| <= offset
      ensures ok ==> Written(done + Render(j, depth, format, libc)) == true
      ensures Printable(j, libc) && |done| + |Render(j, old(depth), format, libc)| + 1 < Room() ==> ok
      decreases j, 0
    {
      match j {
        case Null => ok := Copy("null", done);
        case False => ok := Copy("false", done);
        case True => ok := Copy("true", done);
        case Number(_, d) => ok := PrintNumber(d, done);
        case Raw(t) => ok := Copy(t, done);
        case Str(t) => ok := PrintString(t, done);
        case Array(items) => ok := PrintArray(items, done);
        case Object(ms) => ok := PrintObject(ms, done);
        case Invalid => ok := false;
      }
    }

    /** One element of `print_array` and the separator after it. */
    method PrintItem(j: Json, last: bool, ghost done: string) returns (ok: bool)
      requires Before(done) == true && CStrings(j, libc) == true
      modifies this, buffer
      ensures Grown() == true
      ensures ok ==> Printable(j, libc) == true && depth == old(depth)
      ensures ok ==> Before(done + Render(j, depth, format, libc) + Comma(last, format)) == true
      ensures Printable(j, libc) ==>
        |done| + |Render(j, old(depth), format, libc)| + |Comma(last, format)| + 1 < Room() ==> ok
      decreases j, 1
    {
      ok := PrintValue(j, done);
      if !ok {
        return;
      }
      ghost var text := done + Render(j, depth, format, libc);
      RenderNoNul(j, depth, format, libc);
      UpdateOffset(text);
      if !last {
        ok := Emit(if format then [',', ' '] else [','], 1, true, text);
      } else {
        assert text + [] == text;
      }
    }

    /** The loop of `print_array`. */
    method PrintItems(items: seq<Json>, ghost done: string) returns (ok: bool)
      requires Before(done) == true && CStrings(Array(items), libc) == true
      modifies this, buffer
      ensures Grown() == true
      ensures ok ==> Printable(Array(items), libc) == true && depth == old(depth)
      ensures ok ==> Before(done + RenderItems(items, 0, depth, format, libc)) == true
      ensures Printable(Array(items), libc) ==>
        |done| + |RenderItems(items, 0, old(depth), format, libc)| + 1 < Room() ==> ok
      decreases items, 2
    {
      ghost var rest := RenderItems(items, 0, depth, format, libc);
      ghost var cur, all := done, done + rest;
      var i := 0;
      ok := true;
      while i < |items|
        invariant i <= |items| && depth == old(depth) && Grown() == true && ok
        invariant Before(cur) == true && cur + rest == all && rest == RenderItems(items, i, depth, format, libc)
        invariant forall x :: 0 <= x < i ==> Printable(items[x], libc) == true
      {
        var j, last := items[i], i + 1 == |items|;
        ghost var text;
        text, rest := ItemsNext(cur, rest, items, i, j, last, depth, format, libc, all);
        ok := PrintItem(j, last, cur);
        if !ok {
          assert !Printable(j, libc) || |all| + 1 >= Room();
          return;
        }
        cur := cur + text + Comma(last, format);
        i := i + 1;
      }
      assert cur + [] == cur;
    }

    /** `print_array`. */
    method PrintArray(items: seq<Json>, ghost done: string) returns (ok: bool)
      requires Before(done) == true && CStrings(Array(items), libc) == true
      modifies this, buffer
      ensures Grown() == true
      ensures ok ==> Printable(Array(items), libc) == true && depth == old(depth) && |done| <= offset
      ensures ok ==> Written(done + Render(Array(items), depth, format, libc)) == true
      ensures Printable(Array(items), libc) ==>
        |done| + |Render(Array(items), old(depth), format, libc)| + 1 < Room() ==> ok
      decreases items, 3
    {
      ok := Emit(['['], 0, false, done);
      if !ok {
        return;
      }
      depth := depth + 1;
      ghost var body := RenderItems(items, 0, depth, format, libc);
      ok := PrintItems(items, done + ['[']);
      if !ok {
        return;
      }
      ok := Copy([']'], done + ['['] + body);
      depth := depth - 1;
      QuotedStep3(done, ['['], body, [']']);
    }

    /** The tabs, key and colon of a member. */
    method PrintKey(key: string, ghost done: string) returns (ok: bool)
      requires Before(done) && NoNul(key)
      modifies this`buffer, this`overread, this`offset, buffer
      ensures Grown() == true
      ensures ok ==> Before(done + KeyText(key, depth, format)) == true
      ensures |done| + |KeyText(key, depth, format)| + 1 < Room() ==> ok
    {
      ghost var tabs := if format then Tabs(depth) else [];
      if format {
        ok := Emit(Tabs(depth), 0, false, done);
        if !ok {
          return;
        }
      }
      assert !format ==> done + tabs == done;
      ok := PrintString(key, done + tabs);
      if !ok {
        return;
      }
      QuoteNoNul(key);
      UpdateOffset(done + tabs + Quote(key));
      ok := Emit(if format then [':', '\t'] else [':'], 0, false, done + tabs + Quote(key));
      QuotedStep3(done, tabs, Quote(key), if format then [':', '\t'] else [':']);
    }

    /** One member of `print_object`: key, colon, value and what follows it. */
    method PrintMember(m: Member, last: bool, ghost done: string) returns (ok: bool)
      requires Before(done) && NoNul(m.key) && CStrings(m.value, libc) == true
      modifies this, buffer
      ensures Grown() == true
      ensures ok ==> Printable(m.value, libc) == true && depth == old(depth)
      ensures ok ==> Before(done + RenderMember(m, last, depth, format, libc)) == true
      ensures Printable(m.value, libc) && |done| + |RenderMember(m, last, old(depth), format, libc)| + 1 < Room() ==> ok
      decreases m.value, 1
    {
      ghost var key, value := KeyText(m.key, depth, format), Render(m.value, depth, format, libc);
      ok := PrintKey(m.key, done);
      if !ok {
        return;
      }
      ok := PrintValue(m.value, done + key);
      if !ok {
        return;
      }
      RenderNoNul(m.value, depth, format, libc);
      UpdateOffset(done + key + value);
      var end := (if last then [] else [',']) + if format then ['\n'] else [];
      ok := Emit(end, 1, true, done + key + value);
      QuotedStep3(done, key, value, LineEnd(last, format));
    }

    /** One turn of the loop of `print_object`. */
    method PrintMemberAt(ms: seq<Member>, i: nat, ghost cur: string, ghost rest: string, ghost all: string)
      returns (ok: bool, ghost cur': string, ghost rest': string)
      requires Before(cur) == true && CStrings(Object(ms), libc) == true && i < |ms| && cur + rest == all
      requires rest == RenderMembers(ms, i, depth, format, libc)
      modifies this, buffer
      ensures Grown() == true
      ensures ok ==>
        Printable(ms[i].value, libc) == true && depth == old(depth) && Before(cur') == true && cur' + rest' == all
      ensures ok ==> rest' == RenderMembers(ms, i + 1, depth, format, libc)
      ensures Printable(ms[i].value, libc) && |all| + 1 < Room() ==> ok
      decreases ms, 1
    {
      var m, last := ms[i], i + 1 == |ms|;
      ghost var text;
      text, rest' := MembersNext(cur, rest, ms, i, m, last, depth, format, libc, all);
      ok := PrintMember(m, last, cur);
      cur' := cur + text;
    }

    /** The loop of `print_object`. */
    method PrintMembers(ms: seq<Member>, ghost done: string) returns (ok: bool)
      requires Before(done) == true && CStrings(Object(ms), libc) == true
      modifies this, buffer
      ensures Grown() == true
      ensures ok ==> Printable(Object(ms), libc) == true && depth == old(depth)
      ensures ok ==> Before(done + RenderMembers(ms, 0, depth, format, libc)) == true
      ensures Printable(Object(ms), libc) && |done| + |RenderMembers(ms, 0, old(depth), format, libc)| + 1 < Room() ==>
        ok
      decreases ms, 2
    {
      ghost var rest := RenderMembers(ms, 0, depth, format, libc);
      ghost var cur, all := done, done + rest;
      var i := 0;
      ok := true;
      while i < |ms|
        invariant i <= |ms| && depth == old(depth) && Grown() == true && ok
        invariant Before(cur) == true && cur + rest == all && rest == RenderMembers(ms, i, depth, format, libc)
        invariant AllPrintable(ms, i, libc) == true
      {
        ok, cur, rest := PrintMemberAt(ms, i, cur, rest, all);
        if !ok {
          return;
        }
        MorePrintable(ms, i, libc);
        i := i + 1;
      }
      MorePrintable(ms, |ms|, libc);
      assert cur + [] == cur;
    }

    /** `print_object`. */
    method PrintObject(ms: seq<Member>, ghost done: string) returns (ok: bool)
      requires Before(done) == true && CStrings(Object(ms), libc) == true
      modifies this, buffer
      ensures Grown() == true
      ensures ok ==> Printable(Object(ms), libc) == true && depth == old(depth) && |done| <= offset
      ensures ok ==> Written(done + Render(Object(ms), depth, format, libc)) == true
      ensures Printable(Object(ms), libc) && |done| + |Render(Object(ms), old(depth), format, libc)| + 1 < Room() ==> ok
      decreases ms, 3
    {
      var open := ['{'] + if format then ['\n'] else [];
      ghost var level := depth;
      ghost var body := ObjectWhole(done, ms, level, format, libc);
      ok := Emit(open, 1, false, done);
      if !ok {
        return;
      }
      depth := depth + 1;
      ok := PrintMembers(ms, done + open);
      if !ok {
        return;
      }
      var close := (if format then Tabs(depth - 1) else []) + ['}'];
      ok := Copy(close, done + open + body);
      depth := depth - 1;
    }
  }

  /** What separates two items. */
  function Comma(last: bool, format: bool): string {
    if last then [] else if format then [',', ' '] else [',']
  }

  /** The parts of the text of an object. */
  lemma {:induction false} ObjectWhole(done: string, ms: seq<Member>, level: nat, format: bool, c: Libc)
    returns (body: string)
    ensures body == RenderMembers(ms, 0, level + 1, format, c)
    ensures var open, close := ['{'] + (if format then ['\n'] else []), (if format then Tabs(level) else []) + ['}'];
      && done + open + body + close == done + Render(Object(ms), level, format, c)
      && |open| + |body| + |close| == |Render(Object(ms), level, format, c)|
  {
    body := RenderMembers(ms, 0, level + 1, format, c);
    var line, tabs := if format then ['\n'] else [], if format then Tabs(level) else [];
    assert done + (['{'] + line) + body + (tabs + ['}']) == done + (['{'] + line + body + tabs + ['}']);
  }

  /** One more member. */
  lemma {:induction false} MembersNext(cur: string, rest: string, ms: seq<Member>, i: nat, m: Member, last: bool,
      depth: nat, format: bool, c: Libc, all: string)
    returns (text: string, rest': string)
    requires i < |ms| && m == ms[i] && last == (i + 1 == |ms|) && cur + rest == all
    requires rest == RenderMembers(ms, i, depth, format, c)
    ensures text == RenderMember(m, last, depth, format, c) && rest' == RenderMembers(ms, i + 1, depth, format, c)
    ensures cur + text + rest' == all && |cur| + |text| <= |all|
  {
    text, rest' := RenderMember(m, last, depth, format, c), RenderMembers(ms, i + 1, depth, format, c);
    QuotedStep(cur, text, rest');
  }

  lemma {:induction false} QuotedStep(done: string, q: string, rest: string)
    ensures done + (q + rest) == done + q + rest
  {
  }

  lemma {:induction false} QuotedStep3(done: string, a: string, b: string, c: string)
    ensures done + a + b + c == done + (a + b + c)
  {
  }

  /** A string as long as its escaped form needs no escapes. */
  lemma {:induction false} NothingQuoted(text: string, k: nat)
    requires k <= |text| && |QuotedFrom(text, k)| <= |text| - k
    ensures QuotedFrom(text, k) == text[k..]
    decreases |text| - k
  {
    if k < |text| {
      QuotedLonger(text, k + 1);
      NothingQuoted(text, k + 1);
      assert Quoted(text[k]) == [text[k]];
    }
  }

  lemma {:induction false} QuotedLonger(text: string, k: nat)
    requires k <= |text|
    ensures |QuotedFrom(text, k)| >= |text| - k
    decreases |text| - k
  {
    if k < |text| {
      QuotedLonger(text, k + 1);
    }
  }

  /** One more item. */
  lemma {:induction false} ItemsNext(cur: string, rest: string, items: seq<Json>, i: nat, j: Json, last: bool,
      depth: nat, format: bool, c: Libc, all: string)
    returns (text: string, rest': string)
    requires i < |items| && j == items[i] && last == (i + 1 == |items|) && cur + rest == all
    requires rest == RenderItems(items, i, depth, format, c)
    ensures text == Render(j, depth, format, c) && rest' == RenderItems(items, i + 1, depth, format, c)
    ensures cur + text + Comma(last, format) + rest' == all && |cur| + |text| + |Comma(last, format)| <= |all|
  {
    text, rest' := Render(j, depth, format, c), RenderItems(items, i + 1, depth, format, c);
    QuotedStep3(cur, text, Comma(last, format), rest');
  }

  /** `print`, `cJSON_PrintBuffered` and `cJSON_PrintPreallocated` on a buffer of any starting size:
      exactly the rendered text and its terminator, or nothing. Nothing only if something cannot be
      printed or the text and two more bytes do not fit. A successful print reads past the end of its
      buffer exactly when that is empty at first and there is no `realloc`. */
  method Print(j: Json, size: nat, noalloc: bool, format: bool, reallocates: bool, libc: Libc)
    returns (r: Option<string>, overread: bool)
    requires size <= INT_MAX && CStrings(j, libc)
    ensures r.Some? ==> Printable(j, libc) && r.value == Render(j, 0, format, libc) + ['\0']
    ensures Printable(j, libc) && |Render(j, 0, format, libc)| + 2 <= (if noalloc then size else INT_MAX) ==> r.Some?
    ensures r.Some? ==> (overread <==> size == 0 && !reallocates)
  {
    var p := new PrintBuffer(size, noalloc, format, reallocates, libc);
    ghost var text := Render(j, 0, format, libc);
    var ok := p.PrintValue(j, "");
    overread := p.overread;
    if !ok {
      return None, overread;
    }
    assert "" + text == text;
    RenderNoNul(j, 0, format, libc);
    p.UpdateOffset(text);
    assert p.buffer[p.offset] == '\0';
    r := Some(p.buffer[..p.offset + 1]);
    assert r.value == p.buffer[..p.offset] + [p.buffer[p.offset]];
  }
}
