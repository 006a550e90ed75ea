/** What may stand around a document (apps/cjson/cJSON.c:1034-1130): a byte order mark and blanks before it, and
    behind it anything, or only blanks if the caller insists on the end. */
module JsonAround {
  import opened Basics
  import opened Json
  import opened JsonText
  import opened JsonRoundTrip

  predicate Blanks(t: string) {
    forall k :: 0 <= k < |t| ==> t[k] <= ' ' && t[k] != '\0'
  }

  const MARK: string := [0xEF as char, 0xBB as char, 0xBF as char]

  lemma {:induction false} SkipsBlanks(s: string, i: nat)
    requires i < |s| && forall k :: i <= k < |s| - 1 ==> s[k] <= ' '
    ensures Skip(s, i) == |s| - 1
    decreases |s| - i
  {
    if i < |s| - 1 {
      SkipsBlanks(s, i + 1);
    }
  }

  /** Skipping goes to the first character above the space. */
  lemma {:induction false} SkipsTo(s: string, i: nat)
    requires i < |s|
    ensures var r := Skip(s, i);
      && i <= r < |s| && (r < |s| - 1 ==> s[r] > ' ') && forall k :: i <= k < r ==> s[k] <= ' '
    decreases |s| - i
  {
    if s[i] <= ' ' && i < |s| - 1 {
      SkipsTo(s, i + 1);
    }
  }

  /** The value of a document that stands somewhere in a text. */
  lemma {:induction false} ValueAt(s: string, p: nat, j: Json, format: bool, c: Libc, after: string)
    requires Terminated(s) && Readable(j, c) == true && Occurs(s, p, Render(j, 0, format, c))
    requires p + |Render(j, 0, format, c)| + |after| + 1 == |s|
    requires Occurs(s, p + |Render(j, 0, format, c)|, after) && (after == "" || !Numeric(after[0]))
    ensures p < |s| && s[p] > ' '
    ensures PValue(s, p, 0, c) == Expected(Depth(j) <= NESTING_LIMIT, j, p + |Render(j, 0, format, c)|)
  {
    var e := p + |Render(j, 0, format, c)|;
    StartsAbove(s, p, j, 0, format, c);
    if after != "" {
      assert s[e + 0] == after[0];
    } else {
      assert s[e] == '\0';
    }
    ValueBack(s, p, j, 0, format, c, 0);
  }

  /** A text that holds a document: a mark or none, blanks, the document and something behind it. */
  ghost predicate Holds(text: string, mark: string, before: string, doc: string, after: string) {
    && (mark == "" || mark == MARK) && Blanks(before) && NoNul(after) && (after == "" || !Numeric(after[0]))
    && text == mark + before + doc + after
  }

  /** The texts that hold a document: what comes before it is skipped. What comes behind it is refused exactly if it is
      not blank and the caller insists; the position returned is behind the document, or at the end. */
  lemma {:induction false} AnythingAround(text: string, mark: string, before: string, j: Json, format: bool,
      after: string, whole: bool, c: Libc)
    requires Readable(j, c) == true && Holds(text, mark, before, Render(j, 0, format, c), after) == true
    ensures ParsedTo(text, whole, c, j, |mark| + |before| + |Render(j, 0, format, c)|, after) == true
  {
    var doc := DocumentText(j, format, c);
    var s := text + ['\0'];
    Assembled(text, mark, before, doc, after, s);
    var p, e := |mark| + |before|, |mark| + |before| + |Render(j, 0, format, c)|;
    ParsedAround(s, text, p, e, j, format, doc, after, whole, c);
  }

  /** What parsing such a text gives: nothing if the document is nested too deep, or if the caller insists on the end
      and something that is not blank follows; otherwise the document, and where it ends or the text does. */
  ghost predicate ParsedTo(text: string, whole: bool, c: Libc, j: Json, e: nat, after: string) {
    && Terminated(text + ['\0'])
    && ParseText(text, whole, c) == if Depth(j) > 1000 || (whole && !Blanks(after)) then None
      else Some((j, if whole then |text| else e))
  }

  lemma {:induction false} DocumentText(j: Json, format: bool, c: Libc) returns (doc: string)
    requires Readable(j, c) == true
    ensures doc == Render(j, 0, format, c) && NoNul(doc) == true && doc != "" && ' ' < doc[0] < 0x7F as char
  {
    doc := Render(j, 0, format, c);
    ReadableCStrings(j, c);
    RenderNoNul(j, 0, format, c);
    FirstChar(j, 0, format, c);
  }

  /** The document stands at `p` in the text `s` and its terminator, with something behind it. */
  ghost predicate Stands(s: string, text: string, p: nat, doc: string, after: string) {
    && s == text + ['\0'] && Terminated(s) && AfterMark(s) < |s| && Skip(s, AfterMark(s)) == p
    && Occurs(s, p, doc) && Occurs(s, p + |doc|, after) && p + |doc| + |after| + 1 == |s| && NoNul(after)
    && (after == "" || !Numeric(after[0]))
  }

  lemma {:induction false} ParsedAround(s: string, text: string, p: nat, e: nat, j: Json, format: bool, doc: string,
      after: string, whole: bool, c: Libc)
    requires Readable(j, c) == true && doc == Render(j, 0, format, c) && doc != ""
    requires Stands(s, text, p, doc, after) == true
    requires e == p + |doc|
    ensures ParsedTo(text, whole, c, j, e, after) == true
  {
    ValueAt(s, p, j, format, c, after);
    TailSkipped(s, p + |doc|, after);
    ParsedAs(text, s, p, p + |doc|, j, Depth(j) <= NESTING_LIMIT, whole, c);
  }

  lemma {:induction false} Assembled(text: string, mark: string, before: string, doc: string, after: string, s: string)
    requires Holds(text, mark, before, doc, after) == true && s == text + ['\0']
    requires NoNul(doc) && doc != "" && ' ' < doc[0] < 0x7F as char
    ensures Stands(s, text, |mark| + |before|, doc, after) == true
  {
    var p := |mark| + |before|;
    assert NoNul(mark) && NoNul(before);
    NoNulAppend(mark, before);
    NoNulAppend(mark + before, doc);
    NoNulAppend(mark + before + doc, after);
    Pieces(s, mark + before, doc, after);
    MarkSeen(s, mark, before, doc);
    assert s[p] == doc[0];
    forall x | |mark| <= x < p ensures s[x] <= ' ' {
      assert s[x] == before[x - |mark|];
    }
    SkipTo(s, |mark|, p);
  }

  lemma {:induction false} ParsedAs(text: string, s: string, p: nat, e: nat, j: Json, fits: bool, whole: bool, c: Libc)
    requires s == text + ['\0'] && Terminated(s) && p < e < |s| && Skip(s, AfterMark(s)) == p
    requires PValue(s, p, 0, c) == Expected(fits, j, e) && (s[Skip(s, e)] == '\0' ==> Skip(s, e) == |text|)
    ensures ParseText(text, whole, c)
        == if !fits || (whole && s[Skip(s, e)] != '\0') then None else Some((j, if whole then |text| else e))
  {
  }

  lemma {:induction false} Pieces(s: string, front: string, doc: string, after: string)
    requires s == front + doc + after + ['\0']
    ensures Occurs(s, |front|, doc) && Occurs(s, |front| + |doc|, after)
  {
  }

  lemma {:induction false} MarkSeen(s: string, mark: string, before: string, doc: string)
    requires (mark == "" || mark == MARK) && Blanks(before) && doc != "" && doc[0] < 0x7F as char
    requires |mark| + |before| + |doc| < |s| && s[..|mark| + |before| + |doc|] == mark + before + doc
    ensures AfterMark(s) == |mark|
  {
    var t := mark + before + doc;
    assert forall k :: 0 <= k < |t| ==> s[k] == s[..|t|][k];
    if mark != "" {
      assert t[0] == MARK[0] && t[1] == MARK[1] && t[2] == MARK[2];
    } else if before != "" {
      assert t[0] == before[0];
    } else {
      assert t[0] == doc[0];
    }
  }

  lemma {:induction false} TailSkipped(s: string, e: nat, after: string)
    requires Terminated(s) && e + |after| + 1 == |s| && Occurs(s, e, after) && NoNul(after)
    ensures s[Skip(s, e)] == '\0' <==> Blanks(after)
    ensures Blanks(after) ==> Skip(s, e) == |s| - 1
  {
    SkipsTo(s, e);
    if Blanks(after) {
      forall k | e <= k < |s| - 1 ensures s[k] <= ' ' {
        assert s[e + (k - e)] == after[k - e];
      }
      SkipsBlanks(s, e);
    } else {
      var k :| 0 <= k < |after| && !(after[k] <= ' ' && after[k] != '\0');
      assert s[e + k] == after[k];
    }
  }
}
