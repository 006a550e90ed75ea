/** What string literals stand for (apps/cjson/cJSON.c:611-873): the UTF-8 bytes of a code point, `\u` literals and
    surrogate pairs in either case of hexadecimal digits, and the short escapes. */
module JsonStringLaws {
  import opened Basics
  import opened Json
  import opened JsonText
  import opened JsonRoundTrip

  // ----- UTF-8 -----

  /** The number of bytes that a lead byte announces; 0 for a byte that leads nothing. */
  function Announced(b: int): nat {
    if 0 <= b < 0x80 then 1
    else if 0xC0 <= b < 0xE0 then 2
    else if 0xE0 <= b < 0xF0 then 3
    else if 0xF0 <= b < 0xF8 then 4
    else 0
  }

  /** The bits of a lead byte that belong to the code point. */
  function LeadBits(b: int): int {
    if b < 0x80 then b else if b < 0xE0 then b - 0xC0 else if b < 0xF0 then b - 0xE0 else b - 0xF0
  }

  predicate Continues(b: int) {
    0x80 <= b < 0xC0
  }

  /** A UTF-8 reader: the code point of the sequence that is all of `s`. */
  function CodePoint(s: string): Option<int> {
    if |s| == 0 || Announced(s[0] as int) != |s| || exists k :: 1 <= k < |s| && !Continues(s[k] as int) then None
    else Some(Gathered(s, |s|))
  }

  /** The lead bits and six bits of every byte after it, up to byte `n`. */
  function Gathered(s: string, n: nat): int
    requires 0 < n <= |s|
  {
    if n == 1 then LeadBits(s[0] as int) else Gathered(s, n - 1) * 0x40 + (s[n - 1] as int - 0x80)
  }

  /** The fewest bytes that a code point fits into: 7 bits, then 5, 4 and 3 bits and six for every further byte. */
  function Shortest(cp: int): nat {
    if cp < 0x80 then 1 else if cp < 0x20 * 0x40 then 2 else if cp < 0x10 * 0x40 * 0x40 then 3 else 4
  }

  /** The bytes written for a code point are read back as it, and there are no fewer that would be. */
  lemma {:induction false} Utf8ReadBack(cp: nat)
    requires cp <= 0x10FFFF
    ensures CodePoint(Utf8(cp)) == Some(cp) && |Utf8(cp)| == Shortest(cp)
    ensures forall s :: CodePoint(s) == Some(cp) ==> |Utf8(cp)| <= |s|
  {
    Utf8Bits(cp);
    forall t | CodePoint(t) == Some(cp) ensures |Utf8(cp)| <= |t| {
      FitsInto(t, cp);
    }
  }

  lemma {:induction false} Utf8Bits(cp: nat)
    requires cp <= 0x10FFFF
    ensures CodePoint(Utf8(cp)) == Some(cp) && |Utf8(cp)| == Shortest(cp)
  {
    var s := Utf8(cp);
    var a, b, c := cp / 0x40, cp / 0x1000, cp / 0x40000;
    assert cp == a * 0x40 + cp % 0x40 && a == b * 0x40 + a % 0x40 && b == c * 0x40 + b % 0x40;
    assert b == a / 0x40 && c == b / 0x40;
    if cp >= 0x80 {
      assert Gathered(s, 1) == LeadBits(s[0] as int);
      assert Gathered(s, 2) == Gathered(s, 1) * 0x40 + (s[1] as int - 0x80);
      if cp >= 0x800 {
        assert Gathered(s, 3) == Gathered(s, 2) * 0x40 + (s[2] as int - 0x80);
      }
    }
  }

  /** A sequence of `n` bytes spells no more than its bits can hold. */
  lemma {:induction false} FitsInto(t: string, cp: int)
    requires CodePoint(t) == Some(cp)
    ensures Shortest(cp) <= |t|
  {
    assert |t| >= 2 ==> Gathered(t, 2) == Gathered(t, 1) * 0x40 + (t[1] as int - 0x80) && Continues(t[1] as int);
    assert |t| >= 3 ==> Gathered(t, 3) == Gathered(t, 2) * 0x40 + (t[2] as int - 0x80) && Continues(t[2] as int);
  }

  // ----- the ways to write a character -----

  /** `c` is a hexadecimal digit of value `v`, in either case. */
  predicate IsHex(c: char, v: int) {
    (0 <= v < 10 && c as int == 0x30 + v) || (10 <= v < 16 && (c as int == 0x41 + v - 10 || c as int == 0x61 + v - 10))
  }

  /** `t` is a `\u` literal of the 16-bit unit `u`. */
  predicate UnitText(t: string, u: int) {
    && 0 <= u < 0x10000 && |t| == 6 && t[0] == '\\' && t[1] == 'u' && IsHex(t[2], u / 0x1000)
    && IsHex(t[3], u / 0x100 % 0x10) && IsHex(t[4], u / 0x10 % 0x10) && IsHex(t[5], u % 0x10)
  }

  predicate Surrogate(u: int) {
    0xD800 <= u < 0xE000
  }

  /** `t` is the literal of a code point: one unit, or the two surrogates of one from 0x10000 on. */
  predicate PointText(t: string, cp: int) {
    if cp < 0x10000 then UnitText(t, cp) && !Surrogate(cp)
    else
      && cp <= 0x10FFFF && |t| == 12 && UnitText(t[..6], 0xD800 + (cp - 0x10000) / 0x400)
      && UnitText(t[6..], 0xDC00 + (cp - 0x10000) % 0x400)
  }

  /** A piece of a string literal: a byte as it is, a short escape, or the literal of a code point. */
  datatype Piece = AsIs(c: char) | Short(letter: char, c: char) | Point(t: string, cp: nat)

  const LETTERS: string := ['b', 'f', 'n', 'r', 't', '"', '\\', '/']
  const MEANINGS: string := [8 as char, 12 as char, 10 as char, 13 as char, 9 as char, '"', '\\', '/']

  predicate Proper(p: Piece) {
    match p
    case AsIs(c) => c != '"' && c != '\\' && c != '\0'
    case Short(letter, c) => exists k :: 0 <= k < 8 && letter == LETTERS[k] && c == MEANINGS[k]
    case Point(t, cp) => PointText(t, cp)
  }

  /** The literal of NUL. */
  predicate IsNul(p: Piece) {
    p.Point? && p.cp == 0
  }

  function PieceText(p: Piece): string {
    match p
    case AsIs(c) => [c]
    case Short(letter, _) => ['\\', letter]
    case Point(t, _) => t
  }

  function PieceBytes(p: Piece): string
    requires Proper(p)
  {
    match p
    case AsIs(c) => [c]
    case Short(_, c) => [c]
    case Point(_, cp) => Utf8(cp)
  }

  lemma {:induction false} HexRead(c: char, v: int)
    requires IsHex(c, v)
    ensures HexValue(c) == Some(v) && c != '"' && c != '\\' && c != '\0'
  {
  }

  lemma {:induction false} UnitRead(s: string, p: nat, t: string, u: int)
    requires Occurs(s, p, t) && UnitText(t, u)
    ensures p + 6 <= |s| && s[p] == '\\' && s[p + 1] == 'u' && Hex4(s, p + 2) == u
    ensures ScanQuote(s, p) == ScanQuote(s, p + 6) && NoNul(t)
  {
    assert s[p + 0] == t[0] && s[p + 1] == t[1] && s[p + 2] == t[2] && s[p + 3] == t[3] && s[p + 4] == t[4]
        && s[p + 5] == t[5];
    HexRead(t[2], u / 0x1000);
    HexRead(t[3], u / 0x100 % 0x10);
    HexRead(t[4], u / 0x10 % 0x10);
    HexRead(t[5], u % 0x10);
    Nibbles(u);
    assert ScanQuote(s, p) == ScanQuote(s, p + 2) == ScanQuote(s, p + 3);
    assert ScanQuote(s, p + 3) == ScanQuote(s, p + 4) == ScanQuote(s, p + 5);
  }

  lemma {:induction false} Nibbles(u: int)
    requires 0 <= u < 0x10000
    ensures ((u / 0x1000 * 16 + u / 0x100 % 0x10) * 16 + u / 0x10 % 0x10) * 16 + u % 0x10 == u
  {
    var a, b := u / 0x10, u / 0x100;
    assert u == a * 0x10 + u % 0x10 && a == b * 0x10 + a % 0x10 && b == u / 0x1000 * 0x10 + b % 0x10;
  }

  /** The two surrogates of a code point, put together again. */
  lemma {:induction false} PairRead(cp: int)
    requires 0x10000 <= cp <= 0x10FFFF
    ensures var hi, lo := 0xD800 + (cp - 0x10000) / 0x400, 0xDC00 + (cp - 0x10000) % 0x400;
      0xD800 <= hi <= 0xDBFF && 0xDC00 <= lo <= 0xDFFF && 0x10000 + hi % 0x400 * 0x400 + lo % 0x400 == cp
  {
    var x := cp - 0x10000;
    assert x == x / 0x400 * 0x400 + x % 0x400;
    assert (0xD800 + x / 0x400) % 0x400 == x / 0x400 && (0xDC00 + x % 0x400) % 0x400 == x % 0x400;
  }

  /** Two units in a row. */
  lemma {:induction false} UnitsRead(s: string, p: nat, t: string, u: int, v: int)
    requires Occurs(s, p, t) && |t| == 12 && UnitText(t[..6], u) == true && UnitText(t[6..], v) == true
    ensures p + 12 <= |s| && Units(s, p, u, v) == true && ScanQuote(s, p) == ScanQuote(s, p + 12) && NoNul(t)
  {
    var a, b := t[..6], t[6..];
    assert t == a + b;
    Split(s, p, a, b);
    UnitRead(s, p, a, u);
    UnitRead(s, p + 6, b, v);
    NoNulAppend(a, b);
  }

  ghost predicate Units(s: string, p: nat, u: int, v: int)
    requires p + 12 <= |s|
  {
    && s[p] == '\\' && s[p + 1] == 'u' && Hex4(s, p + 2) == u
    && s[p + 6] == '\\' && s[p + 7] == 'u' && Hex4(s, p + 8) == v
  }

  lemma {:induction false} PairAt(s: string, p: nat, u: int, v: int, end: nat)
    requires p + 12 <= end < |s| && Units(s, p, u, v) && 0xD800 <= u < 0xDC00
    ensures DecodeOne(s, p, end)
        == if 0xDC00 <= v < 0xE000 then Some((Utf8(0x10000 + u % 0x400 * 0x400 + v % 0x400), 12)) else None
  {
  }

  /** Both passes over the literal of a code point. */
  lemma {:induction false} PointRead(s: string, p: nat, t: string, cp: nat, end: nat)
    requires Occurs(s, p, t) && PointText(t, cp) && p + |t| <= end < |s|
    ensures DecodeOne(s, p, end) == Some((Utf8(cp), |t|)) && ScanQuote(s, p) == ScanQuote(s, p + |t|) && NoNul(t)
  {
    if cp < 0x10000 {
      UnitRead(s, p, t, cp);
    } else {
      var u, v := 0xD800 + (cp - 0x10000) / 0x400, 0xDC00 + (cp - 0x10000) % 0x400;
      UnitsRead(s, p, t, u, v);
      PairRead(cp);
      PairAt(s, p, u, v, end);
    }
  }

  lemma {:induction false} PieceRead(s: string, p: nat, piece: Piece, end: nat)
    requires Proper(piece) && Occurs(s, p, PieceText(piece)) && p + |PieceText(piece)| <= end < |s|
    ensures var t := PieceText(piece);
      |t| > 0 && DecodeOne(s, p, end) == Some((PieceBytes(piece), |t|)) && ScanQuote(s, p) == ScanQuote(s, p + |t|)
    ensures NoNul(PieceText(piece)) && (!IsNul(piece) ==> NoNul(PieceBytes(piece)))
  {
    var t := PieceText(piece);
    match piece {
      case AsIs(c) => assert s[p + 0] == t[0];
      case Short(letter, c) => assert s[p + 0] == t[0] && s[p + 1] == t[1];
      case Point(_, cp) =>
        PointRead(s, p, t, cp, end);
        if cp > 0 {
          PointNoNul(cp);
        }
    }
  }

  lemma {:induction false} PointNoNul(cp: nat)
    requires 0 < cp <= 0x10FFFF
    ensures NoNul(Utf8(cp))
  {
  }

  // ----- whole literals -----

  function TextFrom(pieces: seq<Piece>, k: nat): string
    requires k <= |pieces|
    decreases |pieces| - k
  {
    if k == |pieces| then "" else PieceText(pieces[k]) + TextFrom(pieces, k + 1)
  }

  function BytesFrom(pieces: seq<Piece>, k: nat): string
    requires k <= |pieces| && forall i :: 0 <= i < |pieces| ==> Proper(pieces[i])
    decreases |pieces| - k
  {
    if k == |pieces| then "" else PieceBytes(pieces[k]) + BytesFrom(pieces, k + 1)
  }

  /** One more piece in front of what both passes read. */
  lemma {:induction false} PieceMore(s: string, p: nat, bytes: string, n: nat, end: nat, rest: string)
    requires p < end < |s| && DecodeOne(s, p, end) == Some((bytes, n)) && ScanQuote(s, p) == ScanQuote(s, p + n)
    requires LiteralRead(s, p + n, end, rest) == true
    ensures LiteralRead(s, p, end, bytes + rest) == true
  {
  }

  lemma {:induction false} PiecesRead(s: string, p: nat, pieces: seq<Piece>, k: nat, end: nat)
    requires k <= |pieces| && forall i :: 0 <= i < |pieces| ==> Proper(pieces[i])
    requires Occurs(s, p, TextFrom(pieces, k)) && end == p + |TextFrom(pieces, k)| < |s| && s[end] == '"'
    ensures LiteralRead(s, p, end, BytesFrom(pieces, k)) == true
    decreases |pieces| - k
  {
    if k < |pieces| {
      var t, rest := PieceText(pieces[k]), TextFrom(pieces, k + 1);
      Split(s, p, t, rest);
      PieceRead(s, p, pieces[k], end);
      PiecesRead(s, p + |t|, pieces, k + 1, end);
      PieceMore(s, p, PieceBytes(pieces[k]), |t|, end, BytesFrom(pieces, k + 1));
    }
  }

  lemma {:induction false} PiecesNoNul(pieces: seq<Piece>, k: nat)
    requires k <= |pieces| && forall i :: 0 <= i < |pieces| ==> Proper(pieces[i])
    ensures NoNul(TextFrom(pieces, k))
    ensures (forall i :: k <= i < |pieces| ==> !IsNul(pieces[i])) ==> NoNul(BytesFrom(pieces, k))
    decreases |pieces| - k
  {
    if k < |pieces| {
      var t := PieceText(pieces[k]);
      PieceRead(t + [' '], 0, pieces[k], |t|);
      PiecesNoNul(pieces, k + 1);
      NoNulAppend(t, TextFrom(pieces, k + 1));
      if !IsNul(pieces[k]) && NoNul(BytesFrom(pieces, k + 1)) {
        NoNulAppend(PieceBytes(pieces[k]), BytesFrom(pieces, k + 1));
      }
    }
  }

  /** Every string literal, however its characters are written, is parsed to the bytes that they stand for, up to the
      first NUL. */
  lemma {:induction false} PiecesCut(pieces: seq<Piece>, whole: bool, c: Libc)
    requires forall i :: 0 <= i < |pieces| ==> Proper(pieces[i])
    ensures var text := ['"'] + TextFrom(pieces, 0) + ['"'];
      && Terminated(text + ['\0'])
      && ParseText(text, whole, c) == Some((Str(Cut(BytesFrom(pieces, 0))), |text|))
  {
    var body := TextFrom(pieces, 0);
    var text := ['"'] + body + ['"'];
    var s := text + ['\0'];
    PiecesNoNul(pieces, 0);
    assert Terminated(s);
    Enclosed(s, 0, '"', body, '"');
    PiecesRead(s, 1, pieces, 0, 1 + |body|);
    QuotedWhole(s, text, Cut(BytesFrom(pieces, 0)), whole, c);
  }

  /** Without the literal of NUL that is all of them. */
  lemma {:induction false} PiecesParsed(pieces: seq<Piece>, whole: bool, c: Libc)
    requires forall i :: 0 <= i < |pieces| ==> Proper(pieces[i]) && !IsNul(pieces[i])
    ensures var text := ['"'] + TextFrom(pieces, 0) + ['"'];
      && Terminated(text + ['\0'])
      && ParseText(text, whole, c) == Some((Str(BytesFrom(pieces, 0)), |text|))
  {
    PiecesCut(pieces, whole, c);
    PiecesNoNul(pieces, 0);
    CutWhole(BytesFrom(pieces, 0));
  }

  /** With it, the string ends there. */
  lemma {:induction false} NulEnds(pieces: seq<Piece>, i: nat, whole: bool, c: Libc)
    requires i < |pieces| && (forall k :: 0 <= k < |pieces| ==> Proper(pieces[k])) && IsNul(pieces[i])
    requires forall k :: 0 <= k < i ==> !IsNul(pieces[k])
    ensures var text := ['"'] + TextFrom(pieces, 0) + ['"'];
      && Terminated(text + ['\0'])
      && ParseText(text, whole, c) == Some((Str(BytesFrom(pieces[..i], 0)), |text|))
  {
    PiecesCut(pieces, whole, c);
    BytesSplit(pieces, 0, i);
    var a, b := BytesFrom(pieces[..i], 0), BytesFrom(pieces, i);
    PiecesNoNul(pieces[..i], 0);
    assert b[0] == '\0';
    CutAt(a, b);
  }

  lemma {:induction false} BytesSplit(pieces: seq<Piece>, k: nat, i: nat)
    requires k <= i <= |pieces| && forall n :: 0 <= n < |pieces| ==> Proper(pieces[n])
    ensures BytesFrom(pieces, k) == BytesFrom(pieces[..i], k) + BytesFrom(pieces, i)
    decreases i - k
  {
    if k < i {
      BytesSplit(pieces, k + 1, i);
      assert pieces[..i][k] == pieces[k];
      Associative(PieceBytes(pieces[k]), BytesFrom(pieces[..i], k + 1), BytesFrom(pieces, i));
    }
  }

  lemma {:induction false} CutAt(a: string, b: string)
    requires NoNul(a) && b != "" && b[0] == '\0'
    ensures Cut(a + b) == a
  {
    CStringAt(a, b, 0);
    assert (a + b)[..|a|] == a;
  }

  lemma {:induction false} CStringAt(a: string, b: string, i: nat)
    requires NoNul(a) && b != "" && b[0] == '\0' && i <= |a|
    ensures CString(a + b, i) == |a|
    decreases |a| - i
  {
    if i < |a| {
      assert (a + b)[i] == a[i];
      CStringAt(a, b, i + 1);
    } else {
      assert (a + b)[i] == b[0];
    }
  }

  /** A text that is one string literal. */
  lemma {:induction false} QuotedWhole(s: string, text: string, bytes: string, whole: bool, c: Libc)
    requires s == text + ['\0'] && Terminated(s) && 2 <= |text| && text[0] == '"'
    requires PString(s, 0) == Some((bytes, |text|))
    ensures ParseText(text, whole, c) == Some((Str(bytes), |text|))
  {
    assert s[0] == '"';
    SkipTo(s, 0, 0);
  }

  /** A code point other than 0 and the surrogates, written as a literal in either case, is parsed to a string from
      which a UTF-8 reader gives it back. */
  lemma {:induction false} PointParsed(t: string, cp: nat, whole: bool, c: Libc)
    requires PointText(t, cp) && 0 < cp
    ensures var text := ['"'] + t + ['"'];
      && Terminated(text + ['\0'])
      && ParseText(text, whole, c) == Some((Str(Utf8(cp)), |t| + 2)) && CodePoint(Utf8(cp)) == Some(cp)
  {
    var pieces := [Point(t, cp)];
    assert TextFrom(pieces, 1) == "" && BytesFrom(pieces, 1) == "";
    assert TextFrom(pieces, 0) == t + "" == t && BytesFrom(pieces, 0) == Utf8(cp) + "" == Utf8(cp);
    PiecesParsed(pieces, whole, c);
    Utf8ReadBack(cp);
  }

  // ----- what is refused -----

  /** A literal whose decoding stops at its first character is no string. */
  lemma {:induction false} Refused(body: string, whole: bool, c: Libc)
    requires NoNul(body) && body != ""
    requires var s := ['"'] + body + ['"'] + ['\0'];
      ScanQuote(s, 1) == Some(1 + |body|) && DecodeOne(s, 1, 1 + |body|) == None
    ensures Terminated(['"'] + body + ['"'] + ['\0']) && ParseText(['"'] + body + ['"'], whole, c) == None
  {
    var text := ['"'] + body + ['"'];
    var s := text + ['\0'];
    assert Terminated(s) && s[0] == '"';
    SkipTo(s, 0, 0);
  }

  /** A surrogate by itself is refused. */
  lemma {:induction false} LoneSurrogate(t: string, u: int, whole: bool, c: Libc)
    requires UnitText(t, u) && Surrogate(u)
    ensures Terminated(['"'] + t + ['"'] + ['\0']) && ParseText(['"'] + t + ['"'], whole, c) == None
  {
    var s := ['"'] + t + ['"'] + ['\0'];
    Enclosed(s, 0, '"', t, '"');
    UnitRead(s, 1, t, u);
    Refused(t, whole, c);
  }

  /** So is a high surrogate that no low one follows. */
  lemma {:induction false} BrokenPair(t: string, u: int, v: int, whole: bool, c: Libc)
    requires |t| == 12 && UnitText(t[..6], u) == true && UnitText(t[6..], v) == true
    requires 0xD800 <= u < 0xDC00 && !(0xDC00 <= v < 0xE000)
    ensures Terminated(['"'] + t + ['"'] + ['\0']) && ParseText(['"'] + t + ['"'], whole, c) == None
  {
    var s := ['"'] + t + ['"'] + ['\0'];
    Enclosed(s, 0, '"', t, '"');
    UnitsRead(s, 1, t, u, v);
    PairAt(s, 1, u, v, 13);
    assert ScanQuote(s, 13) == Some(13);
    Refused(t, whole, c);
  }

  /** So is a backslash before any other character. */
  lemma {:induction false} UnknownEscape(letter: char, whole: bool, c: Libc)
    requires letter !in LETTERS && letter != 'u' && letter != '\0'
    ensures Terminated(['"'] + ['\\', letter] + ['"'] + ['\0'])
    ensures ParseText(['"'] + ['\\', letter] + ['"'], whole, c) == None
  {
    var t := ['\\', letter];
    var s := ['"'] + t + ['"'] + ['\0'];
    assert s[1] == '\\' && s[2] == letter && s[3] == '"';
    assert LETTERS[0] == 'b' && LETTERS[1] == 'f' && LETTERS[2] == 'n' && LETTERS[3] == 'r' && LETTERS[4] == 't'
        && LETTERS[5] == '"' && LETTERS[6] == '\\' && LETTERS[7] == '/';
    assert ScanQuote(s, 3) == Some(3);
    Refused(t, whole, c);
  }

  /** A digit that is none makes a literal stand for NUL, which ends the string: "\u00g0" is parsed to the empty
      string. */
  lemma {:induction false} BadDigit(t: string, whole: bool, c: Libc)
    requires |t| == 6 && t[0] == '\\' && t[1] == 'u' && forall k :: 2 <= k < 6 ==> t[k] != '"' && t[k] != '\\'
    requires NoNul(t) && exists k :: 2 <= k < 6 && forall v :: !IsHex(t[k], v)
    ensures Terminated(['"'] + t + ['"'] + ['\0']) && ParseText(['"'] + t + ['"'], whole, c) == Some((Str(""), 8))
  {
    var text := ['"'] + t + ['"'];
    var s := text + ['\0'];
    assert Terminated(s);
    Enclosed(s, 0, '"', t, '"');
    assert s[1 + 0] == t[0] && s[1 + 1] == t[1] && s[1 + 2] == t[2] && s[1 + 3] == t[3] && s[1 + 4] == t[4]
        && s[1 + 5] == t[5];
    var k :| 2 <= k < 6 && forall v :: !IsHex(t[k], v);
    NoValue(t[k]);
    assert Hex4(s, 3) == 0;
    assert DecodeOne(s, 1, 7) == Some((['\0'], 6));
    assert Decode(s, 7, 7) == Some("") && Decode(s, 1, 7) == Some(['\0'] + "");
    assert ScanQuote(s, 1) == ScanQuote(s, 3) == ScanQuote(s, 4) == ScanQuote(s, 5) == ScanQuote(s, 6);
    var nul := ['\0'] + "";
    CutAt("", nul);
    assert "" + nul == nul && Decode(s, 1, 7) == Some(nul);
    assert ScanQuote(s, 7) == Some(7);
    QuotedWhole(s, text, "", whole, c);
  }

  lemma {:induction false} NoValue(c: char)
    requires forall v :: !IsHex(c, v)
    ensures HexValue(c) == None
  {
    assert !IsHex(c, c as int - 0x30) && !IsHex(c, c as int - 0x41 + 10) && !IsHex(c, c as int - 0x61 + 10);
  }
}
