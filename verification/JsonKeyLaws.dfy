/** Comparing keys with and without regard to case, said without folding (apps/cjson/cJSON_Utils.c:83-108, 120-154 and
    apps/cjson/cJSON.c:133-155, 1876-1909): which keys are the same, in what order they come, and what a lookup
    finds. */
module JsonKeyLaws {
  import opened Basics
  import opened Json
  import opened JsonPointer

  /** `x` and `y` are the capital and the small form of the same letter, the one at place `k` of the alphabet. */
  predicate CasesOf(x: char, y: char, k: int) {
    0 <= k < 26 && x as int == 0x41 + k && y as int == 0x61 + k
  }

  ghost predicate SameLetter(x: char, y: char) {
    x == y || exists k :: CasesOf(x, y, k) || CasesOf(y, x, k)
  }

  /** The same key: character by character, or letter by letter if case does not count. */
  ghost predicate SameKey(a: string, b: string, cs: bool) {
    |a| == |b| && forall i :: 0 <= i < |a| ==> if cs then a[i] == b[i] else SameLetter(a[i], b[i])
  }

  lemma {:induction false} LowerSame(x: char, y: char)
    ensures Lower(x) == Lower(y) <==> SameLetter(x, y)
  {
    if Lower(x) == Lower(y) && x != y {
      var k := if 'A' <= x <= 'Z' then x as int - 0x41 else y as int - 0x41;
      assert CasesOf(x, y, k) || CasesOf(y, x, k);
    }
  }

  lemma {:induction false} FoldSame(a: string, b: string, cs: bool)
    ensures Fold(a, cs) == Fold(b, cs) <==> SameKey(a, b, cs)
  {
    var x, y := Fold(a, cs), Fold(b, cs);
    if |a| == |b| {
      forall i | 0 <= i < |a| ensures x[i] == y[i] <==> if cs then a[i] == b[i] else SameLetter(a[i], b[i]) {
        LowerSame(a[i], b[i]);
      }
      assert x == y <==> forall i :: 0 <= i < |a| ==> x[i] == y[i];
    } else {
      assert |x| != |y|;
    }
  }

  /** `compare_strings` and `case_insensitive_strcmp` give 0 exactly for the same key. */
  lemma {:induction false} CompareSame(a: string, b: string, cs: bool)
    ensures CompareKeys(a, b, cs) == 0 <==> SameKey(a, b, cs)
  {
    KeysEqual(a, b, cs);
    FoldSame(a, b, cs);
  }

  /** `a` comes before `b`: at the first place where they differ it has ended or has the smaller byte. */
  predicate BeforeAt(a: string, b: string, i: nat) {
    i <= |a| && i < |b| && a[..i] == b[..i] && (i == |a| || a[i] < b[i])
  }

  lemma {:induction false} CompareFromOrder(a: string, b: string, i: nat)
    requires i <= |a| && i <= |b| && a[..i] == b[..i]
    ensures CompareFrom(a, b, i) < 0 <==> exists k: nat :: i <= k && BeforeAt(a, b, k)
    decreases |a| - i
  {
    if i < |a| && i < |b| && a[i] == b[i] {
      assert a[..i + 1] == b[..i + 1];
      CompareFromOrder(a, b, i + 1);
      assert !BeforeAt(a, b, i);
    } else {
      forall k: nat | i < k ensures !BeforeAt(a, b, k) {
        if k <= |a| && k < |b| {
          assert a[..k][i] == a[i] && b[..k][i] == b[i];
        }
      }
      assert CompareFrom(a, b, i) < 0 <==> BeforeAt(a, b, i);
    }
  }

  /** Keys are ordered as `strcmp` orders them, a prefix before what it is a prefix of. */
  lemma {:induction false} CompareOrder(a: string, b: string)
    ensures KeyLess(a, b, true) <==> exists k: nat :: BeforeAt(a, b, k)
  {
    CompareFromOrder(a, b, 0);
  }

  /** Without regard to case they are ordered by their spellings in small letters. */
  lemma {:induction false} CompareOrderIgnoringCase(a: string, b: string, a': string, b': string)
    requires SameKey(a, a', false) && SameKey(b, b', false) && NoUpper(a') && NoUpper(b')
    ensures CompareKeys(a, b, false) == CompareKeys(a', b', true)
  {
    FoldSame(a, a', false);
    FoldSame(b, b', false);
    FoldNoUpper(a', false);
    FoldNoUpper(b', false);
  }

  /** `get_object_item` finds the first member with the same key. */
  lemma {:induction false} FindSame(ms: seq<Member>, key: string, cs: bool)
    ensures var r := Find(ms, key, cs);
      && r <= |ms| && (r < |ms| ==> SameKey(ms[r].key, key, cs))
      && forall i :: 0 <= i < r ==> !SameKey(ms[i].key, key, cs)
  {
    FindFromFirst(ms, key, cs, 0);
    forall i | 0 <= i < |ms| ensures Fold(ms[i].key, cs) == Fold(key, cs) <==> SameKey(ms[i].key, key, cs) {
      FoldSame(ms[i].key, key, cs);
    }
  }

  // ----- path tokens -----

  /** What a path token spells: `~0` and `~1` unescaped, nothing for a `~` before anything else. */
  function Unescaped(token: string, j: nat): Option<string>
    decreases |token| - j
  {
    if j >= |token| then Some("")
    else if token[j] != '~' then Extended(token[j], Unescaped(token, j + 1))
    else if j + 1 < |token| && token[j + 1] == '0' then Extended('~', Unescaped(token, j + 2))
    else if j + 1 < |token| && token[j + 1] == '1' then Extended('/', Unescaped(token, j + 2))
    else None
  }

  function Extended(c: char, rest: Option<string>): Option<string> {
    match rest
    case None => None
    case Some(t) => Some([c] + t)
  }

  lemma {:induction false} SameKeyMore(name: string, i: nat, c: char, rest: string, cs: bool)
    requires i < |name|
    ensures SameKey(name[i..], [c] + rest, cs)
      <==> (if cs then name[i] == c else SameLetter(name[i], c)) && SameKey(name[i + 1..], rest, cs)
  {
    var a, b, x, y := name[i..], [c] + rest, name[i + 1..], rest;
    assert a[0] == name[i] && b[0] == c && x == a[1..] && y == b[1..];
    if |a| == |b| {
      assert forall k :: 1 <= k < |a| ==> a[k] == x[k - 1] && b[k] == y[k - 1];
    }
  }

  lemma {:induction false} MatchSpellsFrom(name: string, i: nat, token: string, j: nat, cs: bool)
    requires i <= |name| && j <= |token|
    ensures MatchFrom(name, i, token, j, cs)
      <==> Unescaped(token, j).Some? && SameKey(name[i..], Unescaped(token, j).value, cs)
    decreases |name| - i
  {
    if i < |name| && j < |token| {
      var two := token[j] == '~';
      if !two || (j + 1 < |token| && (token[j + 1] == '0' || token[j + 1] == '1')) {
        var c := if !two then token[j] else if token[j + 1] == '0' then '~' else '/';
        var next := if two then j + 2 else j + 1;
        MatchSpellsFrom(name, i + 1, token, next, cs);
        LowerSame(name[i], c);
        if Unescaped(token, next).Some? {
          SameKeyMore(name, i, c, Unescaped(token, next).value, cs);
        }
      }
    } else if j < |token| && Unescaped(token, j).Some? {
      assert |Unescaped(token, j).value| > 0;
    }
  }

  /** `compare_pointers`: a key matches a token exactly when it is the key that the token spells; a token with a
      stray `~` matches nothing. */
  lemma {:induction false} MatchSpells(name: string, token: string, cs: bool)
    ensures MatchToken(name, token, cs) <==> Unescaped(token, 0).Some? && SameKey(name, Unescaped(token, 0).value, cs)
  {
    MatchSpellsFrom(name, 0, token, 0, cs);
    assert name[0..] == name;
  }

  /** The child that a token leads to: the first member with the key that it spells. */
  lemma {:induction false} StepSame(ms: seq<Member>, token: string, cs: bool)
    ensures match Step(Object(ms), token, cs)
      case Some(r) =>
        && Unescaped(token, 0).Some? && SameKey(ms[r].key, Unescaped(token, 0).value, cs)
        && forall i :: 0 <= i < r ==> !SameKey(ms[i].key, Unescaped(token, 0).value, cs)
      case None =>
        Unescaped(token, 0).Some? ==> forall i :: 0 <= i < |ms| ==> !SameKey(ms[i].key, Unescaped(token, 0).value, cs)
  {
    forall i | 0 <= i < |ms|
      ensures MatchToken(ms[i].key, token, cs)
        <==> Unescaped(token, 0).Some? && SameKey(ms[i].key, Unescaped(token, 0).value, cs)
    {
      MatchSpells(ms[i].key, token, cs);
    }
  }

  /** "a" finds "A" when case does not count, and only then. */
  lemma {:induction false} CapitalFound(value: Json, cs: bool)
    ensures var ms := [Member("A", value)];
      && Find(ms, "a", cs) == (if cs then 1 else 0)
      && Step(Object(ms), "a", cs) == if cs then None else Some(0)
  {
    var ms := [Member("A", value)];
    assert CasesOf('A', 'a', 0) && "A"[0] == 'A' && "a"[0] == 'a';
    FindSame(ms, "a", cs);
    assert Unescaped("a", 1) == Some("") && ['a'] + "" == "a";
    StepSame(ms, "a", cs);
    assert SameKey("A", "a", false) && !SameKey("A", "a", true);
  }

  // ----- array indices -----

  /** The decimal text of any number is read modulo 2^64, as the arithmetic of `size_t` makes it. */
  lemma {:induction false} DecimalWraps(n: nat)
    ensures DecodeIndex(Decimal(n)) == Some(n % SIZE_LIMIT)
  {
    IndexWraps(n);
  }

  lemma {:induction false} IndexWraps(n: nat)
    ensures IndexOf(Decimal(n), |Decimal(n)|) == n % SIZE_LIMIT
  {
    if n >= 10 {
      IndexWraps(n / 10);
      var t, u := Decimal(n / 10), Decimal(n);
      IndexPrefix(t, u, |t|);
      var a, d := n / 10, n % 10;
      assert u[|u| - 1] as int - '0' as int == d;
      WrapMore(a, d);
    }
  }

  lemma {:induction false} WrapMore(a: nat, d: nat)
    requires d < 10
    ensures (10 * (a % SIZE_LIMIT) + d) % SIZE_LIMIT == (10 * a + d) % SIZE_LIMIT
  {
    var k, r := a / SIZE_LIMIT, a % SIZE_LIMIT;
    assert 10 * a + d == 10 * k * SIZE_LIMIT + (10 * r + d);
    Multiples(10 * k, 10 * r + d);
  }

  lemma {:induction false} Multiples(k: nat, x: nat)
    ensures (k * SIZE_LIMIT + x) % SIZE_LIMIT == x % SIZE_LIMIT
  {
    if k > 0 {
      Multiples(k - 1, x);
      assert k * SIZE_LIMIT + x == (k - 1) * SIZE_LIMIT + x + SIZE_LIMIT;
    }
  }

  /** The digit loop looks at the first character only to see whether it is above '9', so a later one counts by
      its byte: "1~" is 10 + 78. Leading zeros are refused. */
  lemma {:induction false} OddIndices()
    ensures DecodeIndex("1~") == Some(88) && DecodeIndex("") == Some(0)
    ensures DecodeIndex("01") == None && DecodeIndex("-") == None && DecodeIndex("a") == None
  {
    assert IndexOf("1~", 1) == 1;
    assert IndexOf("1~", 2) == 88;
    assert DigitsFrom("1~", 1) == DigitsFrom("1~", 2) == 2;
  }
}
