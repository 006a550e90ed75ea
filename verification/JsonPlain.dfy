/** What `compare_double` (apps/cjson/cJSON_Utils.c:112-116, apps/cjson/cJSON.c:538-542) tells apart, and documents
    on which both equalities are equality. */
module JsonPlain {
  import opened Json
  import opened JsonView
  import opened JsonCompare
  import JsonText

  const TWO52: int := 0x10_0000_0000_0000

  lemma {:induction false} AbsScaled(k: real, x: real)
    ensures Abs(k * x) == Abs(k) * Abs(x)
  {
  }

  lemma {:induction false} ProductOrder(k: real, x: real, y: real)
    requires k > 0.0
    ensures k * x <= k * y <==> x <= y
  {
    if x <= y {
      assert k * (y - x) >= 0.0;
    } else {
      assert k * (x - y) > 0.0;
    }
  }

  /** The comparison is relative: scaling both sides does not change the answer. */
  lemma {:induction false} ScalingKeeps(k: real, a: real, b: real)
    requires k != 0.0
    ensures CompareDouble(k * a, k * b) <==> CompareDouble(a, b)
  {
    var x, y, d := Abs(a), Abs(b), Abs(a - b);
    AbsScaled(k, a);
    AbsScaled(k, b);
    AbsScaled(k, a - b);
    assert k * a - k * b == k * (a - b);
    ScaledTest(Abs(k), x, y, d);
  }

  lemma {:induction false} ScaledTest(k: real, x: real, y: real, d: real)
    requires k > 0.0
    ensures (k * d * 4503599627370496.0 <= if k * x > k * y then k * x else k * y)
      <==> (d * 4503599627370496.0 <= if x > y then x else y)
  {
    ProductOrder(k, x, y);
    var diff, larger := d * 4503599627370496.0, if x > y then x else y;
    assert k * d * 4503599627370496.0 == k * diff;
    ProductOrder(k, diff, larger);
  }

  /** Integers below 2^52 are told apart, and 2^52 is the first one that is not told from its neighbour. */
  lemma {:induction false} IntegersClose(m: int, n: int)
    ensures -TWO52 < m < TWO52 && -TWO52 < n < TWO52 ==> (CompareDouble(m as real, n as real) <==> m == n)
    ensures CompareDouble(TWO52 as real, (TWO52 - 1) as real)
  {
    if m < n {
      assert n as real - m as real >= 1.0;
    } else if n < m {
      assert m as real - n as real >= 1.0;
    }
  }

  /** So are fractions with the same denominator. */
  lemma {:induction false} FractionsClose(m: int, n: int, q: int)
    requires -TWO52 < m < TWO52 && -TWO52 < n < TWO52 && q > 0
    ensures CompareDouble(m as real / q as real, n as real / q as real) <==> m == n
  {
    ScaledDown(m as real, n as real, q as real);
    IntegersClose(m, n);
  }

  lemma {:induction false} ScaledDown(a: real, b: real, q: real)
    requires q > 0.0
    ensures CompareDouble(a / q, b / q) <==> CompareDouble(a, b)
  {
    var k := 1.0 / q;
    Quotient(a, q);
    Quotient(b, q);
    ScalingKeeps(k, a, b);
    assert k * a == a / q && k * b == b / q;
  }

  lemma {:induction false} Quotient(x: real, q: real)
    requires q > 0.0
    ensures 1.0 / q > 0.0 && 1.0 / q * x == x / q && x / q * q == x
  {
  }

  /** The number of numerator `m` and denominator `q`, as parsing makes it. */
  function FractionOf(m: int, q: int): Json
    requires q > 0
  {
    Number(JsonText.ToInt(m as real / q as real), m as real / q as real)
  }

  /** A fraction of denominator `q` and a numerator below 2^52. */
  ghost predicate Fraction(x: Json, q: int) {
    q > 0 && exists m :: -TWO52 < m < TWO52 && x == FractionOf(m, q)
  }

  /** No raw or invalid item, and numbers that are such fractions. */
  ghost predicate Plain(d: Doc, q: int)
    decreases d
  {
    match d
    case Atom(x) => !x.Raw? && !x.Invalid? && !x.Array? && !x.Object? && (x.Number? ==> Fraction(x, q))
    case List(xs) => forall i :: 0 <= i < |xs| ==> Plain(xs[i], q)
    case Record(m) => forall k :: k in m ==> Plain(m[k], q)
  }

  lemma {:induction false} FractionsEqual(x: Json, y: Json, q: int)
    requires Fraction(x, q) && Fraction(y, q)
    ensures CompareDouble(x.valuedouble, y.valuedouble) <==> x == y
  {
    var m :| -TWO52 < m < TWO52 && x == FractionOf(m, q);
    var n :| -TWO52 < n < TWO52 && y == FractionOf(n, q);
    FractionsClose(m, n, q);
    Quotient(m as real, q as real);
    Quotient(n as real, q as real);
  }

  lemma {:induction false} AtomsEqual(x: Json, y: Json, q: int)
    requires Plain(Atom(x), q) && Plain(Atom(y), q)
    ensures NearAtom(x, y) <==> x == y
    ensures AlikeAtom(x, y) <==> x == y
  {
    if x.Number? && y.Number? {
      FractionsEqual(x, y, q);
    }
  }

  /** On plain documents `compare_json` and `cJSON_Compare` decide equality, up to member order and the case of keys. */
  lemma {:induction false} EqualitiesAgree(a: Doc, b: Doc, q: int)
    requires Plain(a, q) && Plain(b, q)
    ensures Near(a, b) <==> a == b
    ensures Alike(a, b) <==> a == b
    decreases a
  {
    match a {
      case Atom(x) =>
        if b.Atom? {
          AtomsEqual(x, b.leaf, q);
        }
      case List(xs) =>
        if b.List? && |xs| == |b.docs| {
          forall i | 0 <= i < |xs|
            ensures (Near(xs[i], b.docs[i]) <==> xs[i] == b.docs[i])
            ensures (Alike(xs[i], b.docs[i]) <==> xs[i] == b.docs[i])
          {
            EqualitiesAgree(xs[i], b.docs[i], q);
          }
          assert (forall i :: 0 <= i < |xs| ==> xs[i] == b.docs[i]) <==> xs == b.docs;
        }
      case Record(m) =>
        if b.Record? && m.Keys == b.fields.Keys {
          forall k | k in m
            ensures (Near(m[k], b.fields[k]) <==> m[k] == b.fields[k])
            ensures (Alike(m[k], b.fields[k]) <==> m[k] == b.fields[k])
          {
            EqualitiesAgree(m[k], b.fields[k], q);
          }
          assert (forall k :: k in m ==> m[k] == b.fields[k]) <==> m == b.fields;
        }
    }
  }

  /** Where the two equalities part: `compare_json` looks at `valueint` and not at raw texts, `cJSON_Compare` the
      other way round, and it finds no invalid item equal to anything. */
  lemma {:induction false} EqualitiesPart(i: int, k: int, d: real, s: string, t: string, x: Json)
    ensures Near(Atom(Number(i, d)), Atom(Number(k, d))) <==> i == k
    ensures Alike(Atom(Number(i, d)), Atom(Number(k, d)))
    ensures Near(Atom(Raw(s)), Atom(Raw(t)))
    ensures Alike(Atom(Raw(s)), Atom(Raw(t))) <==> s == t
    ensures Near(Atom(Invalid), Atom(x)) <==> x == Invalid
    ensures !Alike(Atom(Invalid), Atom(x))
    ensures (Near(Atom(x), Atom(Raw(s))) <==> x.Raw?) && (Alike(Atom(x), Atom(Raw(s))) ==> x.Raw?)
  {
  }

  /** The same of a document itself. */
  ghost predicate PlainJson(j: Json, q: int)
    decreases j
  {
    match j
    case Array(items) => forall i :: 0 <= i < |items| ==> PlainJson(items[i], q)
    case Object(ms) => forall m :: m in ms ==> PlainJson(m.value, q)
    case _ => !j.Raw? && !j.Invalid? && (j.Number? ==> Fraction(j, q))
  }

  /** Plain documents have plain views. */
  lemma {:induction false} PlainViews(j: Json, cs: bool, q: int)
    requires PlainJson(j, q)
    ensures Plain(View(j, cs), q)
    decreases j, 1
  {
    match j {
      case Array(items) =>
        forall i | 0 <= i < |items| ensures Plain(View(items[i], cs), q) {
          PlainViews(items[i], cs, q);
        }
      case Object(ms) => PlainFields(ms, |ms|, cs, q);
      case _ =>
    }
  }

  lemma {:induction false} PlainFields(ms: seq<Member>, n: nat, cs: bool, q: int)
    requires n <= |ms| && forall m :: m in ms ==> PlainJson(m.value, q)
    ensures forall k :: k in Fields(ms, n, cs) ==> Plain(Fields(ms, n, cs)[k], q)
    decreases ms, 0, n
  {
    if n > 0 {
      assert ms[n - 1] in ms;
      PlainFields(ms, n - 1, cs, q);
      PlainViews(ms[n - 1].value, cs, q);
    }
  }

  /** Scalars that compare equal are equal. */
  lemma {:induction false} PlainAtoms(a: Json, b: Json, cs: bool, q: int)
    requires PlainJson(a, q) && PlainJson(b, q) && !a.Array? && !a.Object? && Near(View(a, cs), View(b, cs))
    ensures View(a, cs) == View(b, cs)
  {
    PlainViews(a, cs, q);
    PlainViews(b, cs, q);
    EqualitiesAgree(View(a, cs), View(b, cs), q);
  }
}
