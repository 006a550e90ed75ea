/** What a parsed number is (apps/cjson/cJSON.c:305-378): the text that `strtod` is given, and the `int` beside the
    value. */
module JsonNumberLaws {
  import opened Basics
  import opened Json
  import opened JsonText
  import opened JsonRoundTrip

  /** `valueint` of an integer is the integer if that is an `int`, and the nearer bound if not. */
  lemma {:induction false} IntOfInteger(n: int)
    ensures -0x8000_0000 <= n <= 0x7FFF_FFFF ==> ToInt(n as real) == n
    ensures n > 0x7FFF_FFFF ==> ToInt(n as real) == 0x7FFF_FFFF
    ensures n < -0x8000_0000 ==> ToInt(n as real) == -0x8000_0000
  {
    assert (n as real).Floor == n && (-(n as real)).Floor == -n;
  }

  /** Of any number it is the number without its fraction: towards 0, by less than 1. */
  lemma {:induction false} IntOfReal(d: real)
    ensures d >= 0x7FFF_FFFF as real ==> ToInt(d) == 0x7FFF_FFFF
    ensures d <= -0x8000_0000 as real ==> ToInt(d) == -0x8000_0000
    ensures 0.0 <= d <= 0x7FFF_FFFF as real ==> 0 <= ToInt(d) && ToInt(d) as real <= d < ToInt(d) as real + 1.0
    ensures -0x8000_0000 as real <= d <= 0.0 ==> ToInt(d) <= 0 && ToInt(d) as real - 1.0 < d <= ToInt(d) as real
  {
  }

  /** The characters that are copied for `strtod`. */
  lemma {:induction false} NumericExactly(c: char)
    ensures Numeric(c) <==> c in "0123456789+-eE."
  {
    var t := "0123456789+-eE.";
    assert t[0] == '0' && t[1] == '1' && t[2] == '2' && t[3] == '3' && t[4] == '4' && t[5] == '5' && t[6] == '6';
    assert t[7] == '7' && t[8] == '8' && t[9] == '9' && t[10] == '+' && t[11] == '-' && t[12] == 'e' && t[13] == 'E';
    assert t[14] == '.';
  }

  // ----- documents of integers -----

  /** The number that an integer below 10^15 is, with the `int` nearest to it. */
  ghost predicate IntegerNumber(j: Json, n: int) {
    && -1_000_000_000_000_000 < n < 1_000_000_000_000_000 && j.Number? && j.valuedouble == n as real
    && -0x8000_0000 <= j.valueint <= 0x7FFF_FFFF && (-0x8000_0000 <= n <= 0x7FFF_FFFF ==> j.valueint == n)
    && (n > 0x7FFF_FFFF ==> j.valueint == 0x7FFF_FFFF) && (n < -0x8000_0000 ==> j.valueint == -0x8000_0000)
  }

  /** Documents whose numbers are such integers, without raw and invalid items and NUL in a string. */
  ghost predicate OfIntegers(j: Json)
    decreases j
  {
    match j
    case Invalid => false
    case Raw(_) => false
    case Number(_, _) => exists n :: IntegerNumber(j, n)
    case Str(t) => NoNul(t)
    case Array(items) => forall i :: 0 <= i < |items| ==> OfIntegers(items[i])
    case Object(ms) => forall i :: 0 <= i < |ms| ==> NoNul(ms[i].key) && OfIntegers(ms[i].value)
    case _ => true
  }

  /** `sprintf` and `strtod` write and read the decimal text of an integer. */
  ghost predicate KnowsIntegers(c: Libc) {
    forall n: int :: -1_000_000_000_000_000 < n < 1_000_000_000_000_000 ==>
      c.sprintf(n as real) == IntText(n) && c.strtod(IntText(n)) == Some((n as real, |IntText(n)|))
  }

  lemma {:induction false} IntegersReadable(j: Json, c: Libc)
    requires OfIntegers(j) && KnowsIntegers(c)
    ensures Readable(j, c)
    decreases j
  {
    match j {
      case Number(_, d) =>
        var n :| IntegerNumber(j, n);
        IntOfInteger(n);
        assert c.sprintf(n as real) == IntText(n);
        IntegerFaithful(n, c);
      case Array(items) =>
        forall i | 0 <= i < |items| ensures Readable(items[i], c) {
          IntegersReadable(items[i], c);
        }
      case Object(ms) =>
        forall i | 0 <= i < |ms| ensures Readable(ms[i].value, c) {
          IntegersReadable(ms[i].value, c);
        }
      case _ =>
    }
  }

  /** Print then parse for documents of integers: every number comes back with its value and the `int` nearest to it. */
  lemma {:induction false} IntegersPrintThenParse(j: Json, format: bool, whole: bool, c: Libc)
    requires OfIntegers(j) && KnowsIntegers(c)
    ensures var text := Render(j, 0, format, c);
      Terminated(text + ['\0']) && ParseText(text, whole, c) == Expected(Depth(j) <= 1000, j, |text|)
  {
    IntegersReadable(j, c);
    PrintThenParse(j, format, whole, c);
  }
}
