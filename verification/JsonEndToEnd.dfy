/** Whole calls put together: printing a document and parsing the text, and the two equalities on the
    same two documents. */
module JsonEndToEnd {
  import opened Basics
  import opened Json
  import opened JsonText
  import opened JsonView
  import opened JsonChildren
  import opened JsonPrinter
  import opened JsonParser
  import opened JsonRoundTrip
  import opened JsonCompare
  import opened JsonPlain

  /** Printing into any buffer, then parsing: if the text was printed, the items parsed from it hold the
      same document exactly when it is nested no deeper than the parser allows. */
  method PrintAndParse(j: Json, size: nat, noalloc: bool, format: bool, reallocates: bool, whole: bool, libc: Libc)
    returns (printed: bool, item: Item?, ghost held: Option<(Tree, World)>)
    requires size <= INT_MAX && Readable(j, libc)
    ensures Printable(j, libc) && |Render(j, 0, format, libc)| + 2 <= (if noalloc then size else INT_MAX) ==> printed
    ensures printed ==> (item != null <==> Depth(j) <= NESTING_LIMIT)
    ensures item != null ==> held.Some? && held.value.0.node == item && Spells(held.value.0, j)
    ensures item != null ==> Stands(held.value.0, held.value.1) && fresh(held.value.1.Keys)
  {
    ReadableCStrings(j, libc);
    PrintThenParse(j, format, whole, libc);
    var text, overread := Print(j, size, noalloc, format, reallocates, libc);
    printed, item := text.Some?, null;
    held := None;
    if printed {
      var bytes := text.value[..|text.value| - 1];
      assert bytes == Render(j, 0, format, libc);
      var end;
      ghost var k, u, w;
      item, end, k, u, w := Parse(bytes, whole, libc);
      held := Some((u, w));
    }
  }

  /** `compare_json` and `cJSON_Compare` answer the same on documents of fractions, without raw and invalid
      items: whether the two documents say the same. */
  method CompareBothWays(a: Json, b: Json, cs: bool, ghost q: int) returns (sorted: bool, looked: bool)
    requires Keyed(a, cs) && Keyed(b, cs) && Plain(View(a, cs), q) && Plain(View(b, cs), q)
    ensures sorted == looked == (View(a, cs) == View(b, cs))
  {
    sorted := CompareJson(a, b, cs);
    looked := Compare(a, b, cs);
    EqualitiesAgree(View(a, cs), View(b, cs), q);
  }
}
