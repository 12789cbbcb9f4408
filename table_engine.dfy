/**
 * The value-level rules of the accident table view: reading a field of a
 * record, the case-insensitive substring filter, the null-last comparator
 * used for sorting, the column-limit rule and the per-column summary of
 * distinct values.
 *
 * JavaScript numbers are modelled as `real`. Three host behaviours that the
 * page relies on but does not define are abstract parameters bundled in
 * `Host`: `Number(string)` coercion, `String(number)` formatting and
 * `String.prototype.localeCompare`.
 */
module TableEngine {
  import opened Optional
  import opened Seqs
  import opened Text
  import opened Sorting

  /** A JSON scalar stored in a record field. */
  datatype Scalar = Str(s: string) | Num(n: real) | Bool(b: bool)

  /**
   * A record of the dataset: its own keys in `Object.keys` order, and the
   * non-null fields. A key listed in `keys` but absent from `fields` holds
   * `null`; a key absent from both is `undefined`. The page treats the two alike.
   */
  datatype Record = Record(keys: seq<string>, fields: map<string, Scalar>)

  /**
   * Host behaviours the page calls but does not define:
   * `parseNumber(s)` is `Number(s)` for a string that is not blank (None for NaN),
   * `numberToString(n)` is `String(n)`, and `localeCompare(s, t)` is `s.localeCompare(t)`.
   */
  datatype Host = Host(parseNumber: string -> Option<real>, numberToString: real -> string, localeCompare: (string, string) -> int)

  /** `item[col]`, with null and undefined both None. */
  function Get(r: Record, col: string): Option<Scalar> {
    if col in r.fields then Some(r.fields[col]) else None
  }

  /** `String(v)` for a non-null scalar. */
  function Stringify(host: Host, v: Scalar): string {
    match v
    case Str(s) => s
    case Num(n) => host.numberToString(n)
    case Bool(b) => if b then "true" else "false"
  }

  /** `String(item[col] ?? '')`: the text of a cell; null and undefined read as empty. */
  function CellText(host: Host, r: Record, col: string): string {
    match Get(r, col)
    case None => ""
    case Some(v) => Stringify(host, v)
  }

  /** `Number(v)` for a non-null scalar, None standing for NaN. A blank string is 0. */
  function ToNumber(host: Host, v: Scalar): Option<real> {
    match v
    case Num(n) => Some(n)
    case Bool(b) => Some(if b then 1.0 else 0.0)
    case Str(s) => if Trim(s) == "" then Some(0.0) else host.parseNumber(s)
  }

  // ---------------------------------------------------------------------
  // Filter
  // ---------------------------------------------------------------------

  /** The filter text as the page compares it: lower-cased, then trimmed. */
  function NormalizeQuery(text: string): string {
    Trim(ToLower(text))
  }

  /** Whether a record's cell in `col`, lower-cased, contains the normalised query. */
  predicate Matches(host: Host, col: string, query: string, r: Record) {
    Contains(ToLower(CellText(host, r, col)), query)
  }

  /**
   * The rows shown for a filter on column `col` with text `text`: all of
   * `data` when the normalised text is empty, otherwise the matching records
   * in their original order.
   */
  function FilterRows(host: Host, data: seq<Record>, col: string, text: string): (r: seq<Record>)
    ensures NormalizeQuery(text) == "" ==> r == data
    ensures SubseqOf(r, data)
  {
    var q := NormalizeQuery(text);
    if q == "" then
      SubseqRefl(data);
      data
    else
      var p := (x: Record) => Matches(host, col, q, x);
      KeepIsSubsequence(data, p);
      Keep(data, p)
  }

  /**
   * A non-blank filter keeps every copy of each matching record and no copy
   * of any other record.
   */
  lemma FilterRowsExactly(host: Host, data: seq<Record>, col: string, text: string, x: Record)
    requires NormalizeQuery(text) != ""
    ensures multiset(FilterRows(host, data, col, text))[x] ==
      if Matches(host, col, NormalizeQuery(text), x) then multiset(data)[x] else 0
  {
    KeepCount(data, (y: Record) => Matches(host, col, NormalizeQuery(text), y), x);
  }

  /** Filtering the filtered rows again with the same column and text changes nothing. */
  lemma FilterIdempotent(host: Host, data: seq<Record>, col: string, text: string)
    ensures FilterRows(host, FilterRows(host, data, col, text), col, text) == FilterRows(host, data, col, text)
  {
    var q := NormalizeQuery(text);
    if q != "" {
      KeepIdempotent(data, (x: Record) => Matches(host, col, q, x));
    }
  }

  // ---------------------------------------------------------------------
  // Sort comparator
  // ---------------------------------------------------------------------

  /**
   * How two non-null keys compare before the direction is applied: by
   * difference when both coerce to numbers, otherwise by locale order of
   * their lower-cased texts.
   */
  function KeyCompare(host: Host, x: Scalar, y: Scalar): real {
    match (ToNumber(host, x), ToNumber(host, y))
    case (Some(m), Some(n)) => m - n
    case _ => host.localeCompare(ToLower(Stringify(host, x)), ToLower(Stringify(host, y))) as real
  }

  /** The comparator of the sort view for column `col` and direction `direction`. */
  function Compare(host: Host, col: string, direction: string, a: Record, b: Record): real {
    match (Get(a, col), Get(b, col))
    case (None, None) => 0.0
    case (None, Some(_)) => 1.0
    case (Some(_), None) => -1.0
    case (Some(x), Some(y)) =>
      var c := KeyCompare(host, x, y);
      if direction == "desc" then -c else c
  }

  /** `Compare` as the function value handed to the sort. */
  function Comparator(host: Host, col: string, direction: string): (cmp: (Record, Record) -> real)
    ensures forall a, b :: cmp(a, b) == Compare(host, col, direction, a, b)
  {
    (a: Record, b: Record) => Compare(host, col, direction, a, b)
  }

  /** The records whose key in `col` is null or undefined. */
  function NullKey(col: string): (last: Record -> bool)
    ensures forall r :: last(r) <==> Get(r, col).None?
  {
    (r: Record) => Get(r, col).None?
  }

  /**
   * A null key compares the same way in both directions: two nulls are
   * equal, a null goes after a non-null and a non-null before a null.
   */
  lemma NullsLastEitherDirection(host: Host, col: string, direction: string, a: Record, b: Record)
    requires Get(a, col).None? || Get(b, col).None?
    ensures Compare(host, col, direction, a, b) == Compare(host, col, "asc", a, b)
    ensures Get(a, col).None? && Get(b, col).None? ==> Compare(host, col, direction, a, b) == 0.0
    ensures Get(a, col).None? && Get(b, col).Some? ==> Compare(host, col, direction, a, b) > 0.0
    ensures Get(a, col).Some? && Get(b, col).None? ==> Compare(host, col, direction, a, b) < 0.0
  {
  }

  /** Between two non-null keys, `desc` is exactly the negation of any other direction. */
  lemma DescNegates(host: Host, col: string, direction: string, a: Record, b: Record)
    requires Get(a, col).Some? && Get(b, col).Some? && direction != "desc"
    ensures Compare(host, col, "desc", a, b) == -Compare(host, col, direction, a, b)
    ensures Compare(host, col, direction, a, b) == KeyCompare(host, Get(a, col).value, Get(b, col).value)
  {
  }

  /** Both numeric: the comparison is the difference; otherwise it is the locale order of the lower-cased texts. */
  lemma KeyCompareCases(host: Host, x: Scalar, y: Scalar)
    ensures ToNumber(host, x).Some? && ToNumber(host, y).Some? ==>
      KeyCompare(host, x, y) == ToNumber(host, x).value - ToNumber(host, y).value
    ensures ToNumber(host, x).None? || ToNumber(host, y).None? ==>
      KeyCompare(host, x, y) == host.localeCompare(ToLower(Stringify(host, x)), ToLower(Stringify(host, y))) as real
  {
  }

  /** In both directions the comparator sends the null-keyed records to the end. */
  lemma ComparatorSinksNulls(host: Host, col: string, direction: string)
    ensures SinksLast(Comparator(host, col, direction), NullKey(col))
  {
    var cmp := Comparator(host, col, direction);
    var last := NullKey(col);
    forall a, b | last(b) ensures cmp(a, b) <= 0.0 {
      NullsLastEitherDirection(host, col, direction, a, b);
    }
    forall a, b | last(a) && !last(b) ensures cmp(a, b) > 0.0 {
      NullsLastEitherDirection(host, col, direction, a, b);
    }
  }

  /** Every non-null key of `col` in `data` coerces to a number. */
  ghost predicate NumericColumn(host: Host, col: string, data: seq<Record>) {
    forall r | r in data :: Get(r, col).None? || ToNumber(host, Get(r, col).value).Some?
  }

  /** No non-null key of `col` in `data` coerces to a number. */
  ghost predicate TextColumn(host: Host, col: string, data: seq<Record>) {
    forall r | r in data :: Get(r, col).None? || ToNumber(host, Get(r, col).value).None?
  }

  function Sign(x: int): int {
    if x < 0 then -1 else if x > 0 then 1 else 0
  }

  /** `localeCompare` is a total order: swapping the arguments flips the sign, and "not after" is transitive. */
  ghost predicate IsCollation(lc: (string, string) -> int) {
    && (forall s, t :: Sign(lc(s, t)) == -Sign(lc(t, s)))
    && (forall s, t, u :: lc(s, t) <= 0 && lc(t, u) <= 0 ==> lc(s, u) <= 0)
  }

  /** The numeric key of a record in a numeric column, with None for null. */
  function NumKey(host: Host, col: string, r: Record): Option<real> {
    match Get(r, col)
    case None => None
    case Some(v) => ToNumber(host, v)
  }

  /** In a numeric column, the comparator orders by number, nulls last. */
  lemma NumericCompare(host: Host, col: string, direction: string, a: Record, b: Record)
    requires Get(a, col).None? || ToNumber(host, Get(a, col).value).Some?
    requires Get(b, col).None? || ToNumber(host, Get(b, col).value).Some?
    ensures Get(a, col).Some? && Get(b, col).Some? && direction != "desc" ==>
      Compare(host, col, direction, a, b) == NumKey(host, col, a).value - NumKey(host, col, b).value
    ensures Get(a, col).Some? && Get(b, col).Some? && direction == "desc" ==>
      Compare(host, col, direction, a, b) == NumKey(host, col, b).value - NumKey(host, col, a).value
  {
  }

  /**
   * On a column whose non-null keys are all numeric, the comparator is a
   * total preorder in either direction, so the sort orders it.
   */
  lemma NumericColumnPreorder(host: Host, col: string, direction: string, data: seq<Record>)
    requires NumericColumn(host, col, data)
    ensures PreorderOn(Comparator(host, col, direction), data)
  {
    var cmp := Comparator(host, col, direction);
    forall a, b | a in data && b in data ensures cmp(a, b) <= 0.0 || cmp(b, a) <= 0.0 {
      NumericCompare(host, col, direction, a, b);
      NumericCompare(host, col, direction, b, a);
    }
    forall a, b, c | a in data && b in data && c in data && cmp(a, b) <= 0.0 && cmp(b, c) <= 0.0
      ensures cmp(a, c) <= 0.0
    {
      NumericCompare(host, col, direction, a, b);
      NumericCompare(host, col, direction, b, c);
      NumericCompare(host, col, direction, a, c);
    }
  }

  /** The lower-cased text of a non-null key. */
  function TextKey(host: Host, col: string, r: Record): string
    requires Get(r, col).Some?
  {
    ToLower(Stringify(host, Get(r, col).value))
  }

  /** In a text column, the comparator orders by locale order of the lower-cased texts, nulls last. */
  lemma TextCompare(host: Host, col: string, direction: string, a: Record, b: Record)
    requires Get(a, col).None? || ToNumber(host, Get(a, col).value).None?
    ensures Get(a, col).Some? && Get(b, col).Some? && direction != "desc" ==>
      Compare(host, col, direction, a, b) == host.localeCompare(TextKey(host, col, a), TextKey(host, col, b)) as real
    ensures Get(a, col).Some? && Get(b, col).Some? && direction == "desc" ==>
      Compare(host, col, direction, a, b) == -(host.localeCompare(TextKey(host, col, a), TextKey(host, col, b)) as real)
  {
  }

  /** Reverse order under a collation: "not before" is total and transitive too. */
  lemma CollationReversed(lc: (string, string) -> int, s: string, t: string, u: string)
    requires IsCollation(lc)
    ensures lc(s, t) <= 0 || lc(t, s) <= 0
    ensures lc(s, t) >= 0 && lc(t, u) >= 0 ==> lc(s, u) >= 0
  {
    assert Sign(lc(s, t)) == -Sign(lc(t, s));
    if lc(s, t) >= 0 && lc(t, u) >= 0 {
      assert Sign(lc(u, t)) == -Sign(lc(t, u));
      assert Sign(lc(u, s)) == -Sign(lc(s, u));
      assert lc(u, t) <= 0 && lc(t, s) <= 0;
    }
  }

  /**
   * On a column whose non-null keys are all non-numeric, and when the
   * locale comparison is a total order, the comparator is a total preorder
   * in either direction, so the sort orders it.
   */
  lemma TextColumnPreorder(host: Host, col: string, direction: string, data: seq<Record>)
    requires TextColumn(host, col, data) && IsCollation(host.localeCompare)
    ensures PreorderOn(Comparator(host, col, direction), data)
  {
    var cmp := Comparator(host, col, direction);
    var lc := host.localeCompare;
    forall a, b | a in data && b in data ensures cmp(a, b) <= 0.0 || cmp(b, a) <= 0.0 {
      TextCompare(host, col, direction, a, b);
      TextCompare(host, col, direction, b, a);
      if Get(a, col).Some? && Get(b, col).Some? {
        CollationReversed(lc, TextKey(host, col, a), TextKey(host, col, b), TextKey(host, col, b));
      }
    }
    forall a, b, c | a in data && b in data && c in data && cmp(a, b) <= 0.0 && cmp(b, c) <= 0.0
      ensures cmp(a, c) <= 0.0
    {
      TextCompare(host, col, direction, a, b);
      TextCompare(host, col, direction, b, c);
      TextCompare(host, col, direction, a, c);
      if Get(a, col).Some? && Get(b, col).Some? && Get(c, col).Some? {
        CollationReversed(lc, TextKey(host, col, a), TextKey(host, col, b), TextKey(host, col, c));
      }
    }
  }

  /**
   * `sorted` is `rows` sorted on `col`: the same records, those without a
   * value in `col` last and in their original order, and the rest in the
   * comparator's order whenever the column is numeric, or textual under a
   * collating `localeCompare`, records with tied keys keeping their
   * original order (the sort is stable).
   */
  ghost predicate IsSortOf(host: Host, rows: seq<Record>, col: string, direction: string, sorted: seq<Record>) {
    && multiset(sorted) == multiset(rows)
    && LastAtEnd(sorted, NullKey(col)) && Keep(sorted, NullKey(col)) == Keep(rows, NullKey(col))
    && (NumericColumn(host, col, rows) ==>
          Sorted(sorted, Comparator(host, col, direction)) && TiesInOrder(sorted, rows, Comparator(host, col, direction), rows))
    && (TextColumn(host, col, rows) && IsCollation(host.localeCompare) ==>
          Sorted(sorted, Comparator(host, col, direction)) && TiesInOrder(sorted, rows, Comparator(host, col, direction), rows))
  }

  /**
   * `[...rows].sort(comparator)` for column `col` and direction `direction`:
   * a permutation of `rows` whose null-keyed records come last, in their
   * original order, and which is ordered by the comparator, with tied
   * records in their original order, when the column is numeric, or
   * textual under a collating `localeCompare`.
   */
  method SortRows(host: Host, rows: seq<Record>, col: string, direction: string) returns (sorted: seq<Record>)
    ensures IsSortOf(host, rows, col, direction, sorted)
  {
    ComparatorSinksNulls(host, col, direction);
    if NumericColumn(host, col, rows) {
      NumericColumnPreorder(host, col, direction, rows);
    }
    if TextColumn(host, col, rows) && IsCollation(host.localeCompare) {
      TextColumnPreorder(host, col, direction, rows);
    }
    sorted := SortCopy(rows, Comparator(host, col, direction), NullKey(col));
  }

  // ---------------------------------------------------------------------
  // Column limit
  // ---------------------------------------------------------------------

  /**
   * The headers a table shows for an optional column limit (None for null
   * or NaN): the first `n` headers when `0 <= n <= |headers|`, all of them
   * otherwise.
   */
  function DisplayedHeaders(headers: seq<string>, limit: Option<int>): (r: seq<string>)
    ensures |r| <= |headers| && r == headers[..|r|]
    ensures |r| == if limit.Some? && 0 <= limit.value <= |headers| then limit.value else |headers|
  {
    if limit.Some? && 0 <= limit.value <= |headers| then headers[..limit.value] else headers
  }

  /** Limiting the already limited headers with the same limit changes nothing. */
  lemma DisplayedHeadersIdempotent(headers: seq<string>, limit: Option<int>)
    ensures DisplayedHeaders(DisplayedHeaders(headers, limit), limit) == DisplayedHeaders(headers, limit)
  {
  }

  /**
   * The column limit typed into the limit box, as the filter and sort views
   * read it: an empty box is no limit, otherwise `parseInt(text, 10)`, with
   * NaN also meaning no limit.
   */
  function LimitFromInput(input: string): (r: Option<int>)
    ensures input == "" ==> r == None
    ensures input != "" ==> r == ParseInt(input)
  {
    if input == "" then None else ParseInt(input)
  }

  // ---------------------------------------------------------------------
  // Summary
  // ---------------------------------------------------------------------

  /** The non-null values of column `col`, one per record that has one, in record order. */
  function ColumnValues(data: seq<Record>, col: string): (r: seq<Scalar>)
    ensures |r| <= |data|
    ensures forall i :: 0 <= i < |r| ==> exists k :: 0 <= k < |data| && Get(data[k], col) == Some(r[i])
    ensures forall k :: 0 <= k < |data| && Get(data[k], col).Some? ==> Get(data[k], col).value in r
  {
    if data == [] then []
    else
      var init := ColumnValues(data[..|data| - 1], col);
      var tail := match Get(data[|data| - 1], col) case None => [] case Some(v) => [v];
      var r := init + tail;
      assert forall k :: 0 <= k < |data| - 1 ==> data[..|data| - 1][k] == data[k];
      assert forall i :: 0 <= i < |init| ==> r[i] == init[i];
      r
  }

  /** The distinct non-null values of column `col`, in order of first appearance. */
  function UniqueValues(data: seq<Record>, col: string): (r: seq<Scalar>)
    ensures NoDups(r)
    ensures forall i :: 0 <= i < |r| ==> exists k :: 0 <= k < |data| && Get(data[k], col) == Some(r[i])
    ensures forall k :: 0 <= k < |data| && Get(data[k], col).Some? ==> Get(data[k], col).value in r
  {
    var vs := ColumnValues(data, col);
    var r := Distinct(vs);
    assert forall v :: v in r <==> v in vs;
    r
  }

  /** The unique values keep the order in which each first appears in the column. */
  lemma UniqueValuesFirstAppearance(data: seq<Record>, col: string)
    ensures forall i, j :: 0 <= i < j < |UniqueValues(data, col)| ==>
      FirstIndex(ColumnValues(data, col), UniqueValues(data, col)[i]) < FirstIndex(ColumnValues(data, col), UniqueValues(data, col)[j])
  {
    DistinctFirstOccurrenceOrder(ColumnValues(data, col));
  }

  /** The texts of a sequence of values, each through `String(v)`. */
  function Texts(host: Host, vs: seq<Scalar>): (r: seq<string>)
    ensures |r| == |vs| && forall i :: 0 <= i < |vs| ==> r[i] == Stringify(host, vs[i])
  {
    seq(|vs|, i requires 0 <= i < |vs| => Stringify(host, vs[i]))
  }

  /** The summary cell of one column: its unique values joined by ", ". */
  function SummaryCell(host: Host, data: seq<Record>, col: string): string {
    Join(Texts(host, UniqueValues(data, col)), ", ")
  }

  /** The summary row: one cell per header, each computed over the whole dataset. */
  function SummaryRow(host: Host, data: seq<Record>, headers: seq<string>): (r: seq<string>)
    ensures |r| == |headers|
    ensures forall i :: 0 <= i < |headers| ==> r[i] == SummaryCell(host, data, headers[i])
  {
    seq(|headers|, i requires 0 <= i < |headers| => SummaryCell(host, data, headers[i]))
  }
}
