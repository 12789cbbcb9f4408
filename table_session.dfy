/**
 * The accident table page as a session: the module-level dataset, headers
 * and highlighted column, the five views it renders into, and the event
 * handlers that update them. The DOM is reduced to the content each view
 * shows: a message, a table of cell texts with their CSS classes, or the
 * one-row summary table.
 */
module TableSession {
  import opened Optional
  import opened Text
  import opened Seqs
  import opened Sorting
  import opened TableEngine

  /** The CSS classes the table page puts on body cells. */
  datatype CssClass =
    | TrueCell | FalseCell | DayCell | NightCell | HighlightedColumn
    | LowSeverityCell | MediumSeverityCell | HighSeverityCell | ExtremeSeverityCell

  /** One rendered body cell: its text and its class list. */
  datatype Cell = Cell(text: string, classes: set<CssClass>)

  /**
   * What a view element contains: nothing, a message, a data table (its
   * header row, highlighted column and one body row per record, whose cells
   * `BodyCell` renders) or the one-row summary table.
   */
  datatype View =
    | Blank
    | Message(text: string)
    | Table(columns: seq<string>, highlight: Option<string>, rows: seq<Record>)
    | SummaryTable(columns: seq<string>, cells: seq<string>)

  const NoDataMessage := "No data to display."
  const NoSummaryMessage := "No data to summarize."

  // ---------------------------------------------------------------------
  // Cell classes
  // ---------------------------------------------------------------------

  /** The severity classes of a cell of the `Severity` column, as the page is written: level "3" is tested twice. */
  function SeverityClassesAsWritten(text: string): set<CssClass> {
    (if text == "1" then {LowSeverityCell} else {})
    + (if text == "2" then {MediumSeverityCell} else {})
    + (if text == "3" then {HighSeverityCell} else {})
    + (if text == "3" then {ExtremeSeverityCell} else {})
  }

  /** As written, level "4" gets no severity class and level "3" gets two. */
  lemma SeverityAsWrittenMissesLevelFour()
    ensures SeverityClassesAsWritten("4") == {}
    ensures SeverityClassesAsWritten("3") == {HighSeverityCell, ExtremeSeverityCell}
  {
  }

  /** The severity level texts, low to extreme, and their classes. */
  const SeverityLevels: seq<string> := ["1", "2", "3", "4"]
  const SeverityNames: seq<CssClass> := [LowSeverityCell, MediumSeverityCell, HighSeverityCell, ExtremeSeverityCell]

  /** The severity classes of a cell of the `Severity` column: exactly one class for each of the four levels. */
  function SeverityClasses(text: string): (r: set<CssClass>)
    ensures text !in SeverityLevels <==> r == {}
    ensures forall k :: 0 <= k < 4 && text == SeverityLevels[k] ==> r == {SeverityNames[k]}
  {
    (if text == "1" then {LowSeverityCell} else {})
    + (if text == "2" then {MediumSeverityCell} else {})
    + (if text == "3" then {HighSeverityCell} else {})
    + (if text == "4" then {ExtremeSeverityCell} else {})
  }

  /** Different severity levels get different classes. */
  lemma SeverityClassesInjective(s: string, t: string)
    requires s in SeverityLevels && t in SeverityLevels && s != t
    ensures SeverityClasses(s) != SeverityClasses(t)
  {
  }

  /** The severity classes. */
  predicate IsSeverity(c: CssClass) {
    c.LowSeverityCell? || c.MediumSeverityCell? || c.HighSeverityCell? || c.ExtremeSeverityCell?
  }

  /** The classes of a body cell with text `text` in column `header`. */
  function CellClasses(header: string, text: string, highlight: Option<string>): (r: set<CssClass>)
    ensures HighlightedColumn in r <==> highlight == Some(header)
    ensures TrueCell in r <==> text == "true"
    ensures FalseCell in r <==> text == "false"
    ensures DayCell in r <==> text == "Day"
    ensures NightCell in r <==> text == "Night"
    ensures forall c :: c in r && IsSeverity(c) <==> header == "Severity" && c in SeverityClasses(text)
  {
    (if text == "true" then {TrueCell} else {})
    + (if text == "false" then {FalseCell} else {})
    + (if text == "Day" then {DayCell} else {})
    + (if text == "Night" then {NightCell} else {})
    + (if highlight == Some(header) then {HighlightedColumn} else {})
    + (if header == "Severity" then SeverityClasses(text) else {})
  }

  /**
   * Outside levels "3" and "4" of the `Severity` column, a cell gets exactly
   * the severity classes the page as written gives it; the model differs
   * from the page only where the duplicated test does.
   */
  lemma CellClassesAgreeOutsideDuplicate(header: string, text: string, highlight: Option<string>)
    requires header != "Severity" || (text != "3" && text != "4")
    ensures forall c :: IsSeverity(c) ==>
      (c in CellClasses(header, text, highlight) <==> header == "Severity" && c in SeverityClassesAsWritten(text))
  {
  }

  // ---------------------------------------------------------------------
  // Rendering
  // ---------------------------------------------------------------------

  /** The body cell of a data table in row `i` and column `j`: the record's text for that column and its classes. */
  function BodyCell(host: Host, v: View, i: nat, j: nat): (c: Cell)
    requires v.Table? && i < |v.rows| && j < |v.columns|
    ensures c.text == CellText(host, v.rows[i], v.columns[j])
    ensures c.classes == CellClasses(v.columns[j], c.text, v.highlight)
  {
    var text := CellText(host, v.rows[i], v.columns[j]);
    Cell(text, CellClasses(v.columns[j], text, v.highlight))
  }

  /**
   * The table for `data` under an optional column limit and highlighted
   * column; the no-data message when `data` is empty.
   */
  function RenderTable(headers: seq<string>, data: seq<Record>, limit: Option<int>, highlight: Option<string>): (v: View)
    ensures data == [] <==> v == Message(NoDataMessage)
    ensures data != [] ==> v.Table? && v.rows == data && v.highlight == highlight
    ensures data != [] ==> |v.columns| <= |headers| && v.columns == headers[..|v.columns|]
    ensures data != [] ==> |v.columns| == if limit.Some? && 0 <= limit.value <= |headers| then limit.value else |headers|
  {
    if data == [] then Message(NoDataMessage) else Table(DisplayedHeaders(headers, limit), highlight, data)
  }

  /** The summary view over the whole dataset; the no-summary message when it is empty. */
  function RenderSummary(host: Host, headers: seq<string>, data: seq<Record>): (v: View)
    ensures data == [] <==> v == Message(NoSummaryMessage)
    ensures data != [] ==> v.SummaryTable? && v.columns == headers && |v.cells| == |headers|
    ensures data != [] ==> forall i :: 0 <= i < |headers| ==> v.cells[i] == Join(Texts(host, UniqueValues(data, headers[i])), ", ")
  {
    if data == [] then Message(NoSummaryMessage) else SummaryTable(headers, SummaryRow(host, data, headers))
  }

  /** The limit view's rule: a valid in-range limit, or no limit for an empty box; None for anything else, which leaves the view as it was. */
  function LimitViewLimit(input: string, columnCount: nat): (r: Option<Option<int>>)
    ensures r == Some(None) <==> input == ""
    ensures forall n :: r == Some(Some(n)) <==> ParseInt(input) == Some(n) && 0 <= n <= columnCount
    ensures r == None <==> input != "" && (ParseInt(input).None? || ParseInt(input).value < 0 || ParseInt(input).value > columnCount)
  {
    var value := ParseInt(input);
    if value.Some? && 0 <= value.value <= columnCount then Some(value)
    else if input == "" then Some(None)
    else None
  }

  // ---------------------------------------------------------------------
  // The page session
  // ---------------------------------------------------------------------

  class Session {
    const host: Host
    var allData: seq<Record>
    var headers: seq<string>
    var highlightedColumn: Option<string>
    /** The `.data-view` element, which shows load errors. */
    var status: View
    var showAllView: View
    var filterView: View
    var sortView: View
    var limitView: View
    var summaryView: View

    /** The headers are the keys of the first record whenever there is one. */
    ghost predicate Valid()
      reads this
    {
      |allData| > 0 ==> headers == allData[0].keys
    }

    /** The page before any data has arrived. */
    constructor(host: Host)
      ensures Valid()
      ensures this.host == host && allData == [] && headers == [] && highlightedColumn == None
      ensures status == Blank && showAllView == Blank && filterView == Blank && sortView == Blank
      ensures limitView == Blank && summaryView == Blank
    {
      this.host := host;
      allData := [];
      headers := [];
      highlightedColumn := None;
      status := Blank;
      showAllView := Blank;
      filterView := Blank;
      sortView := Blank;
      limitView := Blank;
      summaryView := Blank;
    }

    /**
     * The dataset has arrived. An empty dataset is stored, reported with the
     * no-data message and leaves headers and views as they were; otherwise
     * the headers become the keys of the first record, the four table views
     * show every record with every column, and the summary is rebuilt.
     */
    method Load(data: seq<Record>)
      requires Valid()
      modifies this
      ensures Valid()
      ensures allData == data && highlightedColumn == old(highlightedColumn)
      ensures data == [] ==> status == Message(NoDataMessage) && headers == old(headers)
      ensures data == [] ==> showAllView == old(showAllView) && filterView == old(filterView) && sortView == old(sortView)
      ensures data == [] ==> limitView == old(limitView) && summaryView == old(summaryView)
      ensures data != [] ==> headers == data[0].keys && status == old(status)
      ensures data != [] ==> showAllView == RenderTable(headers, data, None, None)
      ensures data != [] ==> filterView == showAllView && sortView == showAllView && limitView == showAllView
      ensures data != [] ==> summaryView == RenderSummary(host, headers, data)
    {
      allData := data;
      if |data| == 0 {
        status := Message(NoDataMessage);
        return;
      }
      headers := data[0].keys;
      var all := RenderTable(headers, allData, None, None);
      showAllView := all;
      filterView := all;
      sortView := all;
      limitView := all;
      DisplaySummary();
    }

    /** Loading failed with `reason`; only the status view changes. */
    method LoadFailed(reason: string)
      requires Valid()
      modifies this
      ensures Valid()
      ensures status == Message("Error loading data: " + reason)
      ensures allData == old(allData) && headers == old(headers) && highlightedColumn == old(highlightedColumn)
      ensures showAllView == old(showAllView) && filterView == old(filterView) && sortView == old(sortView)
      ensures limitView == old(limitView) && summaryView == old(summaryView)
    {
      status := Message("Error loading data: " + reason);
    }

    /** "Show all": clears the highlight and shows every record with every column. */
    method ShowAll()
      requires Valid()
      modifies this
      ensures Valid()
      ensures highlightedColumn == None
      ensures showAllView == RenderTable(headers, allData, None, None)
      ensures allData != [] ==> showAllView.Table? && showAllView.columns == allData[0].keys && showAllView.rows == allData
      ensures allData == old(allData) && headers == old(headers) && status == old(status)
      ensures filterView == old(filterView) && sortView == old(sortView)
      ensures limitView == old(limitView) && summaryView == old(summaryView)
    {
      highlightedColumn := None;
      showAllView := RenderTable(headers, allData, None, None);
    }

    /**
     * The filter text or column changed: the filter view shows the records
     * of the whole dataset matching `text` in `column`, under the limit box's
     * value, and `column` becomes the highlighted column.
     */
    method FilterAndRender(text: string, column: string, limitInput: string)
      requires Valid()
      modifies this
      ensures Valid()
      ensures highlightedColumn == Some(column)
      ensures filterView == RenderTable(headers, FilterRows(host, allData, column, text), LimitFromInput(limitInput), Some(column))
      ensures allData == old(allData) && headers == old(headers) && status == old(status)
      ensures showAllView == old(showAllView) && sortView == old(sortView)
      ensures limitView == old(limitView) && summaryView == old(summaryView)
    {
      filterView := RenderTable(headers, FilterRows(host, allData, column, text), LimitFromInput(limitInput), Some(column));
      highlightedColumn := Some(column);
    }

    /**
     * The sort column or direction changed. With no column selected nothing
     * happens. Otherwise a sorted copy of the filtered records is shown in
     * the sort view and returned: a permutation of them, with the records
     * whose key is null at the end in their filtered order, ordered by the
     * comparator, with tied records in their filtered order, when the
     * column is numeric, or textual under a collating `localeCompare`. The
     * dataset itself is left as it was.
     */
    method SortAndRender(column: string, direction: string, filterText: string, filterColumn: string, limitInput: string)
      returns (sorted: seq<Record>)
      requires Valid()
      modifies this
      ensures Valid()
      ensures allData == old(allData) && headers == old(headers) && status == old(status)
      ensures showAllView == old(showAllView) && filterView == old(filterView)
      ensures limitView == old(limitView) && summaryView == old(summaryView)
      ensures column == "" ==> sorted == [] && sortView == old(sortView) && highlightedColumn == old(highlightedColumn)
      ensures column != "" ==> highlightedColumn == Some(column)
      ensures column != "" ==> sortView == RenderTable(headers, sorted, LimitFromInput(limitInput), Some(column))
      ensures column != "" ==> IsSortOf(host, FilterRows(host, allData, filterColumn, filterText), column, direction, sorted)
    {
      if column == "" {
        return [];
      }
      sorted := SortRows(host, FilterRows(host, allData, filterColumn, filterText), column, direction);
      highlightedColumn := Some(column);
      sortView := RenderTable(headers, sorted, LimitFromInput(limitInput), highlightedColumn);
    }

    /**
     * The limit box changed: a whole number in `0..|headers|` limits the
     * columns of the filtered records, an empty box shows all columns, and
     * any other input leaves the limit view as it was.
     */
    method RenderLimitedTable(limitInput: string, filterText: string, filterColumn: string)
      requires Valid()
      modifies this
      ensures Valid()
      ensures LimitViewLimit(limitInput, |headers|).None? ==> limitView == old(limitView)
      ensures LimitViewLimit(limitInput, |headers|).Some? ==>
        limitView == RenderTable(headers, FilterRows(host, allData, filterColumn, filterText),
                                 LimitViewLimit(limitInput, |headers|).value, highlightedColumn)
      ensures allData == old(allData) && headers == old(headers) && status == old(status)
      ensures highlightedColumn == old(highlightedColumn)
      ensures showAllView == old(showAllView) && filterView == old(filterView)
      ensures sortView == old(sortView) && summaryView == old(summaryView)
    {
      var value := ParseInt(limitInput);
      var rows := FilterRows(host, allData, filterColumn, filterText);
      if value.Some? && 0 <= value.value <= |headers| {
        limitView := RenderTable(headers, rows, value, highlightedColumn);
      } else if limitInput == "" {
        limitView := RenderTable(headers, rows, None, highlightedColumn);
      }
    }

    /** Rebuilds the summary view from the whole dataset. */
    method DisplaySummary()
      requires Valid()
      modifies this
      ensures Valid()
      ensures summaryView == RenderSummary(host, headers, allData)
      ensures allData != [] ==> summaryView.SummaryTable? && summaryView.columns == allData[0].keys
      ensures allData == old(allData) && headers == old(headers) && status == old(status)
      ensures highlightedColumn == old(highlightedColumn)
      ensures showAllView == old(showAllView) && filterView == old(filterView)
      ensures sortView == old(sortView) && limitView == old(limitView)
    {
      if |allData| == 0 {
        summaryView := Message(NoSummaryMessage);
        return;
      }
      summaryView := SummaryTable(headers, SummaryRow(host, allData, headers));
    }
  }
}
