/**
 * The month-by-month playback of accident counts per state: grouping the
 * rows by `YYYY-MM` key, ordering the keys chronologically, the heading
 * that names the current month, and the play/pause and advance steps.
 */
module SimulationMap {
  import opened Optional
  import opened Seqs
  import opened Text
  import opened Sorting

  // ---------------------------------------------------------------------
  // Grouping by month
  // ---------------------------------------------------------------------

  /** A row of the monthly response: month key, state abbreviation and count. */
  datatype MonthRow = MonthRow(yearMonth: string, state: string, count: int)

  /** The month table: month key, then state, to count. */
  type MonthTable = map<string, map<string, int>>

  /** The month keys of the rows, in row order, repeats included. */
  function MonthsOf(rows: seq<MonthRow>): (ms: seq<string>)
    ensures |ms| == |rows| && forall i :: 0 <= i < |rows| ==> ms[i] == rows[i].yearMonth
  {
    seq(|rows|, i requires 0 <= i < |rows| => rows[i].yearMonth)
  }

  /** The table the rows build: each row writes its count at its month and state, later rows overwriting earlier ones. */
  function Grouped(rows: seq<MonthRow>): MonthTable {
    if rows == [] then map[]
    else
      var t := Grouped(rows[..|rows| - 1]);
      var row := rows[|rows| - 1];
      var inner := if row.yearMonth in t then t[row.yearMonth] else map[];
      t[row.yearMonth := inner[row.state := row.count]]
  }

  /** The table has an entry for exactly the months that occur in the rows. */
  lemma {:induction false} GroupedMonths(rows: seq<MonthRow>)
    ensures forall k :: k in Grouped(rows) <==> k in MonthsOf(rows)
  {
    if rows != [] {
      var init := rows[..|rows| - 1];
      GroupedMonths(init);
      assert MonthsOf(rows) == MonthsOf(init) + [rows[|rows| - 1].yearMonth];
    }
  }

  /** Each cell holds the count of the last row for that month and state. */
  lemma {:induction false} GroupedLastWins(rows: seq<MonthRow>, i: nat)
    requires i < |rows|
    requires forall j :: i < j < |rows| ==> !(rows[j].yearMonth == rows[i].yearMonth && rows[j].state == rows[i].state)
    ensures rows[i].yearMonth in Grouped(rows)
    ensures rows[i].state in Grouped(rows)[rows[i].yearMonth]
    ensures Grouped(rows)[rows[i].yearMonth][rows[i].state] == rows[i].count
  {
    var n := |rows| - 1;
    if i < n {
      var init := rows[..n];
      assert init[i] == rows[i];
      forall j | i < j < |init| ensures !(init[j].yearMonth == init[i].yearMonth && init[j].state == init[i].state) {
        assert init[j] == rows[j];
      }
      GroupedLastWins(init, i);
    }
  }

  /**
   * The grouping loop: fills the month table and the set of month keys,
   * which lists each month once, in order of first appearance.
   */
  method Group(rows: seq<MonthRow>) returns (table: MonthTable, months: seq<string>)
    ensures table == Grouped(rows)
    ensures months == Distinct(MonthsOf(rows))
  {
    table := map[];
    months := [];
    var i := 0;
    while i < |rows|
      invariant 0 <= i <= |rows|
      invariant table == Grouped(rows[..i])
      invariant months == Distinct(MonthsOf(rows[..i]))
    {
      var row := rows[i];
      GroupStep(rows, i);
      var inner: map<string, int> := map[];
      if row.yearMonth in table {
        inner := table[row.yearMonth];
      } else {
        months := months + [row.yearMonth];
      }
      table := table[row.yearMonth := inner[row.state := row.count]];
      i := i + 1;
    }
    assert rows[..i] == rows;
  }

  /** What one more row does to the table and to the month list. */
  lemma GroupStep(rows: seq<MonthRow>, i: nat)
    requires i < |rows|
    ensures var t, ym := Grouped(rows[..i]), rows[i].yearMonth;
      Grouped(rows[..i + 1]) == t[ym := (if ym in t then t[ym] else map[])[rows[i].state := rows[i].count]]
    ensures var ms, ym := MonthsOf(rows[..i]), rows[i].yearMonth;
      Distinct(MonthsOf(rows[..i + 1])) == if ym in Grouped(rows[..i]) then Distinct(ms) else Distinct(ms) + [ym]
  {
    assert rows[..i + 1][..i] == rows[..i];
    var ym := rows[i].yearMonth;
    assert Distinct(MonthsOf(rows[..i + 1])) == if ym in MonthsOf(rows[..i]) then Distinct(MonthsOf(rows[..i])) else Distinct(MonthsOf(rows[..i])) + [ym] by {
      assert MonthsOf(rows[..i + 1]) == MonthsOf(rows[..i]) + [ym];
      DistinctSnoc(MonthsOf(rows[..i]), ym);
    }
    assert ym in Grouped(rows[..i]) <==> ym in MonthsOf(rows[..i]) by {
      GroupedMonths(rows[..i]);
    }
  }

  /** The month list names every month of the table once and nothing else. */
  lemma MonthListMatchesTable(rows: seq<MonthRow>)
    ensures NoDups(Distinct(MonthsOf(rows)))
    ensures forall k :: k in Distinct(MonthsOf(rows)) <==> k in Grouped(rows)
  {
    GroupedMonths(rows);
  }

  // ---------------------------------------------------------------------
  // Chronological order of month keys
  // ---------------------------------------------------------------------

  /** `new Date(y, m)` reads a year from 0 to 99 as 1900 to 1999. */
  function FullYear(y: int): int {
    if 0 <= y <= 99 then 1900 + y else y
  }

  /** The year and month fields of a key split on '-'; a missing month field is NaN (None). */
  function KeyFields(key: string): (Option<int>, Option<int>) {
    var parts := Split(key, '-');
    (PartNumber(parts[0]), if |parts| >= 2 then PartNumber(parts[1]) else None)
  }

  /**
   * The position of the first day of the key's month on a month-by-month
   * time line, as `new Date(year, month - 1)` places it (month fields
   * outside 1..12 carry into the year); None when a field is NaN and the
   * date is invalid.
   */
  function MonthIndex(key: string): Option<int> {
    match KeyFields(key)
    case (Some(y), Some(m)) => Some(FullYear(y) * 12 + (m - 1))
    case _ => None
  }

  /**
   * The month comparator `+da - +db`: the sign of the difference of the two
   * dates; a comparison with an invalid date gives NaN, which the sort
   * treats as 0.
   */
  function MonthCompare(a: string, b: string): real {
    match (MonthIndex(a), MonthIndex(b))
    case (Some(x), Some(y)) => (x - y) as real
    case _ => 0.0
  }

  /** On keys that all denote valid dates, the comparator is a total preorder. */
  lemma MonthComparePreorder(keys: seq<string>)
    requires AllDated(keys)
    ensures PreorderOn(MonthCompare, keys)
  {
  }

  /** A permutation of a list without repeats has no repeats. */
  lemma PermutationNoDups<T>(a: seq<T>, b: seq<T>)
    requires multiset(a) == multiset(b) && NoDups(a)
    ensures NoDups(b)
  {
    forall i, j | 0 <= i < j < |b| ensures b[i] != b[j] {
      if b[i] == b[j] {
        assert b == b[..j] + [b[j]] + b[j + 1..];
        assert b[i] in b[..j];
        assert multiset(b)[b[i]] >= 2 by {
          assert b[..j] == b[..i] + [b[i]] + b[i + 1..j];
        }
        NoDupsCountAtMostOne(a, b[i]);
      }
    }
  }

  lemma {:induction false} NoDupsCountAtMostOne<T>(a: seq<T>, x: T)
    requires NoDups(a)
    ensures multiset(a)[x] <= 1
  {
    if a != [] {
      var init := a[..|a| - 1];
      assert a == init + [a[|a| - 1]];
      NoDupsCountAtMostOne(init, x);
      if a[|a| - 1] == x {
        assert x !in init;
      }
    }
  }

  /**
   * The sorted month list: a permutation of the month set, without repeats,
   * in chronological order whenever every key denotes a valid date.
   */
  method SortMonths(months: seq<string>) returns (sorted: seq<string>)
    requires NoDups(months)
    ensures multiset(sorted) == multiset(months)
    ensures NoDups(sorted)
    ensures AllDated(months) ==> Chronological(sorted)
  {
    sorted := SortCopy(months, MonthCompare, (k: string) => false);
    PermutationNoDups(months, sorted);
    if AllDated(months) {
      MonthComparePreorder(months);
      SortedChronological(months, sorted);
    }
  }

  /** Every key denotes a valid date. */
  predicate AllDated(keys: seq<string>) {
    forall k :: k in keys ==> MonthIndex(k).Some?
  }

  /** Every key denotes a valid date, none later than the next. */
  predicate Chronological(keys: seq<string>) {
    forall i, j :: 0 <= i < j < |keys| ==>
      MonthIndex(keys[i]).Some? && MonthIndex(keys[j]).Some? && MonthIndex(keys[i]).value <= MonthIndex(keys[j]).value
  }

  lemma SortedChronological(months: seq<string>, sorted: seq<string>)
    requires AllDated(months) && multiset(sorted) == multiset(months) && Sorted(sorted, MonthCompare)
    ensures Chronological(sorted)
  {
    forall i, j | 0 <= i < j < |sorted|
      ensures MonthIndex(sorted[i]).Some? && MonthIndex(sorted[j]).Some? && MonthIndex(sorted[i]).value <= MonthIndex(sorted[j]).value
    {
      assert sorted[i] in multiset(months) && sorted[j] in multiset(months);
      assert MonthCompare(sorted[i], sorted[j]) <= 0.0;
    }
  }

  /**
   * `ms` is the month list of `rows`: a reordering of the month set, which
   * names each month of the table once and nothing else, in chronological
   * order whenever every key denotes a valid date.
   */
  ghost predicate IsMonthList(rows: seq<MonthRow>, ms: seq<string>) {
    && multiset(ms) == multiset(Distinct(MonthsOf(rows)))
    && NoDups(ms)
    && (forall k :: k in ms <==> k in Grouped(rows))
    && (AllDated(ms) ==> Chronological(ms))
  }

  /** Sorting the month set gives the month list. */
  lemma SortedIsMonthList(rows: seq<MonthRow>, sorted: seq<string>)
    requires multiset(sorted) == multiset(Distinct(MonthsOf(rows))) && NoDups(sorted)
    requires AllDated(Distinct(MonthsOf(rows))) ==> Chronological(sorted)
    ensures IsMonthList(rows, sorted)
  {
    MonthListMatchesTable(rows);
    forall k ensures k in sorted <==> k in Distinct(MonthsOf(rows)) {
      assert k in multiset(sorted) <==> k in multiset(Distinct(MonthsOf(rows)));
    }
  }

  // ---------------------------------------------------------------------
  // The month heading
  // ---------------------------------------------------------------------

  const MonthNames: seq<string> := [
    "January", "February", "March", "April", "May", "June",
    "July", "August", "September", "October", "November", "December"
  ]

  /** The heading before any month is available. */
  const LoadingHeading := "Loading Data..."

  /** `sortedMonths[currentIndex] || null`: no key outside the list, and none for an empty key. */
  function CurrentMonthKey(months: seq<string>, index: int): (k: Option<string>)
    ensures k.Some? <==> 0 <= index < |months| && months[index] != ""
    ensures k.Some? ==> k.value == months[index]
  {
    if 0 <= index < |months| && months[index] != "" then Some(months[index]) else None
  }

  /**
   * The month heading: the loading text without a key, "<month name>
   * <year>" when the key's year and month fields are numbers and the
   * month is 1..12, and the key itself otherwise.
   */
  function MonthDisplay(key: Option<string>): string {
    match key
    case None => LoadingHeading
    case Some(k) =>
      match KeyFields(k)
      case (Some(year), Some(month)) =>
        if 1 <= month <= 12 then MonthNames[month - 1] + " " + IntToString(year) else k
      case _ => k
  }

  /** The two-digit month field of a `YYYY-MM` key. */
  function MonthField(m: int): (f: string)
    requires 1 <= m <= 12
    ensures |f| == 2 && AllDigits(f) && DigitsValue(f) == m
  {
    var f := if m < 10 then ['0', Digit(m)] else ['1', Digit(m - 10)];
    TwoDigitsValue(f);
    f
  }

  lemma TwoDigitsValue(f: string)
    requires |f| == 2 && AllDigits(f)
    ensures DigitsValue(f) == (f[0] as int - '0' as int) * 10 + (f[1] as int - '0' as int)
  {
    var a := f[..1];
    assert f[..|f| - 1] == a;
    assert a[..|a| - 1] == [];
    assert DigitsValue(a) == f[0] as int - '0' as int;
  }

  /** The `YYYY-MM` key of a year and a month. */
  function MonthKey(year: nat, m: int): string
    requires 1 <= m <= 12
  {
    NatToString(year) + "-" + MonthField(m)
  }

  /** The fields of a well-formed key read back as its year and month. */
  lemma KeyFieldsOfMonthKey(year: nat, m: int)
    requires 1 <= m <= 12
    ensures KeyFields(MonthKey(year, m)) == (Some(year), Some(m))
  {
    var y, f := NatToString(year), MonthField(m);
    assert '-' !in y by {
      forall i | 0 <= i < |y| ensures y[i] != '-' {
        assert IsDigit(y[i]);
      }
    }
    assert '-' !in f by {
      assert IsDigit(f[0]) && IsDigit(f[1]);
    }
    assert MonthKey(year, m) == y + ['-'] + f;
    SplitAtSeparator(y, '-', f);
    PartNumberOfDigits(y);
    PartNumberOfDigits(f);
  }

  /** A well-formed key is shown as its month's name followed by its year. */
  lemma DisplayOfMonthKey(year: nat, m: int)
    requires 1 <= m <= 12
    ensures MonthDisplay(Some(MonthKey(year, m))) == MonthNames[m - 1] + " " + NatToString(year)
  {
    KeyFieldsOfMonthKey(year, m);
  }

  /** A key whose month field is not 1..12 is shown as it is. */
  lemma DisplayVerbatim(k: string)
    requires KeyFields(k).1.None? || KeyFields(k).0.None? || !(1 <= KeyFields(k).1.value <= 12)
    ensures MonthDisplay(Some(k)) == k
  {
  }

  /** Well-formed keys with years from 100 on are in chronological order exactly when (year, month) is. */
  lemma MonthKeyOrder(y1: nat, m1: int, y2: nat, m2: int)
    requires 1 <= m1 <= 12 && 1 <= m2 <= 12 && y1 >= 100 && y2 >= 100
    ensures MonthIndex(MonthKey(y1, m1)).Some? && MonthIndex(MonthKey(y2, m2)).Some?
    ensures MonthIndex(MonthKey(y1, m1)).value <= MonthIndex(MonthKey(y2, m2)).value <==> y1 < y2 || (y1 == y2 && m1 <= m2)
  {
    MonthIndexOfMonthKey(y1, m1);
    MonthIndexOfMonthKey(y2, m2);
  }

  /** A well-formed key from year 100 on sits at position `year * 12 + month - 1` on the time line. */
  lemma MonthIndexOfMonthKey(year: nat, m: int)
    requires 1 <= m <= 12 && year >= 100
    ensures MonthIndex(MonthKey(year, m)) == Some(year * 12 + (m - 1))
  {
    KeyFieldsOfMonthKey(year, m);
  }

  // ---------------------------------------------------------------------
  // Playback
  // ---------------------------------------------------------------------

  /**
   * One step of the timer, given the number of months: to the next month,
   * or, past the last one, back to the first with playback stopped.
   */
  function Advanced(len: nat, index: int, playing: bool): (r: (int, bool))
    ensures index + 1 < len ==> r == (index + 1, playing)
    ensures index + 1 >= len ==> r == (0, false)
  {
    if index + 1 >= len then (0, false) else (index + 1, playing)
  }

  /** `n` timer steps in a row. */
  function AdvancedTimes(len: nat, n: nat, index: int, playing: bool): (int, bool) {
    if n == 0 then (index, playing)
    else
      var s := AdvancedTimes(len, n - 1, index, playing);
      Advanced(len, s.0, s.1)
  }

  /**
   * Played from the first month, the timer shows each month in turn and,
   * after the last, returns to the first month and stops.
   */
  lemma {:induction false} PlaybackPass(len: nat, n: nat)
    requires 0 < len && n <= len
    ensures n < len ==> AdvancedTimes(len, n, 0, true) == (n, true)
    ensures n == len ==> AdvancedTimes(len, n, 0, true) == (0, false)
  {
    if n > 0 {
      PlaybackPass(len, n - 1);
    }
  }

  /**
   * Played from the first month, after `n` timer steps the current key is
   * the `n`-th month of the list, and after a full pass it is the first
   * month again.
   */
  lemma PlaybackShowsMonth(months: seq<string>, n: nat)
    requires n <= |months| && months != [] && (forall k :: 0 <= k < |months| ==> months[k] != "")
    ensures n < |months| ==> CurrentMonthKey(months, AdvancedTimes(|months|, n, 0, true).0) == Some(months[n])
    ensures n == |months| ==> CurrentMonthKey(months, AdvancedTimes(|months|, n, 0, true).0) == Some(months[0])
  {
    PlaybackPass(|months|, n);
  }

  class SimulationPage {
    var monthlyData: MonthTable
    var sortedMonths: seq<string>
    var maxMonthlyCount: int
    var currentIndex: int
    var isPlaying: bool
    var isLoading: bool

    /** The index is a position in the month list, or 0 while the list is empty. */
    ghost predicate Valid()
      reads this
    {
      0 <= currentIndex && (currentIndex < |sortedMonths| || currentIndex == 0)
    }

    constructor()
      ensures Valid()
      ensures monthlyData == map[] && sortedMonths == [] && maxMonthlyCount == 0
      ensures currentIndex == 0 && !isPlaying && isLoading
    {
      monthlyData := map[];
      sortedMonths := [];
      maxMonthlyCount := 0;
      currentIndex := 0;
      isPlaying := false;
      isLoading := true;
    }

    /**
     * The monthly counts arrived: they are grouped by month, the months
     * sorted, the maximum count taken (`Number(max_count) || 0`) and
     * playback put back at the first month.
     */
    method LoadMonthly(rows: seq<MonthRow>, maxCount: Option<int>)
      modifies this
      ensures Valid()
      ensures monthlyData == Grouped(rows)
      ensures IsMonthList(rows, sortedMonths)
      ensures maxMonthlyCount == maxCount.GetOr(0)
      ensures currentIndex == 0 && !isLoading && isPlaying == old(isPlaying)
    {
      var table, months := Group(rows);
      var sorted := SortMonths(months);
      SortedIsMonthList(rows, sorted);
      monthlyData := table;
      sortedMonths := sorted;
      maxMonthlyCount := maxCount.GetOr(0);
      currentIndex := 0;
      isLoading := false;
    }

    /** The response was invalid or the request failed: loading ends and nothing else changes. */
    method LoadFailed()
      requires Valid()
      modifies this
      ensures Valid()
      ensures !isLoading
      ensures monthlyData == old(monthlyData) && sortedMonths == old(sortedMonths) && maxMonthlyCount == old(maxMonthlyCount)
      ensures currentIndex == old(currentIndex) && isPlaying == old(isPlaying)
    {
      isLoading := false;
    }

    /** `advanceMonth`: one timer step over the month list. */
    method AdvanceMonth()
      requires Valid()
      modifies this
      ensures Valid()
      ensures (currentIndex, isPlaying) == Advanced(|sortedMonths|, old(currentIndex), old(isPlaying))
      ensures |sortedMonths| > 0 ==> 0 <= currentIndex < |sortedMonths|
      ensures monthlyData == old(monthlyData) && sortedMonths == old(sortedMonths)
      ensures maxMonthlyCount == old(maxMonthlyCount) && isLoading == old(isLoading)
    {
      var next := currentIndex + 1;
      if next >= |sortedMonths| {
        isPlaying := false;
        currentIndex := 0;
      } else {
        currentIndex := next;
      }
    }

    /**
     * The play/pause button: paused on the last month of a non-empty list,
     * it restarts from the first month; otherwise it toggles playback.
     */
    method PlayPause()
      requires Valid()
      modifies this
      ensures Valid()
      ensures !old(isPlaying) && old(currentIndex) == |sortedMonths| - 1 && |sortedMonths| > 0 ==>
        currentIndex == 0 && isPlaying
      ensures !(!old(isPlaying) && old(currentIndex) == |sortedMonths| - 1 && |sortedMonths| > 0) ==>
        currentIndex == old(currentIndex) && isPlaying == !old(isPlaying)
      ensures monthlyData == old(monthlyData) && sortedMonths == old(sortedMonths)
      ensures maxMonthlyCount == old(maxMonthlyCount) && isLoading == old(isLoading)
    {
      if !isPlaying && currentIndex == |sortedMonths| - 1 && |sortedMonths| > 0 {
        currentIndex := 0;
        isPlaying := true;
      } else {
        isPlaying := !isPlaying;
      }
    }

    /** The month heading: "Loading..." while loading, otherwise the current month's display. */
    function Heading(): (h: string)
      reads this
      ensures isLoading ==> h == "Loading..."
      ensures !isLoading && |sortedMonths| == 0 ==> h == LoadingHeading
      ensures !isLoading ==> h == MonthDisplay(CurrentMonthKey(sortedMonths, currentIndex))
    {
      if isLoading then "Loading..." else MonthDisplay(CurrentMonthKey(sortedMonths, currentIndex))
    }

    /**
     * The count shown in a state's pop-up: its count for the current month,
     * or 0 when there is no current month, the state has no abbreviation,
     * or the month has no count for it.
     */
    function PopupCount(abbr: Option<string>): (c: int)
      reads this
      ensures CurrentMonthKey(sortedMonths, currentIndex).None? || abbr.None? || abbr.value == "" ==> c == 0
      ensures (var key := CurrentMonthKey(sortedMonths, currentIndex);
               key.Some? && (key.value !in monthlyData || (abbr.Some? && abbr.value !in monthlyData[key.value])) ==> c == 0)
      ensures (var key := CurrentMonthKey(sortedMonths, currentIndex);
               key.Some? && abbr.Some? && abbr.value != "" && key.value in monthlyData && abbr.value in monthlyData[key.value]
               ==> c == monthlyData[key.value][abbr.value])
    {
      match CurrentMonthKey(sortedMonths, currentIndex)
      case None => 0
      case Some(key) =>
        if abbr.None? || abbr.value == "" || key !in monthlyData || abbr.value !in monthlyData[key] then 0
        else monthlyData[key][abbr.value]
    }
  }
}
