# Accident dashboards: table view, state heat map, month-by-month playback

This project is a Dafny model of three front-end pages of a US road-accident dashboard.

- **The accident table page** (`GroupProjectMilestone2/landing.js`) loads a JSON array of accident records. It shows them in five views:
  - "show all";
  - a case-insensitive substring filter on one column;
  - a sort on one column, with null keys last and numbers compared as numbers;
  - a column-limited table;
  - a one-row summary of each column's distinct values.

  Its module-level state (dataset, headers, highlighted column) and the content of each view are the fields of the class `TableSession.Session`. Each event handler is a method. The pure rules live in `TableEngine`:
  - the filter;
  - the comparator and the sort;
  - the column limit;
  - the summary.
- **The state heat map** (`front-end/src/pages/StateMap.tsx`) has the following parts:
  - an eight-tier colour scale;
  - the per-state and per-county count dictionaries built from API rows;
  - the percentage slider, which adjusts the selected state's count;
  - the "Set", "Reset to Original" and "Back" buttons;
  - the county side panel (total and top ten).

  The component state is the class `StateMap.StateMapPage`.
- **The playback map** (`front-end/src/pages/SimulationMap.tsx`) has the following parts:
  - grouping of monthly rows by `YYYY-MM` key;
  - the chronological sort of the keys;
  - the month heading;
  - the state pop-up count;
  - the timer step and the play/pause button.

  The component state is the class `SimulationMap.SimulationPage`.

Shared modules:
- `Seqs`: filter, subsequence, first-appearance de-duplication and sums.
- `Text`: the JavaScript whitespace trim, ASCII lower-casing, `includes`, `split`/`join`, `parseInt` and the digit-only `Number()`.
- `Sorting`: a copy-and-sort on an array. It is an insertion sort, proved to give a permutation. The elements the comparator sends last stay at the end in input order. Whenever the comparator is a total preorder on the input, the result is sorted and stable: elements the comparator ties keep their input order.
- `Optional`: the `Option` datatype.

## Model

| member | source | states |
|---|---|---|
| TableEngine.FilterRows | GroupProjectMilestone2/landing.js:166-176 | A blank (after lower-casing and trimming) filter text shows the whole dataset unchanged; otherwise the rows shown are an order-preserving subsequence of the dataset |
| TableEngine.FilterRowsExactly | GroupProjectMilestone2/landing.js:171-175 | A non-blank filter keeps every copy of each record whose lower-cased cell contains the query and no copy of any other record |
| TableEngine.FilterIdempotent | GroupProjectMilestone2/landing.js:191-195 | Re-filtering the filtered rows with the same column and text changes nothing (the sort and limit views re-filter the whole dataset with the same rule) |
| TableEngine.Comparator | GroupProjectMilestone2/landing.js:198-215 | The function handed to the sort agrees with the comparator `Compare` (null checks, then `KeyCompare` negated for "desc") on every pair of records |
| TableEngine.NullKey | GroupProjectMilestone2/landing.js:199-203 | Selects exactly the records whose key in the sort column is null or undefined |
| TableEngine.NullsLastEitherDirection | GroupProjectMilestone2/landing.js:201-203 | Two null keys compare equal, a null key goes after a non-null one and a non-null before a null, and this is the same in both directions |
| TableEngine.DescNegates | GroupProjectMilestone2/landing.js:205-214 | Between two non-null keys, "desc" negates the comparison and every other direction value leaves the key comparison as it is |
| TableEngine.KeyCompareCases | GroupProjectMilestone2/landing.js:205-212 | `KeyCompare`: when both keys coerce to numbers the comparison is their difference; otherwise it is `localeCompare` of the lower-cased texts |
| TableEngine.ComparatorSinksNulls | GroupProjectMilestone2/landing.js:199-203 | In either direction the comparator sends null-keyed records after all others |
| TableEngine.NumericCompare | GroupProjectMilestone2/landing.js:206-209 | In a numeric column the comparator is the difference of the numbers, reversed for "desc" |
| TableEngine.NumericColumnPreorder | GroupProjectMilestone2/landing.js:198-215 | On a column whose non-null keys are all numeric, the comparator is a total preorder in either direction |
| TableEngine.TextCompare | GroupProjectMilestone2/landing.js:210-214 | In a non-numeric column the comparator is the locale order of the lower-cased texts, negated for "desc" |
| TableEngine.CollationReversed | GroupProjectMilestone2/landing.js:211-214 | Under a collation (antisymmetric in sign and transitive), the reversed order is also total and transitive |
| TableEngine.TextColumnPreorder | GroupProjectMilestone2/landing.js:198-215 | On a column with no numeric key and a collating `localeCompare`, the comparator is a total preorder in either direction |
| TableEngine.SortRows | GroupProjectMilestone2/landing.js:197-215 | The sorted copy is a permutation of the rows. Null-keyed rows come last, in their original order. The rest follow the comparator on a numeric column, or on a text column under a collating `localeCompare`, and there records with tied keys keep their original order (the sort is stable) |
| TableEngine.DisplayedHeaders | GroupProjectMilestone2/landing.js:115-118 | The displayed headers are the first `n` headers when `n` is between 0 and the number of headers, and all of them otherwise (null or NaN limit included) |
| TableEngine.DisplayedHeadersIdempotent | GroupProjectMilestone2/landing.js:115-118 | Applying the same column limit twice is applying it once |
| TableEngine.LimitFromInput | GroupProjectMilestone2/landing.js:178 | An empty limit box is no limit; any other input is `parseInt(input, 10)`, NaN meaning no limit |
| TableEngine.ColumnValues | GroupProjectMilestone2/landing.js:269 | The non-null values of a column: each comes from some record, and every record's non-null value is present |
| TableEngine.UniqueValues | GroupProjectMilestone2/landing.js:269 | The distinct non-null values of a column: no repeats, each comes from some record, and every record's non-null value appears |
| TableEngine.UniqueValuesFirstAppearance | GroupProjectMilestone2/landing.js:269 | The distinct values keep the order in which each first appears in the column (`[...new Set(...)]`) |
| TableEngine.Texts | GroupProjectMilestone2/landing.js:271 | Each value is turned into text with `String(v)`, position by position |
| TableEngine.SummaryRow | GroupProjectMilestone2/landing.js:266-273 | One summary cell per header, each the ", "-joined distinct values of that column over the whole dataset |
| TableSession.SeverityAsWrittenMissesLevelFour | GroupProjectMilestone2/landing.js:148-153 | `SeverityClassesAsWritten` is the test as written. With it, level "4" gets no severity class and level "3" gets both the high and the extreme class |
| TableSession.SeverityClasses | GroupProjectMilestone2/landing.js:148-153 | Corrected: text outside "1".."4" gets no severity class, and level k gets exactly the k-th class (low, medium, high, extreme) |
| TableSession.SeverityClassesInjective | GroupProjectMilestone2/landing.js:148-153 | Different severity levels get different classes |
| TableSession.CellClassesAgreeOutsideDuplicate | GroupProjectMilestone2/landing.js:148-153 | Outside levels "3" and "4" of the `Severity` column, a cell's severity classes are exactly those of the test as written |
| TableSession.CellClasses | GroupProjectMilestone2/landing.js:141-153 | A body cell gets `trueCell`, `falseCell`, `dayCell` and `nightCell` exactly for the texts "true", "false", "Day" and "Night". It is highlighted exactly in the highlighted column. It gets severity classes only in the `Severity` column, from the corrected mapping `SeverityClasses` |
| TableSession.BodyCell | GroupProjectMilestone2/landing.js:137-157 | The cell in row i and column j shows the record's field text, with null or undefined shown as empty, and carries that cell's classes (`CellClasses`) |
| TableSession.RenderTable | GroupProjectMilestone2/landing.js:107-161 | Empty data gives the no-data message. Otherwise the table shows every record in order under a prefix of the headers, of the length the column-limit rule gives, with the given highlight |
| TableSession.RenderSummary | GroupProjectMilestone2/landing.js:245-278 | An empty dataset gives the no-summary message; otherwise one column per header, each cell the joined distinct values |
| TableSession.LimitViewLimit | GroupProjectMilestone2/landing.js:226-238 | A parsed limit in `0..columns` is used, an empty box means all columns, and any other input (NaN or out of range) leaves the view unchanged; both directions of each case |
| TableSession.Session.constructor | GroupProjectMilestone2/landing.js:1-5 | The page starts with no data, no headers, no highlighted column and blank views |
| TableSession.Session.Load | GroupProjectMilestone2/landing.js:22-46 | The dataset is stored. If it is empty, the no-data message is shown and nothing else changes. Otherwise the headers become the first record's keys, the four table views show everything and the summary is rebuilt |
| TableSession.Session.LoadFailed | GroupProjectMilestone2/landing.js:47-50 | Only the status view changes, to "Error loading data: " followed by the reason |
| TableSession.Session.ShowAll | GroupProjectMilestone2/landing.js:53-56 | Clears the highlight and shows all records with all columns; every other view is unchanged |
| TableSession.Session.FilterAndRender | GroupProjectMilestone2/landing.js:166-181 | The filter view shows the filtered rows under the limit box's value, the filter column becomes highlighted, and nothing else changes |
| TableSession.Session.SortAndRender | GroupProjectMilestone2/landing.js:186-220 | With no sort column nothing changes. Otherwise the sort view shows a sorted copy of the filtered rows (the sort contract above), the sort column becomes highlighted, and the dataset is left unchanged |
| TableSession.Session.RenderLimitedTable | GroupProjectMilestone2/landing.js:225-239 | The limit view follows the limit-box rule over the filtered rows with the current highlight, or is left as it was; nothing else changes |
| TableSession.Session.DisplaySummary | GroupProjectMilestone2/landing.js:245-278 | Only the summary view changes, to the summary of the whole dataset |
| StateMap.PaletteDescending | front-end/src/pages/StateMap.tsx:37-46 | The thresholds of the colour scale strictly decrease from 2,000,000 to 0 |
| StateMap.TierIndex | front-end/src/pages/StateMap.tsx:97-104 | The chosen tier is the first whose threshold the count strictly exceeds, or the last one when there is none |
| StateMap.GetColor | front-end/src/pages/StateMap.tsx:97-104 | The scanning loop returns the colour of that tier |
| StateMap.TierMonotone | front-end/src/pages/StateMap.tsx:97-104 | A larger count never gets a lighter tier |
| StateMap.ColorBounds | front-end/src/pages/StateMap.tsx:97-104 | Counts of 0 or less get "#FFEDA0", and every colour comes from the scale |
| StateMap.KeptKeys | front-end/src/pages/StateMap.tsx:66-68 | A key is listed exactly when some row has it as a non-empty key |
| StateMap.TalliedKeys | front-end/src/pages/StateMap.tsx:65-68 | `Tallied` is the dictionary the loop builds. Its keys are exactly the non-empty row keys |
| StateMap.TalliedLastWins | front-end/src/pages/StateMap.tsx:66-68 | Each key holds the count (`Number(count)`, or 0 when that is NaN or 0) of the last row with that key |
| StateMap.Tally | front-end/src/pages/StateMap.tsx:230-233 | The loop builds that dictionary, its keys in order of first write |
| StateMap.Adjusted | front-end/src/pages/StateMap.tsx:110-114 | The adjusted count is the whole number nearest to `base * (1 + p/100)`, with halves rounded up |
| StateMap.AdjustedExactCases | front-end/src/pages/StateMap.tsx:110-114 | 0% keeps the count, -100% gives 0, +100% doubles it |
| StateMap.AdjustedMonotone | front-end/src/pages/StateMap.tsx:374-379 | For a non-negative count, a higher slider setting never gives a smaller adjusted count |
| StateMap.CountyKey | front-end/src/pages/StateMap.tsx:249 | A county key is the state code followed by the county code |
| StateMap.CountyKeyInjective | front-end/src/pages/StateMap.tsx:249 | With state codes of one width, a county key determines both codes |
| StateMap.CountyValue | front-end/src/pages/StateMap.tsx:263-264 | A county shows its count, or 0 when the county data is missing or lacks the key |
| StateMap.Entries | front-end/src/pages/StateMap.tsx:415 | The entries list each key in dictionary order with its count |
| StateMap.TotalOrderFree | front-end/src/pages/StateMap.tsx:409 | `CountyTotal` is the sum of the county counts. That total does not depend on the order the counts are listed in |
| StateMap.ByCountDescPreorder | front-end/src/pages/StateMap.tsx:416 | The comparator `b - a` on counts is a total preorder |
| StateMap.TopCounties | front-end/src/pages/StateMap.tsx:414-417 | The county list has ten entries, or all of them when there are fewer. They run from the largest count down. Each entry comes from the dictionary, and no entry left out has a larger count than one shown |
| StateMap.StateMapPage.constructor | front-end/src/pages/StateMap.tsx:17-25 | The page keeps the bundled sample counts and starts from them, with no selection, a 0% slider and no county data |
| StateMap.StateMapPage.LoadStateCounts | front-end/src/pages/StateMap.tsx:63-72 | A non-empty dictionary replaces both the original and the modified counts; an empty one changes nothing |
| StateMap.StateMapPage.StateCountsFailed | front-end/src/pages/StateMap.tsx:73-84 | A failed fetch puts back the sample counts the page started from, as both the original and the modified counts |
| StateMap.StateMapPage.SelectState | front-end/src/pages/StateMap.tsx:196-219 | Clicking a state selects it, resets the slider to 0 and starts loading its counties with the county data cleared |
| StateMap.StateMapPage.LoadCountyCounts | front-end/src/pages/StateMap.tsx:229-240 | The county dictionary is the tally of the rows, and loading ends |
| StateMap.StateMapPage.CountyCountsFailed | front-end/src/pages/StateMap.tsx:236-241 | Loading ends and the county data stays cleared |
| StateMap.StateMapPage.SetAdjustment | front-end/src/pages/StateMap.tsx:374-379 | The slider value is stored and stays within -100..100 |
| StateMap.StateMapPage.AdjustedAccidentCount | front-end/src/pages/StateMap.tsx:110-114 | 0 without a selection. Otherwise the adjusted original count of the selected state, with a missing count read as 0 |
| StateMap.StateMapPage.ApplyAdjustment | front-end/src/pages/StateMap.tsx:119-124 | "Set" writes the adjusted count under the selected state, and every other state's modified count is unchanged; with no selection nothing changes |
| StateMap.StateMapPage.ResetToOriginal | front-end/src/pages/StateMap.tsx:397-400 | The selected state's modified count returns to its original count (0 if missing), the slider returns to 0, and other states are unchanged |
| StateMap.StateMapPage.Back | front-end/src/pages/StateMap.tsx:314-318 | The selection and the county data are dropped and loading ends |
| StateMap.StateMapPage.StateColor | front-end/src/pages/StateMap.tsx:130-134 | "#FFEDA0" without a selection, otherwise the colour of the selected state's modified count |
| SimulationMap.MonthsOf | front-end/src/pages/SimulationMap.tsx:143 | The month key of each row, position by position |
| SimulationMap.GroupedMonths | front-end/src/pages/SimulationMap.tsx:140-149 | The month table has an entry for exactly the months that occur in the rows |
| SimulationMap.GroupedLastWins | front-end/src/pages/SimulationMap.tsx:148 | Each (month, state) cell holds the count of the last row for that pair |
| SimulationMap.Group | front-end/src/pages/SimulationMap.tsx:140-149 | The grouping loop builds that table and the month set, in order of first appearance |
| SimulationMap.MonthListMatchesTable | front-end/src/pages/SimulationMap.tsx:141-147 | The month set has no repeats and names exactly the months of the table |
| SimulationMap.MonthComparePreorder | front-end/src/pages/SimulationMap.tsx:152-158 | On keys that are all valid dates, `+da - +db` is a total preorder |
| SimulationMap.SortMonths | front-end/src/pages/SimulationMap.tsx:152-158 | The sorted list is a permutation of the month set without repeats, in chronological order whenever every key is a valid date |
| SimulationMap.SortedIsMonthList | front-end/src/pages/SimulationMap.tsx:152-162 | The sorted month set is the page's month list: no repeats, exactly the table's months, chronological when all are dated |
| SimulationMap.CurrentMonthKey | front-end/src/pages/SimulationMap.tsx:78 | There is a current key exactly when the index is inside the list and the key there is not empty |
| SimulationMap.MonthField | front-end/src/pages/SimulationMap.tsx:153 | The two-digit month field reads back as the month |
| SimulationMap.KeyFieldsOfMonthKey | front-end/src/pages/SimulationMap.tsx:82-84 | Splitting a well-formed `YYYY-MM` key on '-' and converting the parts gives back its year and month |
| SimulationMap.DisplayOfMonthKey | front-end/src/pages/SimulationMap.tsx:80-89 | A well-formed key is shown as its month name, a space and its year |
| SimulationMap.DisplayVerbatim | front-end/src/pages/SimulationMap.tsx:85-88 | A key with a NaN field or a month outside 1..12 is shown as it is |
| SimulationMap.MonthIndexOfMonthKey | front-end/src/pages/SimulationMap.tsx:155-156 | A well-formed key from year 100 on sits at month `year * 12 + month - 1` of the time line |
| SimulationMap.MonthKeyOrder | front-end/src/pages/SimulationMap.tsx:152-158 | Well-formed keys from year 100 on are chronologically ordered exactly when (year, month) is |
| SimulationMap.Advanced | front-end/src/pages/SimulationMap.tsx:273-285 | One timer step goes to the next month, or past the last one back to the first with playback stopped |
| SimulationMap.PlaybackShowsMonth | front-end/src/pages/SimulationMap.tsx:78 | Played from the first month of a list of non-empty keys, after n timer steps the current key is the n-th month, and after a full pass it is the first month again |
| SimulationMap.PlaybackPass | front-end/src/pages/SimulationMap.tsx:273-316 | Played from the first month, the timer visits each month in turn and after the last returns to the first and stops |
| SimulationMap.SimulationPage.constructor | front-end/src/pages/SimulationMap.tsx:40-49 | The page starts loading, with an empty table and month list, index 0 and playback stopped |
| SimulationMap.SimulationPage.LoadMonthly | front-end/src/pages/SimulationMap.tsx:137-164 | Loading a valid response sets the following: the table is the grouped rows, the month list is the sorted month set, the maximum is `Number(max_count)`, or 0 when that is NaN, the index is 0, and loading ends |
| SimulationMap.SimulationPage.LoadFailed | front-end/src/pages/SimulationMap.tsx:131-135 | An invalid response or failed request ends loading and changes nothing else |
| SimulationMap.SimulationPage.AdvanceMonth | front-end/src/pages/SimulationMap.tsx:273-285 | The index and playing flag take one timer step and the index stays inside a non-empty list |
| SimulationMap.SimulationPage.PlayPause | front-end/src/pages/SimulationMap.tsx:331-339 | Paused on the last month of a non-empty list, it restarts from the first month; otherwise it toggles playback and keeps the index |
| SimulationMap.SimulationPage.Heading | front-end/src/pages/SimulationMap.tsx:355 | "Loading..." while loading. Otherwise the current month's display, which is "Loading Data..." when there is no month |
| SimulationMap.SimulationPage.PopupCount | front-end/src/pages/SimulationMap.tsx:258-262 | A state's pop-up shows its count for the current month. It shows 0 when there is no current month, no abbreviation, or no count for that state in that month |
| Seqs.KeepMembers | GroupProjectMilestone2/landing.js:172-175 | `Keep` is `Array.filter`. Everything it keeps comes from its input and satisfies the predicate |
| Seqs.KeepIsSubsequence | GroupProjectMilestone2/landing.js:172-175 | `Array.filter` returns an order-preserving subsequence of its input |
| Seqs.KeepCount | GroupProjectMilestone2/landing.js:172-175 | `Array.filter` keeps every copy of a satisfying value and none of any other |
| Seqs.KeepIdempotent | GroupProjectMilestone2/landing.js:172-175 | Filtering twice with one predicate is filtering once |
| Seqs.Distinct | GroupProjectMilestone2/landing.js:269 | `[...new Set(s)]` has no repeats and holds exactly the elements of `s` |
| Seqs.DistinctFirstOccurrenceOrder | GroupProjectMilestone2/landing.js:269 | `[...new Set(s)]` lists values in the order of their first occurrences |
| Seqs.SumPermutation | front-end/src/pages/StateMap.tsx:409 | A `reduce((a, b) => a + b, 0)` sum does not depend on the order of the summands |
| Sorting.SortCopy | GroupProjectMilestone2/landing.js:197-198 | `[...s].sort(cmp)` is a permutation of `s`. When `cmp` is a total preorder on `s`, it is sorted and stable: for each element, the elements tied with it come in their input order. Elements `cmp` always sends last stay at the end in input order |
| Text.TrimBlank | GroupProjectMilestone2/landing.js:167-171 | A trimmed filter text is empty exactly when every character is whitespace |
| Text.ToLowerIdempotent | GroupProjectMilestone2/landing.js:173 | Lower-casing twice is lower-casing once |
| Text.ParseIntRoundTrip | GroupProjectMilestone2/landing.js:178 | `parseInt` reads back every integer from its decimal text |
| Text.ParseIntOfDigits | GroupProjectMilestone2/landing.js:227 | `parseInt` of a digit string is its decimal value |
| Text.JoinSplit | front-end/src/pages/SimulationMap.tsx:153 | Joining the parts of `split(sep)` with `sep` gives back the text |
| Text.SplitAtSeparator | front-end/src/pages/SimulationMap.tsx:82 | Splitting `a-b`, where neither part holds '-', gives exactly the two parts |
| Text.PartNumberOfDigits | front-end/src/pages/SimulationMap.tsx:153 | `Number` of a digit string is its decimal value |

## Left out

- Network and file I/O (`fetch`, axios, the `data.json` request, the GeoJSON requests) are left out. Each response is a parameter of the method that handles it, and the abort and unmount guards are not modelled.
- DOM construction is left out, together with Leaflet and react-leaflet rendering, highlight styles, pop-up binding, map view changes and the legend. A view is modelled as the content it shows.
- `getDOMElements` and its missing-element logging are left out, because they are console output only.
- The `setInterval` timer and the `SPEED_MAP` speeds are left out. Only one timer step (`advanceMonth`) and runs of steps are modelled.
- The React ref mirrors and their one-render lag are left out. The model reads the state directly.
- SimulationMap's `getColorThresholds`/`getColor` are left out, because they scale thresholds by floating-point fractions of the monthly maximum.
- The per-person ratios and all `toLocaleString` formatting in StateMap are left out, because they are floating point and locale-dependent.
- StateMap.Adjusted: the count is modelled as a whole number and the adjustment as exact arithmetic. Floating-point rounding of `base * (1 + p / 100)` at exact halves is not modelled.
- The JSON number and string formats are left out. `Number(s)`, `String(n)` and `localeCompare` are parameters of the table engine (`TableEngine.Host`). `TableEngine.IsCollation` states what the sort proof needs from `localeCompare`.
- TableSession.CellClasses: the page model gives the `Severity` column the corrected four-level classes (`SeverityClasses`), not the test as written. It differs from the page only for "3", which the page gives both the high and the extreme class, and "4", which the page gives none (see Findings and `TableSession.CellClassesAgreeOutsideDuplicate`).
- TableSession.BodyCell: its classes are `CellClasses`, so it shows the corrected severity classes for the cells "3" and "4" of the `Severity` column.
- The table engine's `toLowerCase` is ASCII-only. Non-ASCII case mappings are not modelled.
- Text.PartNumber: `Number()` of a month-key part is modelled only for blank and all-digit text. Signs, decimals, exponents and hex parts read as NaN.
- SimulationMap.MonthIndex: the range limits of `Date` are not modelled. Neither is the engine-defined order of keys that are not valid dates, which the sort treats as equal.
- The `Object.keys`/`Object.entries` order for integer-like keys (ascending numeric order first) is not modelled. Keys keep their insertion order.
- The engine's sorting algorithm is not visible. `Sorting.SortCopy` models it as an insertion sort on a copy, proved stable.
- The undeclared `dataView` global used for an empty dataset is modelled as the status view. The old headers are left in place.
- A response that is not an array is not modelled. Rows are typed records.
- The bundled sample counts are a constructor parameter, kept as a constant of the page. The population table is left out.
- The "Recenter" buttons are left out, because they only move the map view.
- The speed selector is left out. It only picks the timer interval.

## Findings

| source | as written | input that shows it | evidently intended | confidence | as-written member | corrected member |
|---|---|---|---|---|---|---|
| GroupProjectMilestone2/landing.js:148-153 | The `Severity` column tests the text "3" twice, once for `highSeverityCell` and once for `extremeSeverityCell` | A cell "4" gets no severity class, and a cell "3" gets both the high and the extreme class | Four levels, "1" to "4", each with its own class, "4" being extreme | not executed | TableSession.SeverityAsWrittenMissesLevelFour | TableSession.SeverityClasses |
