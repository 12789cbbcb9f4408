/**
 * The accident heat map of US states: the colour scale, the per-state and
 * per-county count dictionaries built from the API rows, the percentage
 * adjustment of the selected state's count, and the county side panel.
 * Counts are whole numbers.
 */
module StateMap {
  import opened Optional
  import opened Seqs
  import opened Sorting

  // ---------------------------------------------------------------------
  // Colour scale
  // ---------------------------------------------------------------------

  /** A step of the colour scale: counts above `threshold` get `color`. */
  datatype Tier = Tier(threshold: int, color: string)

  /** The colour scale, from the highest threshold down to 0. */
  const Palette: seq<Tier> := [
    Tier(2000000, "#800026"),
    Tier(1000000, "#BD0026"),
    Tier(500000, "#E31A1C"),
    Tier(300000, "#FC4E2A"),
    Tier(200000, "#FD8D3C"),
    Tier(100000, "#FEB24C"),
    Tier(50000, "#FED976"),
    Tier(0, "#FFEDA0")
  ]

  /** The colour of the lowest tier, also used when there is nothing to colour. */
  const Lightest := "#FFEDA0"

  /** The thresholds strictly decrease along the scale. */
  lemma PaletteDescending()
    ensures forall i, j :: 0 <= i < j < |Palette| ==> Palette[i].threshold > Palette[j].threshold
  {
  }

  /**
   * The tier of `value`: the first one, scanning from the top, whose
   * threshold `value` strictly exceeds, or the last one when there is none.
   */
  function TierIndex(value: int): (k: nat)
    ensures k < |Palette|
    ensures forall i :: 0 <= i < k ==> value <= Palette[i].threshold
    ensures value > Palette[k].threshold || k == |Palette| - 1
  {
    if value > 2000000 then 0
    else if value > 1000000 then 1
    else if value > 500000 then 2
    else if value > 300000 then 3
    else if value > 200000 then 4
    else if value > 100000 then 5
    else if value > 50000 then 6
    else 7
  }

  /** The heat-map colour of a count. */
  function ColorOf(value: int): string {
    Palette[TierIndex(value)].color
  }

  /** `getColor`: scans the scale from the top and returns the first colour whose threshold `value` exceeds. */
  method GetColor(value: int) returns (color: string)
    ensures color == ColorOf(value)
  {
    var i := 0;
    while i < |Palette|
      invariant 0 <= i <= |Palette|
      invariant forall k :: 0 <= k < i ==> value <= Palette[k].threshold
    {
      if value > Palette[i].threshold {
        return Palette[i].color;
      }
      i := i + 1;
    }
    return Palette[|Palette| - 1].color;
  }

  /** A larger count never gets a lighter tier. */
  lemma TierMonotone(v: int, w: int)
    requires v <= w
    ensures TierIndex(w) <= TierIndex(v)
  {
  }

  /** Counts of 0 or less get the lightest colour; every colour comes from the scale. */
  lemma ColorBounds(value: int)
    ensures value <= 0 ==> ColorOf(value) == Lightest
    ensures exists k :: 0 <= k < |Palette| && ColorOf(value) == Palette[k].color
  {
    var k := TierIndex(value);
    assert ColorOf(value) == Palette[k].color;
  }

  // ---------------------------------------------------------------------
  // Count dictionaries
  // ---------------------------------------------------------------------

  /**
   * A row of an accident-count response: the key (`State` or `FIPS`), None
   * when missing, and `Number(AccidentCount)`, None when NaN.
   */
  datatype ApiRow = ApiRow(key: Option<string>, count: Option<int>)

  /** Rows with a missing or empty key are skipped. */
  predicate Kept(row: ApiRow) {
    row.key.Some? && row.key.value != ""
  }

  /** `Number(AccidentCount) || 0`. */
  function CountOf(row: ApiRow): int {
    row.count.GetOr(0)
  }

  /** The keys of the kept rows, in row order, repeats included. */
  function KeptKeys(rows: seq<ApiRow>): (r: seq<string>)
    ensures forall k :: k in r <==> exists i :: 0 <= i < |rows| && Kept(rows[i]) && rows[i].key.value == k
  {
    if rows == [] then []
    else
      var init := KeptKeys(rows[..|rows| - 1]);
      var last := rows[|rows| - 1];
      assert forall i :: 0 <= i < |rows| - 1 ==> rows[..|rows| - 1][i] == rows[i];
      if Kept(last) then init + [last.key.value] else init
  }

  /** The dictionary the rows build: each kept row writes its count under its key, later rows overwriting earlier ones. */
  function Tallied(rows: seq<ApiRow>): map<string, int> {
    if rows == [] then map[]
    else
      var m := Tallied(rows[..|rows| - 1]);
      var last := rows[|rows| - 1];
      if Kept(last) then m[last.key.value := CountOf(last)] else m
  }

  /** The keys of the dictionary are exactly the keys of the kept rows. */
  lemma {:induction false} TalliedKeys(rows: seq<ApiRow>)
    ensures Tallied(rows).Keys == set k | k in KeptKeys(rows)
  {
    if rows != [] {
      TalliedKeys(rows[..|rows| - 1]);
    }
  }

  /** Each key holds the count of the last kept row with that key. */
  lemma {:induction false} TalliedLastWins(rows: seq<ApiRow>, i: nat)
    requires i < |rows| && Kept(rows[i])
    requires forall j :: i < j < |rows| ==> !(Kept(rows[j]) && rows[j].key.value == rows[i].key.value)
    ensures rows[i].key.value in Tallied(rows) && Tallied(rows)[rows[i].key.value] == CountOf(rows[i])
  {
    var n := |rows| - 1;
    if i < n {
      var init := rows[..n];
      assert init[i] == rows[i];
      forall j | i < j < |init| ensures !(Kept(init[j]) && init[j].key.value == init[i].key.value) {
        assert init[j] == rows[j];
      }
      TalliedLastWins(init, i);
    }
  }

  /** A dictionary with its keys in insertion order, as `Object.keys` and `Object.entries` list them. */
  datatype Dict = Dict(order: seq<string>, counts: map<string, int>)

  /**
   * The processing loop over an accident-count response: fills a fresh
   * dictionary, row by row. A key keeps the position of its first write.
   */
  method Tally(rows: seq<ApiRow>) returns (d: Dict)
    ensures d.counts == Tallied(rows)
    ensures d.order == Distinct(KeptKeys(rows))
  {
    var order: seq<string> := [];
    var counts: map<string, int> := map[];
    var i := 0;
    while i < |rows|
      invariant 0 <= i <= |rows|
      invariant counts == Tallied(rows[..i])
      invariant order == Distinct(KeptKeys(rows[..i]))
    {
      var row := rows[i];
      assert rows[..i + 1][..i] == rows[..i];
      if row.key.Some? && row.key.value != "" {
        DistinctSnoc(KeptKeys(rows[..i]), row.key.value);
        if row.key.value !in order {
          order := order + [row.key.value];
        }
        counts := counts[row.key.value := CountOf(row)];
      }
      i := i + 1;
    }
    assert rows[..i] == rows;
    d := Dict(order, counts);
  }

  /** `dict[key] || 0`: a missing key reads as 0. */
  function Lookup(m: map<string, int>, key: string): int {
    if key in m then m[key] else 0
  }

  // ---------------------------------------------------------------------
  // Percentage adjustment
  // ---------------------------------------------------------------------

  /**
   * `Math.round(base * (1 + percent / 100))` in exact arithmetic: the whole
   * number nearest to `base * (100 + percent) / 100`, halves rounded up.
   */
  function Adjusted(base: int, percent: int): (r: int)
    ensures -50 < 100 * r - base * (100 + percent) <= 50
  {
    (base * (100 + percent) + 50) / 100
  }

  /** No adjustment keeps the count, -100% removes it, +100% doubles it. */
  lemma AdjustedExactCases(base: int)
    ensures Adjusted(base, 0) == base
    ensures Adjusted(base, -100) == 0
    ensures Adjusted(base, 100) == 2 * base
  {
    AdjustedOfMultiple(base, 100);
    AdjustedOfMultiple(base, 0);
    AdjustedOfMultiple(base, 200);
  }

  lemma AdjustedOfMultiple(base: int, f: int)
    ensures (base * f + 50) / 100 == base * f / 100 + (if (base * f) % 100 >= 50 then 1 else 0)
  {
  }

  /** For a non-negative count, a larger percentage never gives a smaller adjusted count. */
  lemma AdjustedMonotone(base: int, p: int, q: int)
    requires base >= 0 && p <= q
    ensures Adjusted(base, p) <= Adjusted(base, q)
  {
    assert base * (100 + p) <= base * (100 + q) by {
      assert base * (100 + q) - base * (100 + p) == base * (q - p);
    }
    DivMonotone(base * (100 + p) + 50, base * (100 + q) + 50);
  }

  lemma DivMonotone(x: int, y: int)
    requires x <= y
    ensures x / 100 <= y / 100
  {
  }

  // ---------------------------------------------------------------------
  // County side panel
  // ---------------------------------------------------------------------

  /** The FIPS key of a county: the state code followed by the county code. */
  function CountyKey(stateCode: string, countyCode: string): (k: string)
    ensures |k| == |stateCode| + |countyCode|
    ensures k[..|stateCode|] == stateCode && k[|stateCode|..] == countyCode
  {
    stateCode + countyCode
  }

  /** With state codes of one width, a county key determines both codes. */
  lemma CountyKeyInjective(s1: string, c1: string, s2: string, c2: string)
    requires |s1| == |s2| && CountyKey(s1, c1) == CountyKey(s2, c2)
    ensures s1 == s2 && c1 == c2
  {
    var k := CountyKey(s1, c1);
    assert s1 == k[..|s1|] && s2 == k[..|s2|];
  }

  /** The count shown for a county: its entry, or 0 when the data is missing or has no such key. */
  function CountyValue(data: Option<Dict>, stateCode: string, countyCode: string): (v: int)
    ensures data.None? ==> v == 0
    ensures data.Some? && CountyKey(stateCode, countyCode) !in data.value.counts ==> v == 0
    ensures data.Some? && CountyKey(stateCode, countyCode) in data.value.counts ==>
      v == data.value.counts[CountyKey(stateCode, countyCode)]
  {
    match data
    case None => 0
    case Some(d) => Lookup(d.counts, CountyKey(stateCode, countyCode))
  }

  /** A county and its count, as `Object.entries` lists them. */
  type Entry = (string, int)

  /** The entries of a dictionary in key order; keys missing from `counts` read as 0. */
  function Entries(d: Dict): (es: seq<Entry>)
    ensures |es| == |d.order|
    ensures forall i :: 0 <= i < |es| ==> es[i] == (d.order[i], Lookup(d.counts, d.order[i]))
  {
    seq(|d.order|, i requires 0 <= i < |d.order| => (d.order[i], Lookup(d.counts, d.order[i])))
  }

  /** The counts of a sequence of entries. */
  function Counts(es: seq<Entry>): (cs: seq<int>)
    ensures |cs| == |es| && forall i :: 0 <= i < |es| ==> cs[i] == es[i].1
  {
    seq(|es|, i requires 0 <= i < |es| => es[i].1)
  }

  /** "Total County Accidents": the sum of all county counts. */
  function CountyTotal(d: Dict): int {
    Sum(Counts(Entries(d)))
  }

  /** Any reordering of the entries has the same total. */
  lemma {:induction false} CountsPermutation(a: seq<Entry>, b: seq<Entry>)
    requires multiset(a) == multiset(b)
    ensures multiset(Counts(a)) == multiset(Counts(b))
    decreases |a|
  {
    if a != [] {
      var x := a[|a| - 1];
      var a' := a[..|a| - 1];
      assert a == a' + [x];
      assert x in multiset(b);
      var k :| 0 <= k < |b| && b[k] == x;
      var b' := b[..k] + b[k + 1..];
      assert multiset(a') == multiset(b') by {
        RemoveAtMultiset(b, k);
      }
      CountsPermutation(a', b');
      CountsRemoveAt(b, k);
      CountsSnoc(a', x);
    }
  }

  lemma CountsSnoc(a: seq<Entry>, x: Entry)
    ensures multiset(Counts(a + [x])) == multiset(Counts(a)) + multiset{x.1}
  {
    assert Counts(a + [x]) == Counts(a) + [x.1];
  }

  lemma CountsRemoveAt(b: seq<Entry>, k: nat)
    requires k < |b|
    ensures multiset(Counts(b)) == multiset(Counts(b[..k] + b[k + 1..])) + multiset{b[k].1}
  {
    var cs := Counts(b);
    assert Counts(b[..k] + b[k + 1..]) == cs[..k] + cs[k + 1..];
    RemoveAtMultiset(cs, k);
  }

  /** The total does not depend on the order the entries are listed in. */
  lemma TotalOrderFree(a: seq<Entry>, b: seq<Entry>)
    requires multiset(a) == multiset(b)
    ensures Sum(Counts(a)) == Sum(Counts(b))
  {
    CountsPermutation(a, b);
    SumPermutation(Counts(a), Counts(b));
  }

  /** Descending order of count: `(a, b) => b - a`. */
  function ByCountDesc(a: Entry, b: Entry): real {
    (b.1 - a.1) as real
  }

  lemma ByCountDescPreorder(es: seq<Entry>)
    ensures PreorderOn(ByCountDesc, es)
  {
  }

  /**
   * The county list: the entries sorted by count, largest first, and cut
   * to the first ten. It has ten entries, or all of them when there are
   * fewer; each comes from the dictionary, and no entry left out has a
   * larger count than one shown.
   */
  method TopCounties(d: Dict) returns (top: seq<Entry>)
    ensures |top| == if |d.order| < 10 then |d.order| else 10
    ensures forall i, j :: 0 <= i < j < |top| ==> top[i].1 >= top[j].1
    ensures multiset(top) <= multiset(Entries(d))
    ensures forall e, t :: e in multiset(Entries(d)) - multiset(top) && t in top ==> e.1 <= t.1
  {
    var es := Entries(d);
    ByCountDescPreorder(es);
    var sorted := SortCopy(es, ByCountDesc, (e: Entry) => false);
    var n := if |sorted| < 10 then |sorted| else 10;
    top := sorted[..n];
    PrefixOfSortedByCount(sorted, n);
  }

  /** A prefix of a list sorted by count, largest first, holds the largest counts. */
  lemma PrefixOfSortedByCount(sorted: seq<Entry>, n: nat)
    requires n <= |sorted| && Sorted(sorted, ByCountDesc)
    ensures forall i, j :: 0 <= i < j < n ==> sorted[..n][i].1 >= sorted[..n][j].1
    ensures multiset(sorted[..n]) <= multiset(sorted)
    ensures forall e, t :: e in multiset(sorted) - multiset(sorted[..n]) && t in sorted[..n] ==> e.1 <= t.1
  {
    SortedByCountDescending(sorted);
    PrefixDominates(sorted, n);
    SplitMultiset(sorted, n);
  }

  lemma SortedByCountDescending(s: seq<Entry>)
    requires Sorted(s, ByCountDesc)
    ensures forall i, j :: 0 <= i < j < |s| ==> s[i].1 >= s[j].1
  {
    forall i, j | 0 <= i < j < |s| ensures s[i].1 >= s[j].1 {
      assert ByCountDesc(s[i], s[j]) <= 0.0;
    }
  }

  lemma PrefixDominates(s: seq<Entry>, n: nat)
    requires n <= |s|
    requires forall i, j :: 0 <= i < j < |s| ==> s[i].1 >= s[j].1
    ensures forall e, t :: e in s[n..] && t in s[..n] ==> e.1 <= t.1
  {
    forall e, t | e in s[n..] && t in s[..n] ensures e.1 <= t.1 {
      var a :| n <= a < |s| && s[a] == e;
      var b :| 0 <= b < n && s[b] == t;
    }
  }

  lemma SplitMultiset<T>(s: seq<T>, n: nat)
    requires n <= |s|
    ensures multiset(s[..n]) <= multiset(s)
    ensures multiset(s) - multiset(s[..n]) == multiset(s[n..])
  {
    assert s == s[..n] + s[n..];
  }

  // ---------------------------------------------------------------------
  // The map page
  // ---------------------------------------------------------------------

  /** The state a user clicked: its name, postal abbreviation and FIPS code. */
  datatype Selection = Selection(name: string, abbr: string, fips: string)

  class StateMapPage {
    /** The bundled sample counts the page starts from and falls back to. */
    const sample: map<string, int>
    var accidentData: map<string, int>
    var modifiedData: map<string, int>
    var selected: Option<Selection>
    var adjustment: int
    var countyData: Option<Dict>
    var loadingCounties: bool

    /** The slider keeps the adjustment within -100..100 percent. */
    ghost predicate Valid()
      reads this
    {
      -100 <= adjustment <= 100
    }

    /** The page starts from the bundled sample counts. */
    constructor(sample: map<string, int>)
      ensures Valid()
      ensures this.sample == sample
      ensures accidentData == sample && modifiedData == sample && selected == None
      ensures adjustment == 0 && countyData == None && !loadingCounties
    {
      this.sample := sample;
      accidentData := sample;
      modifiedData := sample;
      selected := None;
      adjustment := 0;
      countyData := None;
      loadingCounties := false;
    }

    /** The state counts arrived: a non-empty dictionary replaces both the original and the modified counts. */
    method LoadStateCounts(rows: seq<ApiRow>)
      requires Valid()
      modifies this
      ensures Valid()
      ensures Tallied(rows) != map[] ==> accidentData == Tallied(rows) && modifiedData == Tallied(rows)
      ensures Tallied(rows) == map[] ==> accidentData == old(accidentData) && modifiedData == old(modifiedData)
      ensures selected == old(selected) && adjustment == old(adjustment)
      ensures countyData == old(countyData) && loadingCounties == old(loadingCounties)
    {
      var d := Tally(rows);
      if |d.counts| > 0 {
        accidentData := d.counts;
        modifiedData := d.counts;
      }
    }

    /** Fetching the state counts failed (other than by cancellation): the sample counts the page started from are shown again. */
    method StateCountsFailed()
      requires Valid()
      modifies this
      ensures Valid()
      ensures accidentData == sample && modifiedData == sample
      ensures selected == old(selected) && adjustment == old(adjustment)
      ensures countyData == old(countyData) && loadingCounties == old(loadingCounties)
    {
      accidentData := sample;
      modifiedData := sample;
    }

    /** A state was clicked: it becomes the selection, the adjustment returns to 0 and its county data starts loading. */
    method SelectState(s: Selection)
      modifies this
      ensures Valid()
      ensures selected == Some(s) && adjustment == 0
      ensures countyData == None && loadingCounties
      ensures accidentData == old(accidentData) && modifiedData == old(modifiedData)
    {
      selected := Some(s);
      adjustment := 0;
      loadingCounties := true;
      countyData := None;
    }

    /** The county counts of the selected state arrived. */
    method LoadCountyCounts(rows: seq<ApiRow>)
      requires Valid()
      modifies this
      ensures Valid()
      ensures countyData.Some? && countyData.value.counts == Tallied(rows)
      ensures countyData.value.order == Distinct(KeptKeys(rows))
      ensures !loadingCounties
      ensures accidentData == old(accidentData) && modifiedData == old(modifiedData)
      ensures selected == old(selected) && adjustment == old(adjustment)
    {
      var d := Tally(rows);
      countyData := Some(d);
      loadingCounties := false;
    }

    /** Fetching the county data failed: loading ends and no county data is shown. */
    method CountyCountsFailed()
      requires Valid()
      modifies this
      ensures Valid()
      ensures !loadingCounties
      ensures countyData == old(countyData) && accidentData == old(accidentData) && modifiedData == old(modifiedData)
      ensures selected == old(selected) && adjustment == old(adjustment)
    {
      loadingCounties := false;
    }

    /** The slider moved. */
    method SetAdjustment(percent: int)
      requires -100 <= percent <= 100
      modifies this
      ensures Valid()
      ensures adjustment == percent
      ensures accidentData == old(accidentData) && modifiedData == old(modifiedData) && selected == old(selected)
      ensures countyData == old(countyData) && loadingCounties == old(loadingCounties)
    {
      adjustment := percent;
    }

    /** "Adjusted Count": 0 without a selection, otherwise the selected state's original count (0 if missing) adjusted by the slider. */
    function AdjustedAccidentCount(): (r: int)
      reads this
      ensures selected.None? ==> r == 0
      ensures selected.Some? ==> r == Adjusted(Lookup(accidentData, selected.value.abbr), adjustment)
    {
      if selected.None? then 0 else Adjusted(Lookup(accidentData, selected.value.abbr), adjustment)
    }

    /** "Set": writes the adjusted count under the selected state in a copy of the modified counts. */
    method ApplyAdjustment()
      requires Valid()
      modifies this
      ensures Valid()
      ensures old(selected).None? ==> modifiedData == old(modifiedData)
      ensures old(selected).Some? ==> modifiedData == old(modifiedData)[old(selected).value.abbr := old(AdjustedAccidentCount())]
      ensures forall k :: (old(selected).None? || k != old(selected).value.abbr) ==>
        (k in modifiedData <==> k in old(modifiedData)) && (k in modifiedData ==> modifiedData[k] == old(modifiedData)[k])
      ensures accidentData == old(accidentData) && selected == old(selected) && adjustment == old(adjustment)
      ensures countyData == old(countyData) && loadingCounties == old(loadingCounties)
    {
      if selected.None? {
        return;
      }
      var adjusted := AdjustedAccidentCount();
      modifiedData := modifiedData[selected.value.abbr := adjusted];
    }

    /** "Reset to Original": the selected state's modified count returns to its original count (0 if missing) and the slider to 0. */
    method ResetToOriginal()
      requires Valid() && selected.Some?
      modifies this
      ensures Valid()
      ensures adjustment == 0 && selected == old(selected)
      ensures modifiedData == old(modifiedData)[selected.value.abbr := Lookup(accidentData, selected.value.abbr)]
      ensures forall k :: k != selected.value.abbr ==>
        (k in modifiedData <==> k in old(modifiedData)) && (k in modifiedData ==> modifiedData[k] == old(modifiedData)[k])
      ensures accidentData == old(accidentData)
      ensures countyData == old(countyData) && loadingCounties == old(loadingCounties)
    {
      adjustment := 0;
      modifiedData := modifiedData[selected.value.abbr := Lookup(accidentData, selected.value.abbr)];
    }

    /** "Back": the selection and the county data are dropped. */
    method Back()
      requires Valid()
      modifies this
      ensures Valid()
      ensures selected == None && countyData == None && !loadingCounties
      ensures accidentData == old(accidentData) && modifiedData == old(modifiedData) && adjustment == old(adjustment)
    {
      selected := None;
      countyData := None;
      loadingCounties := false;
    }

    /** The sidebar border colour: the lightest colour without a selection, otherwise the colour of the selected state's modified count. */
    function StateColor(): (c: string)
      reads this
      ensures selected.None? ==> c == Lightest
      ensures selected.Some? ==> c == ColorOf(Lookup(modifiedData, selected.value.abbr))
    {
      if selected.None? then Lightest else ColorOf(Lookup(modifiedData, selected.value.abbr))
    }
  }
}
