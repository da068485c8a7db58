/** The per-year table behind one heatmap (habits.py lines 38-44): the counts are
    restricted to one year, then re-indexed over every day from January 1st to
    December 31st with absent days filled with 0. */
module Tables {
  import opened Calendar
  import opened Counting

  /** One row of the re-indexed series: a day and its number of events. */
  type Row = (Date, nat)

  /** The entry of `d` in a count table, 0 when it has none. */
  function CountOf(counts: map<Date, nat>, d: Date): nat {
    if d in counts then counts[d] else 0
  }

  /** `event_series[event_series.index.year == year]`. */
  function YearFilter(counts: map<Date, nat>, y: int): map<Date, nat> {
    map d | d in counts && d.year == y :: counts[d]
  }

  /** `series.reindex(index, fill_value=0)`: one row per index label, in index order. */
  function Reindex(series: map<Date, nat>, index: seq<Date>): (r: seq<Row>)
    ensures |r| == |index|
    ensures forall i :: 0 <= i < |r| ==> r[i] == (index[i], CountOf(series, index[i]))
  {
    seq(|index|, i requires 0 <= i < |index| => (index[i], CountOf(series, index[i])))
  }

  /** The table of year `y`: every day of the year exactly once, in order, each with
      its count in `counts`, 0 when it has none; dates of other years do not appear. */
  function YearTable(counts: map<Date, nat>, y: int): (r: seq<Row>)
    ensures |r| == DaysInYear(y)
    ensures forall i :: 0 <= i < |r| ==> r[i].0.year == y && DayOfYear(r[i].0) == i + 1
    ensures forall i :: 0 <= i < |r| ==> r[i].1 == CountOf(counts, r[i].0)
    ensures forall i :: 0 < i < |r| ==> r[i].0 == Next(r[i - 1].0)
    ensures forall i, j :: 0 <= i < j < |r| ==> Before(r[i].0, r[j].0)
  {
    var index := YearDates(y);
    var r := Reindex(YearFilter(counts, y), index);
    forall i | 0 <= i < |r|
      ensures r[i].1 == CountOf(counts, r[i].0)
    {
      FilterCount(counts, y, index[i]);
    }
    r
  }

  /** The filtered counts are the counts on the days of year `y` and 0 on every other
      day. */
  lemma FilterCount(counts: map<Date, nat>, y: int, d: Date)
    ensures d in YearFilter(counts, y) <==> d in counts && d.year == y
    ensures CountOf(YearFilter(counts, y), d) == if d.year == y then CountOf(counts, d) else 0
  {
  }

  /** Every date of year `y` has its row, at the position its day of year names. */
  lemma YearTableLookup(counts: map<Date, nat>, y: int, d: Date)
    requires d.year == y
    ensures DayOfYear(d) - 1 < |YearTable(counts, y)|
    ensures YearTable(counts, y)[DayOfYear(d) - 1] == (d, CountOf(counts, d))
  {
    YearDatesComplete(y, d);
  }

  /** The sum of a table's counts. */
  function Total(t: seq<Row>): nat {
    if t == [] then 0 else Total(t[..|t| - 1]) + t[|t| - 1].1
  }

  /** The entries of `m` whose date is in `index`. */
  function Restrict(m: map<Date, nat>, index: seq<Date>): map<Date, nat> {
    map d | d in m && d in index :: m[d]
  }

  predicate Distinct(index: seq<Date>) {
    forall i, j :: 0 <= i < j < |index| ==> index[i] != index[j]
  }

  /** Re-indexing over distinct labels keeps exactly the counts of the labelled dates. */
  lemma {:induction false} ReindexTotal(m: map<Date, nat>, index: seq<Date>)
    requires Distinct(index)
    ensures Total(Reindex(m, index)) == SumValues(Restrict(m, index))
  {
    if index == [] {
      assert Restrict(m, index) == map[];
    } else {
      var front, x := index[..|index| - 1], index[|index| - 1];
      assert index == front + [x];
      ReindexAppend(m, front, x);
      DistinctFront(index);
      ReindexTotal(m, front);
      RestrictAppend(m, front, x);
    }
  }

  lemma ReindexAppend(m: map<Date, nat>, front: seq<Date>, x: Date)
    ensures Total(Reindex(m, front + [x])) == Total(Reindex(m, front)) + CountOf(m, x)
  {
    var t := Reindex(m, front + [x]);
    assert t[..|t| - 1] == Reindex(m, front);
  }

  lemma DistinctFront(index: seq<Date>)
    requires Distinct(index) && index != []
    ensures Distinct(index[..|index| - 1]) && index[|index| - 1] !in index[..|index| - 1]
  {
  }

  /** Adding a new label adds its count to the restricted sum. */
  lemma RestrictAppend(m: map<Date, nat>, front: seq<Date>, x: Date)
    requires x !in front
    ensures SumValues(Restrict(m, front + [x])) == SumValues(Restrict(m, front)) + CountOf(m, x)
  {
    var r := Restrict(m, front);
    assert r - {x} == r;
    if x in m {
      assert Restrict(m, front + [x]) == r[x := m[x]];
      SumValuesUpdate(r, x, m[x]);
    } else {
      assert Restrict(m, front + [x]) == r;
    }
  }

  /** The table's total is the sum of the input counts dated in year `y`. */
  lemma YearTableTotal(counts: map<Date, nat>, y: int)
    ensures Total(YearTable(counts, y)) == SumValues(YearFilter(counts, y))
  {
    var f, days := YearFilter(counts, y), YearDates(y);
    forall i, j | 0 <= i < j < |days|
      ensures days[i] != days[j]
    {
      YearDatesDistinct(y, i, j);
    }
    ReindexTotal(f, days);
    forall d | d in f
      ensures d in days
    {
      YearDatesComplete(y, d);
    }
    assert Restrict(f, days) == f;
  }

  /** The dates of `ds` that fall in year `y`, in order. */
  function InYear(ds: seq<Date>, y: int): (r: seq<Date>)
    ensures forall d :: multiset(r)[d] == if d.year == y then multiset(ds)[d] else 0
  {
    if ds == [] then []
    else
      assert ds == [ds[0]] + ds[1..];
      (if ds[0].year == y then [ds[0]] else []) + InYear(ds[1..], y)
  }

  /** Counting all dates and then filtering by year, as the script does, agrees with
      filtering the dates first and then counting them. */
  lemma TallyThenFilter(ds: seq<Date>, y: int)
    ensures YearFilter(Tally(ds), y) == Tally(InYear(ds, y))
  {
    var a, b := YearFilter(Tally(ds), y), Tally(InYear(ds, y));
    forall d
      ensures d in a <==> d in b
      ensures d in a ==> a[d] == b[d]
    {
      SameEntry(ds, y, d);
    }
    SameMaps(a, b);
  }

  /** Maps with the same keys and the same value at each key are equal. */
  lemma SameMaps(a: map<Date, nat>, b: map<Date, nat>)
    requires forall d :: d in a <==> d in b
    requires forall d :: d in a ==> a[d] == b[d]
    ensures a == b
  {
  }

  lemma SameEntry(ds: seq<Date>, y: int, d: Date)
    ensures var a, b := YearFilter(Tally(ds), y), Tally(InYear(ds, y));
      && (d in a <==> d in b)
      && (d in a ==> a[d] == b[d])
  {
    OccurrencesCount(ds, d);
    OccurrencesCount(InYear(ds, y), d);
    assert d in ds <==> multiset(ds)[d] > 0;
    assert d in InYear(ds, y) <==> multiset(InYear(ds, y))[d] > 0;
  }

  /** The table of year `y` adds up to the number of dates in `ds` that fall in `y`. */
  lemma EventsInYearTotal(ds: seq<Date>, y: int)
    ensures Total(YearTable(Tally(ds), y)) == |InYear(ds, y)|
  {
    YearTableTotal(Tally(ds), y);
    TallyThenFilter(ds, y);
    TallyTotal(InYear(ds, y));
  }

  /** With no events, the table still lists every day of the year, all with count 0. */
  lemma EmptyInputTable(y: int)
    ensures |YearTable(map[], y)| == DaysInYear(y)
    ensures forall i :: 0 <= i < |YearTable(map[], y)| ==> YearTable(map[], y)[i].1 == 0
    ensures Total(YearTable(map[], y)) == 0
  {
    YearTableTotal(map[], y);
    assert YearFilter(map[], y) == map[];
  }

  /** A table whose counts hold only the first and the last day of year `y` is zero
      everywhere in between. */
  lemma BoundaryOnlyTable(m: map<Date, nat>, y: int)
    requires forall d :: d in m ==> d == NewYearsDay(y) || d == NewYearsEve(y)
    ensures var t := YearTable(m, y);
      && t[0] == (NewYearsDay(y), CountOf(m, NewYearsDay(y)))
      && t[|t| - 1] == (NewYearsEve(y), CountOf(m, NewYearsEve(y)))
      && (forall i :: 1 <= i < |t| - 1 ==> t[i].1 == 0)
  {
    var t := YearTable(m, y);
    YearTableLookup(m, y, NewYearsDay(y));
    YearTableLookup(m, y, NewYearsEve(y));
    forall i | 1 <= i < |t| - 1
      ensures t[i].1 == 0
    {
      assert DayOfYear(t[i].0) == i + 1;
    }
  }

  /** Two events on January 1st and one on December 31st of year `y` give a table with
      2 in its first row, 1 in its last and 0 everywhere else. */
  lemma YearBoundaryTable(y: int)
    ensures var t := YearTable(Tally([NewYearsDay(y), NewYearsDay(y), NewYearsEve(y)]), y);
      && |t| == DaysInYear(y)
      && t[0] == (NewYearsDay(y), 2)
      && t[|t| - 1] == (NewYearsEve(y), 1)
      && (forall i :: 1 <= i < |t| - 1 ==> t[i].1 == 0)
  {
    var first, last := NewYearsDay(y), NewYearsEve(y);
    var ds := [first, first, last];
    OccurrencesCount(ds, first);
    OccurrencesCount(ds, last);
    assert multiset(ds)[first] == 2;
    assert multiset(ds)[last] == 1;
    BoundaryOnlyTable(Tally(ds), y);
  }
}
