/** The month annotations of a heatmap (habits.py line 114): the frame without its last
    ten rows is grouped by month label, and each label is placed at the smallest week
    number among its rows. */
module Markers {
  import opened Calendar
  import opened Weeks
  import opened Tables
  import opened Grid

  /** `iloc[:-10]`: every row but the last ten; no rows when there are fewer than ten. */
  function Trim(cells: seq<Cell>): (r: seq<Cell>)
    ensures |r| == if |cells| >= 10 then |cells| - 10 else 0
    ensures r == cells[..|r|]
  {
    if |cells| >= 10 then cells[..|cells| - 10] else []
  }

  /** Every row's label has a marker, and no row lies before it. */
  predicate Below(cells: seq<Cell>, r: map<string, int>) {
    forall i :: 0 <= i < |cells| ==> cells[i].month in r && r[cells[i].month] <= cells[i].week
  }

  /** Every marker belongs to a label of some row, and is that row's week. */
  predicate Attained(cells: seq<Cell>, r: map<string, int>) {
    forall s :: s in r ==> exists i :: 0 <= i < |cells| && cells[i].month == s && cells[i].week == r[s]
  }

  /** `groupby('Month')['WeekOfYear'].min().to_dict()`: the labels present, each with the
      smallest week among its rows. */
  function MinWeekByMonth(cells: seq<Cell>): (r: map<string, int>)
    ensures Below(cells, r) && Attained(cells, r)
  {
    if cells == [] then map[]
    else
      var front, c := cells[..|cells| - 1], cells[|cells| - 1];
      var m := MinWeekByMonth(front);
      var r := if c.month in m && m[c.month] <= c.week then m else m[c.month := c.week];
      MinStep(cells, m, r);
      r
  }

  /** One more row: the marker of its label drops to its week when that is smaller. */
  lemma MinStep(cells: seq<Cell>, m: map<string, int>, r: map<string, int>)
    requires cells != []
    requires var front := cells[..|cells| - 1];
      Below(front, m) && Attained(front, m)
    requires var c := cells[|cells| - 1];
      r == if c.month in m && m[c.month] <= c.week then m else m[c.month := c.week]
    ensures Below(cells, r) && Attained(cells, r)
  {
    var front, n := cells[..|cells| - 1], |cells| - 1;
    assert forall i :: 0 <= i < n ==> front[i] == cells[i];
    forall s | s in r
      ensures exists i :: 0 <= i < |cells| && cells[i].month == s && cells[i].week == r[s]
    {
      if s == cells[n].month && r[s] == cells[n].week {
      } else {
        var i :| 0 <= i < n && front[i].month == s && front[i].week == m[s];
      }
    }
    forall i | 0 <= i < |cells|
      ensures cells[i].month in r && r[cells[i].month] <= cells[i].week
    {
      if i < n {
        assert front[i] == cells[i];
        assert cells[i].month in m && m[cells[i].month] <= cells[i].week;
      }
    }
  }

  /** The `month_starts` dictionary of a frame. */
  function MonthStarts(cells: seq<Cell>): (r: map<string, int>)
    ensures Below(Trim(cells), r) && Attained(Trim(cells), r)
  {
    MinWeekByMonth(Trim(cells))
  }

  /** In the frame of a year every month has a marker: January at week 1, every other
      month at the week holding its first day. */
  lemma YearMonthStarts(counts: map<Date, nat>, y: int)
    ensures var r := MonthStarts(YearFrame(counts, y));
      && (forall s :: s in r <==> MonthNumber(s).Some?)
      && "Jan" in r && r["Jan"] == 1
      && forall first: Date :: first.year == y && first.month >= 2 && first.day == 1 ==>
        MonthLabel(first.month) in r && r[MonthLabel(first.month)] == IsoCalendar(first).week
  {
    var cells := YearFrame(counts, y);
    YearMarkers(cells, y, MonthStarts(cells));
  }

  /** The same for any cells of the shape of a year's frame and any map that, like
      `MonthStarts`, holds the smallest week of each label of the trimmed rows. */
  lemma YearMarkers(cells: seq<Cell>, y: int, r: map<string, int>)
    requires IsYearFrame(cells, y)
    requires Below(Trim(cells), r) && Attained(Trim(cells), r)
    ensures forall s :: s in r <==> MonthNumber(s).Some?
    ensures "Jan" in r && r["Jan"] == 1
    ensures forall first: Date :: first.year == y && first.month >= 2 && first.day == 1 ==>
      MonthLabel(first.month) in r && r[MonthLabel(first.month)] == IsoCalendar(first).week
  {
    YearLabels(cells, y, r);
    JanuaryMarker(cells, y, r);
    forall first: Date | first.year == y && first.month >= 2 && first.day == 1
      ensures MonthLabel(first.month) in r && r[MonthLabel(first.month)] == IsoCalendar(first).week
    {
      MonthMarker(cells, y, r, first);
    }
  }

  /** Every month of the year, and nothing else, has a marker. */
  lemma YearLabels(cells: seq<Cell>, y: int, r: map<string, int>)
    requires IsYearFrame(cells, y)
    requires Below(Trim(cells), r) && Attained(Trim(cells), r)
    ensures forall s :: s in r <==> MonthNumber(s).Some?
  {
    forall s | MonthNumber(s).Some?
      ensures s in r
    {
      MonthHasRow(cells, y, r, MonthNumber(s).value);
    }
    forall s | s in r
      ensures MonthNumber(s).Some?
    {
      MarkerIsMonth(cells, y, r, s);
    }
  }

  lemma MarkerIsMonth(cells: seq<Cell>, y: int, r: map<string, int>, s: string)
    requires IsYearFrame(cells, y)
    requires Attained(Trim(cells), r) && s in r
    ensures MonthNumber(s).Some?
  {
    var p := Trim(cells);
    var i :| 0 <= i < |p| && p[i].month == s;
    assert p[i] == cells[i];
    MonthLabelRoundTrip(cells[i].date.month);
  }

  lemma MonthHasRow(cells: seq<Cell>, y: int, r: map<string, int>, m: int)
    requires IsYearFrame(cells, y) && 1 <= m <= 12
    requires Below(Trim(cells), r)
    ensures MonthLabel(m) in r
  {
    var first: Date := Ymd(y, m, 1);
    FirstOfMonthRow(cells, y, first);
    var p := Trim(cells);
    assert p[DayOfYear(first) - 1].month == MonthLabel(m);
  }

  /** The first day of a month has its row in the trimmed frame, at the position its day
      of year names. */
  lemma FirstOfMonthRow(cells: seq<Cell>, y: int, first: Date)
    requires IsYearFrame(cells, y) && first.year == y && first.day == 1
    ensures var p := Trim(cells);
      && DayOfYear(first) - 1 < |p|
      && p[DayOfYear(first) - 1].date == first
      && p[DayOfYear(first) - 1].month == MonthLabel(first.month)
      && p[DayOfYear(first) - 1].week == IsoCalendar(first).week
  {
    var i := DayOfYear(first) - 1;
    assert i <= 335;
    var d := cells[i].date;
    assert DayOfYear(d) == DayOfYear(first) && d.year == y;
    DayNumberInjective(d, first);
    assert Trim(cells)[i] == cells[i];
  }

  /** January 4th has its row in the trimmed frame, labelled January and in week 1. */
  lemma FourthOfJanuaryRow(cells: seq<Cell>, y: int)
    requires IsYearFrame(cells, y)
    ensures var p := Trim(cells);
      3 < |p| && p[3].month == "Jan" && p[3].week == 1
  {
    var fourth: Date := Ymd(y, 1, 4);
    assert DayOfYear(fourth) == 4;
    var c := cells[3];
    assert Trim(cells)[3] == c;
    DayNumberInjective(c.date, fourth);
    FourthOfJanuary(c.date, IsoCalendar(c.date).year, c.week);
  }

  /** Every cell of a year's frame has a week of at least 1. */
  lemma WeekAtLeastOne(cells: seq<Cell>, y: int, i: int)
    requires IsYearFrame(cells, y) && 0 <= i < |cells|
    ensures cells[i].week >= 1
  {
  }

  /** January's marker is week 1: no week is smaller, and January 4th is in week 1. */
  lemma JanuaryMarker(cells: seq<Cell>, y: int, r: map<string, int>)
    requires IsYearFrame(cells, y)
    requires Below(Trim(cells), r) && Attained(Trim(cells), r)
    ensures "Jan" in r && r["Jan"] == 1
  {
    var p := Trim(cells);
    FourthOfJanuaryRow(cells, y);
    var i :| 0 <= i < |p| && p[i].month == "Jan" && p[i].week == r["Jan"];
    assert p[i] == cells[i];
    WeekAtLeastOne(cells, y, i);
  }

  /** A row of a month that precedes the last ten rows is in no earlier week than the
      month's first day: both lie in the same ISO year. */
  lemma LaterRowWeek(cells: seq<Cell>, y: int, first: Date, i: int)
    requires IsYearFrame(cells, y)
    requires first.year == y && first.month >= 2 && first.day == 1
    requires 0 <= i < |cells| - 10 && cells[i].date.month == first.month
    ensures IsoCalendar(first).week <= cells[i].week
  {
    var c := cells[i];
    YearLength(y);
    assert 32 <= DayOfYear(first) <= DayOfYear(c.date) <= DaysInYear(y) - 10;
    DayNumberOrder(first, c.date);
    var a, b := IsoCalendar(first), IsoCalendar(c.date);
    MidYearIsoYear(first, a.year, a.week);
    MidYearIsoYear(c.date, b.year, b.week);
    WeekOrder(first, c.date, y, a.week, b.week);
  }

  /** Any other month's marker is the week of its first day. */
  lemma MonthMarker(cells: seq<Cell>, y: int, r: map<string, int>, first: Date)
    requires IsYearFrame(cells, y)
    requires Below(Trim(cells), r) && Attained(Trim(cells), r)
    requires first.year == y && first.month >= 2 && first.day == 1
    ensures MonthLabel(first.month) in r && r[MonthLabel(first.month)] == IsoCalendar(first).week
  {
    var p := Trim(cells);
    FirstOfMonthRow(cells, y, first);
    var s := MonthLabel(first.month);
    var i :| 0 <= i < |p| && p[i].month == s && p[i].week == r[s];
    assert p[i] == cells[i];
    MonthLabelInjective(cells[i].date.month, first.month);
    LaterRowWeek(cells, y, first, i);
  }

  /** With the last ten rows kept, December would be placed at week 1 in every year whose
      December 31st belongs to week 1 of the next ISO year. */
  lemma UntrimmedDecember(counts: map<Date, nat>, y: int)
    requires IsoCalendar(NewYearsEve(y)).week == 1
    ensures var r := MinWeekByMonth(YearFrame(counts, y));
      "Dec" in r && r["Dec"] == 1
  {
    var cells := YearFrame(counts, y);
    LastRowDecember(cells, y, MinWeekByMonth(cells));
  }

  lemma LastRowDecember(cells: seq<Cell>, y: int, r: map<string, int>)
    requires IsYearFrame(cells, y) && IsoCalendar(NewYearsEve(y)).week == 1
    requires Below(cells, r) && Attained(cells, r)
    ensures "Dec" in r && r["Dec"] == 1
  {
    var n := |cells| - 1;
    YearLength(y);
    assert DayOfYear(NewYearsEve(y)) == DaysInYear(y);
    DayNumberInjective(cells[n].date, NewYearsEve(y));
    assert cells[n].month == "Dec" && cells[n].week == 1;
    var i :| 0 <= i < |cells| && cells[i].month == "Dec" && cells[i].week == r["Dec"];
  }

  /** With the trim, December is placed at the week of December 1st, which is never
      before week 48. */
  lemma TrimmedDecember(counts: map<Date, nat>, y: int)
    ensures var r := MonthStarts(YearFrame(counts, y));
      "Dec" in r && 48 <= r["Dec"] <= 52
  {
    var cells := YearFrame(counts, y);
    DecemberMarker(cells, y, MonthStarts(cells));
  }

  lemma DecemberMarker(cells: seq<Cell>, y: int, r: map<string, int>)
    requires IsYearFrame(cells, y)
    requires Below(Trim(cells), r) && Attained(Trim(cells), r)
    ensures "Dec" in r && 48 <= r["Dec"] <= 52
  {
    var first: Date := Ymd(y, 12, 1);
    MonthMarker(cells, y, r, first);
    var a := IsoCalendar(first);
    DecemberWeeks(first, a.year, a.week);
  }

  /** With the corrected column, every month's marker, January's included, is the column
      of its first day. */
  lemma GridMonthStarts(counts: map<Date, nat>, y: int)
    ensures var r := MonthStarts(Regrid(YearFrame(counts, y)));
      && (forall s :: s in r <==> MonthNumber(s).Some?)
      && forall first: Date :: first.year == y && first.day == 1 ==>
        MonthLabel(first.month) in r && r[MonthLabel(first.month)] == GridColumn(first)
  {
    var cells := YearFrame(counts, y);
    GridMarkers(cells, y, MonthStarts(Regrid(cells)));
  }

  /** The same for any frame of a year's shape and any map that is a minimum of the
      trimmed rows of its regridded frame. */
  lemma GridMarkers(cells: seq<Cell>, y: int, r: map<string, int>)
    requires IsYearFrame(cells, y)
    requires Below(Trim(Regrid(cells)), r) && Attained(Trim(Regrid(cells)), r)
    ensures forall s :: s in r <==> MonthNumber(s).Some?
    ensures forall first: Date :: first.year == y && first.day == 1 ==>
      MonthLabel(first.month) in r && r[MonthLabel(first.month)] == GridColumn(first)
  {
    forall first: Date | first.year == y && first.day == 1
      ensures MonthLabel(first.month) in r && r[MonthLabel(first.month)] == GridColumn(first)
    {
      GridMonthMarker(cells, y, r, first);
    }
    forall s | MonthNumber(s).Some?
      ensures s in r
    {
      var first: Date := Ymd(y, MonthNumber(s).value, 1);
      GridMonthMarker(cells, y, r, first);
    }
    forall s | s in r
      ensures MonthNumber(s).Some?
    {
      GridMarkerIsMonth(cells, y, r, s);
    }
  }

  lemma GridMarkerIsMonth(cells: seq<Cell>, y: int, r: map<string, int>, s: string)
    requires IsYearFrame(cells, y)
    requires Attained(Trim(Regrid(cells)), r) && s in r
    ensures MonthNumber(s).Some?
  {
    var p := Trim(Regrid(cells));
    var i :| 0 <= i < |p| && p[i].month == s;
    TrimmedGridRow(cells, y, i);
    MonthLabelRoundTrip(cells[i].date.month);
  }

  /** A row of the trimmed, regridded frame of a year. */
  lemma TrimmedGridRow(cells: seq<Cell>, y: int, i: int)
    requires IsYearFrame(cells, y) && 0 <= i < |Trim(Regrid(cells))|
    ensures var c := Trim(Regrid(cells))[i];
      && c.date == cells[i].date && c.date.year == y && DayOfYear(c.date) == i + 1
      && c.month == MonthLabel(c.date.month) && c.week == GridColumn(c.date)
  {
    var g := Regrid(cells);
    assert Trim(g)[i] == g[i];
  }

  /** A month's first day has the smallest corrected column of its month's rows, and its
      row survives the trim. */
  lemma GridMonthMarker(cells: seq<Cell>, y: int, r: map<string, int>, first: Date)
    requires IsYearFrame(cells, y)
    requires Below(Trim(Regrid(cells)), r) && Attained(Trim(Regrid(cells)), r)
    requires first.year == y && first.day == 1
    ensures MonthLabel(first.month) in r && r[MonthLabel(first.month)] == GridColumn(first)
  {
    var p := Trim(Regrid(cells));
    var k := DayOfYear(first) - 1;
    FirstOfMonthRow(cells, y, first);
    TrimmedGridRow(cells, y, k);
    var s := MonthLabel(first.month);
    assert p[k].month == s && p[k].week == GridColumn(first);
    assert s in r && r[s] <= GridColumn(first);
    var i :| 0 <= i < |p| && p[i].month == s && p[i].week == r[s];
    TrimmedGridRow(cells, y, i);
    var d := p[i].date;
    MonthLabelInjective(d.month, first.month);
    assert DayOfYear(first) <= DayOfYear(d);
    GridColumnMonotone(first, d);
  }
}
