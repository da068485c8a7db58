/** The top level of the script (habits.py lines 182-210): the events of the calendar are
    counted once, and one heatmap is drawn for each of the last `n` years, the current
    year first. */
module Plot {
  import opened Wrappers
  import opened Calendar
  import opened Weeks
  import opened Counting
  import opened Tables
  import opened Grid
  import opened Markers

  /** `[current_year - i for i in range(n)]`; `range` of a count below 1 is empty. */
  function YearsToPlot(current: int, n: int): (r: seq<int>)
    ensures |r| == if n > 0 then n else 0
    ensures forall i :: 0 <= i < |r| ==> r[i] == current - i
  {
    if n <= 0 then [] else YearsToPlot(current, n - 1) + [current - (n - 1)]
  }

  /** The list starts at the current year, steps down by one year at a time, and holds
      exactly the `n` years up to the current one. */
  lemma YearsToPlotShape(current: int, n: int)
    ensures var r := YearsToPlot(current, n);
      && (n > 0 ==> r[0] == current)
      && (forall i :: 0 < i < |r| ==> r[i] == r[i - 1] - 1)
      && (forall y :: y in r <==> current - n < y <= current)
  {
    var r := YearsToPlot(current, n);
    forall y | current - n < y <= current
      ensures y in r
    {
      assert r[current - y] == y;
    }
  }

  /** One square of the heatmap: column, row (the weekday) and colour value (the count). */
  datatype Point = Point(x: int, y: int, z: nat)

  /** One heatmap: its year, frame, month markers and squares. The figure's styling is
      not modelled. */
  datatype Heatmap = Heatmap(year: int, cells: seq<Cell>, monthStarts: map<string, int>, points: seq<Point>)

  /** The squares of a frame: column its week, row its weekday, value its count. */
  function Points(cells: seq<Cell>): (p: seq<Point>)
    ensures |p| == |cells|
    ensures forall i :: 0 <= i < |p| ==>
      p[i] == Point(cells[i].week, cells[i].dayOfWeek, cells[i].events)
  {
    seq(|cells|, i requires 0 <= i < |cells| =>
      Point(cells[i].week, cells[i].dayOfWeek, cells[i].events))
  }

  /** The heatmap of year `y` as the script draws it: the column of a day is its ISO
      week, and the month markers are ISO weeks too. */
  function YearHeatmap(counts: map<Date, nat>, y: int): Heatmap {
    var cells := YearFrame(counts, y);
    Heatmap(y, cells, MonthStarts(cells), Points(cells))
  }

  /** The heatmap of year `y` has one cell per day of `y` with that day's count, and its
      markers are the smallest weeks of the trimmed rows. */
  lemma YearHeatmapShape(counts: map<Date, nat>, y: int)
    ensures var h := YearHeatmap(counts, y);
      && h.year == y && IsYearFrame(h.cells, y)
      && (forall i :: 0 <= i < |h.cells| ==> h.cells[i].events == CountOf(counts, h.cells[i].date))
      && Below(Trim(h.cells), h.monthStarts) && Attained(Trim(h.cells), h.monthStarts)
  {
  }

  /** The square of day i + 1 of the heatmap sits at that day's ISO week and weekday,
      inside the 53 by 7 grid, and carries the day's count. */
  lemma YearHeatmapPoints(counts: map<Date, nat>, y: int)
    ensures var h := YearHeatmap(counts, y);
      && |h.points| == |h.cells| == DaysInYear(y)
      && forall i :: 0 <= i < |h.points| ==>
        && h.cells[i].date.year == y && DayOfYear(h.cells[i].date) == i + 1
        && h.points[i] == Point(IsoCalendar(h.cells[i].date).week, DayOfWeek(h.cells[i].date), h.cells[i].events)
        && 1 <= h.points[i].x <= 53 && 0 <= h.points[i].y <= 6
  {
    var cells := YearFrame(counts, y);
    FramePoints(cells, y, Points(cells));
  }

  lemma FramePoints(cells: seq<Cell>, y: int, p: seq<Point>)
    requires IsYearFrame(cells, y) && p == Points(cells)
    ensures |p| == |cells| == DaysInYear(y)
    ensures forall i :: 0 <= i < |p| ==>
      && cells[i].date.year == y && DayOfYear(cells[i].date) == i + 1
      && p[i] == Point(IsoCalendar(cells[i].date).week, DayOfWeek(cells[i].date), cells[i].events)
      && 1 <= p[i].x <= 53 && 0 <= p[i].y <= 6
  {
  }

  /** As drawn, two days of a year with the same weekday and the same ISO week get one
      square between them. */
  lemma HeatmapSquaresCollide(counts: map<Date, nat>, y: int, d: Date, e: Date)
    requires d.year == y && e.year == y && d != e
    requires DayOfWeek(d) == DayOfWeek(e) && IsoCalendar(d).week == IsoCalendar(e).week
    ensures var p, i, j := YearHeatmap(counts, y).points, DayOfYear(d) - 1, DayOfYear(e) - 1;
      && i != j && 0 <= i < |p| && 0 <= j < |p|
      && p[i].x == p[j].x && p[i].y == p[j].y
  {
    var cells := YearFrame(counts, y);
    FrameSquaresCollide(cells, y, Points(cells), d, e);
  }

  lemma FrameSquaresCollide(cells: seq<Cell>, y: int, p: seq<Point>, d: Date, e: Date)
    requires IsYearFrame(cells, y) && p == Points(cells)
    requires d.year == y && e.year == y && d != e
    requires DayOfWeek(d) == DayOfWeek(e) && IsoCalendar(d).week == IsoCalendar(e).week
    ensures var i, j := DayOfYear(d) - 1, DayOfYear(e) - 1;
      && i != j && 0 <= i < |p| && 0 <= j < |p|
      && p[i].x == p[j].x && p[i].y == p[j].y
  {
    var i, j := DayOfYear(d) - 1, DayOfYear(e) - 1;
    assert i != j by {
      if i == j {
        DayNumberInjective(d, e);
      }
    }
    SameDayOfYear(cells, y, d);
    SameDayOfYear(cells, y, e);
  }

  /** The cell of a year's frame at the position a day's day of year names is that day's. */
  lemma SameDayOfYear(cells: seq<Cell>, y: int, d: Date)
    requires IsYearFrame(cells, y) && d.year == y
    ensures DayOfYear(d) - 1 < |cells| && cells[DayOfYear(d) - 1].date == d
  {
    DayNumberInjective(cells[DayOfYear(d) - 1].date, d);
  }

  /** In 2024 two days share a square: Monday January 1st and Monday December 30th. */
  lemma HeatmapOverlapIn2024(counts: map<Date, nat>)
    ensures var p := YearHeatmap(counts, 2024).points;
      exists i, j :: 0 <= i < j < |p| && p[i].x == p[j].x && p[i].y == p[j].y
  {
    var d, e: Date := Ymd(2024, 1, 1), Ymd(2024, 12, 30);
    IsoColumnsCollide();
    HeatmapSquaresCollide(counts, 2024, d, e);
    assert DayOfYear(d) - 1 < DayOfYear(e) - 1;
  }

  /** The heatmap of year `y` with the corrected layout: the squares and the month
      markers are both placed by `GridColumn`. */
  function CorrectedHeatmap(counts: map<Date, nat>, y: int): Heatmap {
    var cells := Regrid(YearFrame(counts, y));
    Heatmap(y, cells, MonthStarts(cells), Points(cells))
  }

  /** The corrected heatmap of year `y` has the square of day i + 1 at that day's column
      and weekday, with its count; the squares lie in the 54 by 7 grid and no two days
      share one. */
  lemma CorrectedHeatmapSquares(counts: map<Date, nat>, y: int)
    ensures var h := CorrectedHeatmap(counts, y);
      && h.year == y && |h.points| == |h.cells| == DaysInYear(y)
      && (forall i :: 0 <= i < |h.points| ==>
            && h.cells[i].date.year == y && DayOfYear(h.cells[i].date) == i + 1
            && h.points[i] == Point(GridColumn(h.cells[i].date), DayOfWeek(h.cells[i].date), h.cells[i].events)
            && 1 <= h.points[i].x <= 54 && 0 <= h.points[i].y <= 6)
      && (forall i, j :: 0 <= i < j < |h.points| ==>
            h.points[i].x != h.points[j].x || h.points[i].y != h.points[j].y)
  {
    var cells := YearFrame(counts, y);
    var h, g := CorrectedHeatmap(counts, y), Regrid(cells);
    assert h.cells == g && h.points == Points(g);
    RegridPoints(cells, y, g, h.points);
  }

  lemma RegridPoints(cells: seq<Cell>, y: int, g: seq<Cell>, p: seq<Point>)
    requires IsYearFrame(cells, y) && g == Regrid(cells) && p == Points(g)
    ensures |p| == |g| == DaysInYear(y)
    ensures forall i :: 0 <= i < |p| ==>
      && g[i].date.year == y && DayOfYear(g[i].date) == i + 1
      && p[i] == Point(GridColumn(g[i].date), DayOfWeek(g[i].date), g[i].events)
      && 1 <= p[i].x <= 54 && 0 <= p[i].y <= 6
    ensures forall i, j :: 0 <= i < j < |p| ==> p[i].x != p[j].x || p[i].y != p[j].y
  {
    PointsDistinct(cells, y);
  }

  /** In the corrected heatmap the markers are exactly the twelve month labels, and each
      month's marker is the column of the square of its first day. */
  lemma CorrectedHeatmapMarkers(counts: map<Date, nat>, y: int)
    ensures var h := CorrectedHeatmap(counts, y);
      && |h.points| == DaysInYear(y)
      && (forall s :: s in h.monthStarts <==> MonthNumber(s).Some?)
      && forall first: Date :: first.year == y && first.day == 1 ==>
        && MonthLabel(first.month) in h.monthStarts
        && h.monthStarts[MonthLabel(first.month)] == GridColumn(first)
        && h.monthStarts[MonthLabel(first.month)] == h.points[DayOfYear(first) - 1].x
  {
    var cells := YearFrame(counts, y);
    var g := Regrid(cells);
    GridMarkers(cells, y, MonthStarts(g));
    FirstSquares(cells, y, Points(g));
  }

  /** The square of a month's first day lies in that day's corrected column. */
  lemma FirstSquares(cells: seq<Cell>, y: int, p: seq<Point>)
    requires IsYearFrame(cells, y) && p == Points(Regrid(cells))
    ensures |p| == DaysInYear(y)
    ensures forall first: Date :: first.year == y && first.day == 1 ==>
      p[DayOfYear(first) - 1].x == GridColumn(first)
  {
    forall first: Date | first.year == y && first.day == 1
      ensures p[DayOfYear(first) - 1].x == GridColumn(first)
    {
      var k := DayOfYear(first) - 1;
      DayNumberInjective(cells[k].date, first);
    }
  }

  /** With the corrected column no two days of a year share a square. */
  lemma PointsDistinct(cells: seq<Cell>, y: int)
    requires IsYearFrame(cells, y)
    ensures var p := Points(Regrid(cells));
      forall i, j :: 0 <= i < j < |p| ==> p[i].x != p[j].x || p[i].y != p[j].y
  {
    var p := Points(Regrid(cells));
    forall i, j | 0 <= i < j < |p|
      ensures p[i].x != p[j].x || p[i].y != p[j].y
    {
      CellsApart(cells, y, i, j);
    }
  }

  lemma CellsApart(cells: seq<Cell>, y: int, i: int, j: int)
    requires IsYearFrame(cells, y) && 0 <= i < j < |cells|
    ensures GridColumn(cells[i].date) != GridColumn(cells[j].date)
      || cells[i].dayOfWeek != cells[j].dayOfWeek
  {
    assert DayOfYear(cells[i].date) != DayOfYear(cells[j].date);
    GridPositionsDistinct(cells[i].date, cells[j].date);
  }

  /** The heatmaps drawn from the counts for each of `years`, in order. */
  function HeatmapsOf(counts: map<Date, nat>, years: seq<int>): (hs: seq<Heatmap>)
    ensures |hs| == |years|
    ensures forall i :: 0 <= i < |hs| ==> hs[i] == YearHeatmap(counts, years[i])
  {
    seq(|years|, i requires 0 <= i < |years| => YearHeatmap(counts, years[i]))
  }

  /** The heatmaps of the script, in drawing order, or `None` when counting the events
      fails because a VEVENT has no DTSTART. */
  function Heatmaps(cs: seq<Component>, current: int, n: int): (r: Option<seq<Heatmap>>)
    ensures r.Some? <==> EventsHaveStarts(cs)
    ensures r.Some? ==> |r.value| == |YearsToPlot(current, n)|
    ensures r.Some? ==> forall i :: 0 <= i < |r.value| ==> r.value[i].year == current - i
    ensures r.Some? ==> forall i :: 0 <= i < |r.value| ==>
      r.value[i] == YearHeatmap(CountEvents(cs).value, current - i)
  {
    match CountEvents(cs)
    case None => None
    case Some(counts) =>
      var years := YearsToPlot(current, n);
      var hs := HeatmapsOf(counts, years);
      forall i | 0 <= i < |hs|
        ensures hs[i].year == current - i
      {
        assert hs[i].year == years[i];
      }
      Some(hs)
  }

  /** Each heatmap shows, in total, exactly the VEVENTs that start in its year. */
  lemma HeatmapTotal(cs: seq<Component>, current: int, n: int, i: int)
    requires EventsHaveStarts(cs) && 0 <= i < |YearsToPlot(current, n)|
    ensures var h := Heatmaps(cs, current, n).value[i];
      EventsTotal(h.cells) == |InYear(StartDates(cs).value, h.year)|
  {
    var ds := StartDates(cs).value;
    var y := current - i;
    FrameTotal(YearTable(Tally(ds), y));
    EventsInYearTotal(ds, y);
  }
}
