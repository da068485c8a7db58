/** The heatmap frame of one year (habits.py lines 47-52): each row of the year table
    becomes a cell carrying its weekday (the heatmap's y), its ISO week (the heatmap's
    x) and the abbreviated name of its month. */
module Grid {
  import opened Wrappers
  import opened Calendar
  import opened Weeks
  import opened Tables

  /** One row of `df_year`: Date, Events, DayOfWeek, WeekOfYear, Month. */
  datatype Cell = Cell(date: Date, events: nat, dayOfWeek: int, week: int, month: string)

  /** `strftime('%b')` in the C locale. */
  function MonthLabel(m: int): (s: string)
    requires 1 <= m <= 12
    ensures |s| == 3
  {
    ["Jan", "Feb", "Mar", "Apr", "May", "Jun", "Jul", "Aug", "Sep", "Oct", "Nov", "Dec"][m - 1]
  }

  /** The month a label names, if any. */
  function MonthNumber(s: string): (r: Option<int>)
    ensures r.Some? ==> 1 <= r.value <= 12 && MonthLabel(r.value) == s
  {
    if s == "Jan" then Some(1) else if s == "Feb" then Some(2) else if s == "Mar" then Some(3)
    else if s == "Apr" then Some(4) else if s == "May" then Some(5) else if s == "Jun" then Some(6)
    else if s == "Jul" then Some(7) else if s == "Aug" then Some(8) else if s == "Sep" then Some(9)
    else if s == "Oct" then Some(10) else if s == "Nov" then Some(11) else if s == "Dec" then Some(12)
    else None
  }

  /** Labels and month numbers are in one-to-one correspondence. */
  lemma MonthLabelRoundTrip(m: int)
    requires 1 <= m <= 12
    ensures MonthNumber(MonthLabel(m)) == Some(m)
  {
  }

  /** Distinct months have distinct labels. */
  lemma MonthLabelInjective(a: int, b: int)
    requires 1 <= a <= 12 && 1 <= b <= 12 && MonthLabel(a) == MonthLabel(b)
    ensures a == b
  {
    MonthLabelRoundTrip(a);
    MonthLabelRoundTrip(b);
  }

  /** The cell of one table row: the weekday with Monday 0, the ISO 8601 week number and
      the month label of its date. */
  function ToCell(row: Row): (c: Cell)
    ensures c.date == row.0 && c.events == row.1
    ensures 0 <= c.dayOfWeek <= 6 && 1 <= c.week <= 53
    ensures IsIsoWeek(c.date, IsoCalendar(c.date).year, c.week)
    ensures MonthNumber(c.month) == Some(c.date.month)
    ensures c.dayOfWeek == DayOfWeek(c.date) && c.week == IsoCalendar(c.date).week
  {
    MonthLabelRoundTrip(row.0.month);
    Cell(row.0, row.1, DayOfWeek(row.0), IsoCalendar(row.0).week, MonthLabel(row.0.month))
  }

  /** In year 2024 the ISO week column puts two days on one spot of the heatmap: Monday
      January 1st and Monday December 30th are both in week 1 (the latter of ISO year
      2025), with the same weekday. */
  lemma IsoColumnsCollide()
    ensures var a, b := ToCell((Ymd(2024, 1, 1), 0)), ToCell((Ymd(2024, 12, 30), 0));
      && a.date != b.date && a.date.year == b.date.year
      && a.dayOfWeek == b.dayOfWeek && a.week == b.week
  {
    NewYearsDayInWeekOne();
    LateDecemberInNextYear();
  }

  /** Day number of the Monday on or before January 1st of year `y`. */
  function GridStart(y: int): (m: int)
    ensures Weekday(m) == 0
    ensures DaysBeforeYear(y) - 6 < m <= DaysBeforeYear(y) + 1
  {
    var first := DaysBeforeYear(y) + 1;
    var k := (first - 1) / 7;
    MondayOf(first, 1);
    DivisionUnique(7 * k + 7, 7, k + 1, 0);
    first - Weekday(first)
  }

  /** A heatmap column for `d` that keeps the days of a year apart: its Monday-to-Sunday
      week counted from the week holding January 1st, which is column 1. */
  function GridColumn(d: Date): (x: int)
    ensures 1 <= x <= 54
    ensures DayNumber(d) - GridStart(d.year) == 7 * (x - 1) + DayOfWeek(d)
  {
    var n, m := DayNumber(d), GridStart(d.year);
    YearLength(d.year);
    MondayOf(n, m);
    (n - m) / 7 + 1
  }

  /** Column and weekday together determine the day of a year. */
  lemma GridPositionsDistinct(d: Date, e: Date)
    requires d.year == e.year
    ensures GridColumn(d) == GridColumn(e) && DayOfWeek(d) == DayOfWeek(e) <==> d == e
  {
    if GridColumn(d) == GridColumn(e) && DayOfWeek(d) == DayOfWeek(e) {
      DayNumberInjective(d, e);
    }
  }

  /** Within a year the column moves on by one exactly on Mondays and never wraps. */
  lemma GridColumnAdvances(d: Date)
    requires Next(d).year == d.year
    ensures GridColumn(Next(d)) == if DayOfWeek(Next(d)) == 0 then GridColumn(d) + 1 else GridColumn(d)
  {
    DayOfWeekAdvances(d);
  }

  /** Within a year a later day never has a smaller corrected column. */
  lemma GridColumnMonotone(d: Date, e: Date)
    requires d.year == e.year && DayOfYear(d) <= DayOfYear(e)
    ensures GridColumn(d) <= GridColumn(e)
  {
  }

  /** The frame with its week column replaced by the corrected column. */
  function Regrid(cells: seq<Cell>): (r: seq<Cell>)
    ensures |r| == |cells|
    ensures forall i :: 0 <= i < |r| ==> r[i] == cells[i].(week := GridColumn(cells[i].date))
  {
    seq(|cells|, i requires 0 <= i < |cells| => cells[i].(week := GridColumn(cells[i].date)))
  }

  /** `df_year` with its three derived columns. */
  function Frame(t: seq<Row>): (r: seq<Cell>)
    ensures |r| == |t|
    ensures forall i :: 0 <= i < |r| ==> r[i] == ToCell(t[i])
  {
    seq(|t|, i requires 0 <= i < |t| => ToCell(t[i]))
  }

  /** The shape of a year's frame: one cell per day of year `y`, in order, each with the
      weekday, ISO week and month label of its date. */
  predicate IsYearFrame(cells: seq<Cell>, y: int) {
    && |cells| == DaysInYear(y)
    && forall i :: 0 <= i < |cells| ==>
      && cells[i].date.year == y && DayOfYear(cells[i].date) == i + 1
      && cells[i].dayOfWeek == DayOfWeek(cells[i].date)
      && cells[i].week == IsoCalendar(cells[i].date).week
      && cells[i].month == MonthLabel(cells[i].date.month)
  }

  /** The frame of year `y`. */
  function YearFrame(counts: map<Date, nat>, y: int): (r: seq<Cell>)
    ensures IsYearFrame(r, y)
    ensures forall i :: 0 <= i < |r| ==> r[i].events == CountOf(counts, r[i].date)
  {
    var t := YearTable(counts, y);
    TableFrame(counts, y, t, Frame(t));
    Frame(t)
  }

  /** The frame of the table of year `y` has the shape of the year's frame, and keeps
      each row's date and count. */
  lemma TableFrame(counts: map<Date, nat>, y: int, t: seq<Row>, f: seq<Cell>)
    requires t == YearTable(counts, y) && f == Frame(t)
    ensures IsYearFrame(f, y)
    ensures forall i :: 0 <= i < |f| ==> f[i].events == CountOf(counts, f[i].date)
  {
    assert forall i :: 0 <= i < |f| ==> f[i].date == t[i].0 && f[i].events == t[i].1;
  }

  /** Walking down the frame of a year, the weekday goes round Monday to Sunday, and
      the week column changes only on a Monday, to the following week or to week 1. */
  lemma YearFrameAdvances(counts: map<Date, nat>, y: int, i: int)
    requires 0 < i < DaysInYear(y)
    ensures var f := YearFrame(counts, y);
      && f[i].dayOfWeek == (f[i - 1].dayOfWeek + 1) % 7
      && if f[i].dayOfWeek != 0 then f[i].week == f[i - 1].week
         else f[i].week == f[i - 1].week + 1 || f[i].week == 1
  {
    var t := YearTable(counts, y);
    FrameAdvances(t, i);
  }

  /** The same for any table whose rows are consecutive days. */
  lemma FrameAdvances(t: seq<Row>, i: int)
    requires 0 < i < |t| && t[i].0 == Next(t[i - 1].0)
    ensures var f := Frame(t);
      && f[i].dayOfWeek == (f[i - 1].dayOfWeek + 1) % 7
      && if f[i].dayOfWeek != 0 then f[i].week == f[i - 1].week
         else f[i].week == f[i - 1].week + 1 || f[i].week == 1
  {
    var f := Frame(t);
    CellsAdvance(t[i - 1].0, t[i].0, f[i - 1], f[i]);
  }

  /** The weekday and week of a day and of the day after it. */
  lemma CellsAdvance(d: Date, e: Date, ca: Cell, cb: Cell)
    requires e == Next(d)
    requires ca.dayOfWeek == DayOfWeek(d) && ca.week == IsoCalendar(d).week
    requires cb.dayOfWeek == DayOfWeek(e) && cb.week == IsoCalendar(e).week
    ensures cb.dayOfWeek == (ca.dayOfWeek + 1) % 7
    ensures if cb.dayOfWeek != 0 then cb.week == ca.week
      else cb.week == ca.week + 1 || cb.week == 1
  {
    DayOfWeekAdvances(d);
    IsoWeekAdvances(d);
  }

  /** The sum of the Events column. */
  function EventsTotal(cells: seq<Cell>): nat {
    if cells == [] then 0 else EventsTotal(cells[..|cells| - 1]) + cells[|cells| - 1].events
  }

  /** Deriving the columns keeps the events of every row. */
  lemma {:induction false} FrameTotal(t: seq<Row>)
    ensures EventsTotal(Frame(t)) == Total(t)
  {
    if t != [] {
      assert Frame(t)[..|t| - 1] == Frame(t[..|t| - 1]);
      FrameTotal(t[..|t| - 1]);
    }
  }
}
