/** Day of the week and ISO 8601 week numbering, as pandas computes the `dt.dayofweek`
    and `dt.isocalendar()` columns of the heatmap frame (habits.py lines 50-51). The
    arithmetic is done on ordinal day numbers; the functions on dates apply it to
    `DayNumber`. */
module Weeks {
  import opened Calendar

  /** The weekday of day number `n`, Monday 0 to Sunday 6: day 1 (0001-01-01) was a
      Monday. */
  function Weekday(n: int): (w: int)
    ensures 0 <= w <= 6
  {
    (n + 6) % 7
  }

  /** `dt.dayofweek`: Monday is 0 and Sunday is 6. */
  function DayOfWeek(d: Date): (w: int)
    ensures 0 <= w <= 6
  {
    Weekday(DayNumber(d))
  }

  /** Day number of the Thursday in the Monday-to-Sunday week holding day `n`. */
  function Thursday(n: int): int {
    n - Weekday(n) + 3
  }

  /** ISO 8601 week numbering: a week belongs to the year holding its Thursday, and
      week 1 is the week of the year's first Thursday. So day `n` is in ISO week `w` of
      year `y` exactly when the Thursday of its week is the `w`-th Thursday of year `y`. */
  predicate InIsoWeek(n: int, y: int, w: int) {
    var t := Thursday(n);
    && DaysBeforeYear(y) < t <= DaysBeforeYear(y + 1)
    && DaysBeforeYear(y) + 7 * (w - 1) < t <= DaysBeforeYear(y) + 7 * w
  }

  /** The date `d` is in ISO week `w` of year `y`. */
  predicate IsIsoWeek(d: Date, y: int, w: int) {
    InIsoWeek(DayNumber(d), y, w)
  }

  /** The triple `date.isocalendar()` returns; `weekday` runs from 1 (Monday) to 7. */
  datatype IsoDate = IsoDate(year: int, week: int, weekday: int)

  /** Day number of the Monday that starts ISO week 1 of year `y`. */
  function Week1Monday(y: int): int {
    var first := DaysBeforeYear(y) + 1;
    var firstWeekday := (first + 6) % 7;
    var monday := first - firstWeekday;
    if firstWeekday > 3 then monday + 7 else monday
  }

  /** What the ISO calendar date `r` of day `n` of year `y` satisfies. */
  predicate Describes(y: int, n: int, r: IsoDate) {
    && 1 <= r.week <= 53
    && r.weekday == Weekday(n) + 1
    && y - 1 <= r.year <= y + 1
    && InIsoWeek(n, r.year, r.week)
  }

  /** The ISO calendar date of day `n`, which lies in year `y`, computed the way
      `date.isocalendar()` does: the offset from the year's week-1 Monday, falling back
      to the previous year before it, and moving to week 1 of the next year once the
      next year's week-1 Monday is reached. */
  function IsoOfDay(y: int, n: int): (r: IsoDate)
    requires DaysBeforeYear(y) < n <= DaysBeforeYear(y + 1)
    ensures Describes(y, n, r)
  {
    var monday1 := Week1Monday(y);
    var week := (n - monday1) / 7;
    var day := (n - monday1) % 7;
    if week < 0 then
      var monday0 := Week1Monday(y - 1);
      var r := IsoDate(y - 1, (n - monday0) / 7 + 1, (n - monday0) % 7 + 1);
      PreviousYearWeek(y, n, r);
      r
    else if week >= 52 && n >= Week1Monday(y + 1) then
      var r := IsoDate(y + 1, 1, day + 1);
      NextYearFirstWeek(y, n, r);
      r
    else
      var r := IsoDate(y, week + 1, day + 1);
      SameYearWeek(y, n, r);
      r
  }

  /** `dt.isocalendar()` of a date: its ISO year, week (1 to 53) and weekday. */
  function IsoCalendar(d: Date): (r: IsoDate)
    ensures 1 <= r.week <= 53
    ensures r.weekday == DayOfWeek(d) + 1
    ensures d.year - 1 <= r.year <= d.year + 1
    ensures IsIsoWeek(d, r.year, r.week)
  {
    IsoOfDay(d.year, DayNumber(d))
  }

  /** `m` is a Monday, so the Monday before or on day `n` is a whole number of weeks after
      `m`, and `n`'s offset from `m` modulo 7 is its day of the week. */
  lemma MondayOf(n: int, m: int)
    requires Weekday(m) == 0
    ensures n - Weekday(n) == m + 7 * ((n - m) / 7)
    ensures (n - m) % 7 == Weekday(n)
  {
    var q, r := (n - m) / 7, (n - m) % 7;
    var j := (m + 6) / 7;
    assert m == 7 * j - 6;
    DivisionUnique(n + 6, 7, q + j, r);
  }

  /** The week-1 Monday is a Monday, and its Thursday is among the first seven days of
      the year. */
  lemma Week1MondayFacts(y: int)
    ensures Weekday(Week1Monday(y)) == 0
    ensures DaysBeforeYear(y) < Week1Monday(y) + 3 <= DaysBeforeYear(y) + 7
  {
    var first := DaysBeforeYear(y) + 1;
    var firstWeekday := (first + 6) % 7;
    var k := (first - 1) / 7;
    MondayOf(first, 1);
    assert first - firstWeekday == 1 + 7 * k;
    if firstWeekday > 3 {
      assert Week1Monday(y) == 1 + 7 * (k + 1);
      DivisionUnique(Week1Monday(y) + 6, 7, k + 2, 0);
    } else {
      assert Week1Monday(y) == 1 + 7 * k;
      DivisionUnique(Week1Monday(y) + 6, 7, k + 1, 0);
    }
  }

  /** The case `week < 0`: day `n` precedes its year's week-1 Monday, so it is counted
      from the previous year's. */
  lemma PreviousYearWeek(y: int, n: int, r: IsoDate)
    requires DaysBeforeYear(y) < n <= DaysBeforeYear(y + 1) && n < Week1Monday(y)
    requires var monday0 := Week1Monday(y - 1);
      r == IsoDate(y - 1, (n - monday0) / 7 + 1, (n - monday0) % 7 + 1)
    ensures Describes(y, n, r)
  {
    var monday0, monday1 := Week1Monday(y - 1), Week1Monday(y);
    Week1MondayFacts(y - 1);
    Week1MondayFacts(y);
    YearLength(y - 1);
    MondayOf(n, monday0);
    MondayOf(n, monday1);
    PreviousYearSpan(n, Weekday(n), DaysBeforeYear(y - 1), DaysBeforeYear(y),
      monday0, monday1, (n - monday0) / 7, (n - monday1) / 7);
  }

  /** The arithmetic of `PreviousYearWeek`: `b0` and `b` start the previous and the
      current year, `m0` and `m1` are their week-1 Mondays, and the Monday of day `n` is
      `k` weeks after `m0` and `j` weeks after `m1`. */
  lemma PreviousYearSpan(n: int, dow: int, b0: int, b: int, m0: int, m1: int, k: int, j: int)
    requires 0 <= dow <= 6 && b < n && n < m1
    requires b0 < m0 + 3 <= b0 + 7 && b < m1 + 3 <= b + 7 && b0 + 365 <= b <= b0 + 366
    requires n - dow == m0 + 7 * k && n - dow == m1 + 7 * j
    ensures var t := n - dow + 3;
      && b0 < t <= b
      && b0 + 7 * k < t <= b0 + 7 * (k + 1)
      && 0 <= k <= 52
  {
    assert j < 0;
  }

  /** The case `week >= 52` with the next year's week-1 Monday reached: day `n` is in
      week 1 of the next year. */
  lemma NextYearFirstWeek(y: int, n: int, r: IsoDate)
    requires DaysBeforeYear(y) < n <= DaysBeforeYear(y + 1) && Week1Monday(y + 1) <= n
    requires r == IsoDate(y + 1, 1, (n - Week1Monday(y)) % 7 + 1)
    ensures Describes(y, n, r)
  {
    var monday1, monday2 := Week1Monday(y), Week1Monday(y + 1);
    Week1MondayFacts(y);
    Week1MondayFacts(y + 1);
    YearLength(y + 1);
    MondayOf(n, monday1);
    MondayOf(n, monday2);
    NextYearSpan(n, Weekday(n), DaysBeforeYear(y + 1), DaysBeforeYear(y + 2),
      monday2, (n - monday2) / 7);
  }

  /** The arithmetic of `NextYearFirstWeek`: `b1` and `b2` start the next year and the
      one after, `m2` is the next year's week-1 Monday, and the Monday of day `n` is `j`
      weeks after it. */
  lemma NextYearSpan(n: int, dow: int, b1: int, b2: int, m2: int, j: int)
    requires 0 <= dow <= 6 && m2 <= n <= b1
    requires b1 < m2 + 3 <= b1 + 7 && b1 + 365 <= b2
    requires n - dow == m2 + 7 * j
    ensures var t := n - dow + 3;
      b1 < t <= b2 && b1 < t <= b1 + 7
  {
    assert j == 0;
  }

  /** The remaining case: day `n` is in week `week + 1` of its own year. */
  lemma SameYearWeek(y: int, n: int, r: IsoDate)
    requires DaysBeforeYear(y) < n <= DaysBeforeYear(y + 1)
    requires var monday1 := Week1Monday(y);
      && monday1 <= n
      && ((n - monday1) / 7 < 52 || n < Week1Monday(y + 1))
      && r == IsoDate(y, (n - monday1) / 7 + 1, (n - monday1) % 7 + 1)
    ensures Describes(y, n, r)
  {
    var monday1, monday2 := Week1Monday(y), Week1Monday(y + 1);
    Week1MondayFacts(y);
    Week1MondayFacts(y + 1);
    YearLength(y);
    MondayOf(n, monday1);
    MondayOf(monday2, monday1);
    SameYearSpan(n, Weekday(n), DaysBeforeYear(y), DaysBeforeYear(y + 1),
      monday1, monday2, (n - monday1) / 7, (monday2 - monday1) / 7);
  }

  /** The arithmetic of `SameYearWeek`: `b` and `b1` start this year and the next, `m1`
      and `m2` are their week-1 Mondays, `m2` is `k2` weeks after `m1`, and the Monday
      of day `n` is `q` weeks after `m1`. */
  lemma SameYearSpan(n: int, dow: int, b: int, b1: int, m1: int, m2: int, q: int, k2: int)
    requires 0 <= dow <= 6 && m1 <= n
    requires b < m1 + 3 <= b + 7 && b1 < m2 + 3 <= b1 + 7 && b + 365 <= b1 <= b + 366
    requires n - dow == m1 + 7 * q && m2 == m1 + 7 * k2
    requires q < 52 || n < m2
    ensures var t := n - dow + 3;
      && b < t <= b1
      && b + 7 * q < t <= b + 7 * (q + 1)
      && 0 <= q <= 52
  {
    if 52 <= q {
      assert q < k2;
    }
  }

  /** ISO week numbers are at most 53, and a day has exactly one ISO year and week. */
  lemma IsoWeekUnique(n: int, y1: int, w1: int, y2: int, w2: int)
    requires InIsoWeek(n, y1, w1) && InIsoWeek(n, y2, w2)
    ensures y1 == y2 && w1 == w2
    ensures 1 <= w1 <= 53
  {
    if y1 < y2 {
      YearsAdvance(y1, y2);
    } else if y2 < y1 {
      YearsAdvance(y2, y1);
    }
    YearLength(y1);
  }

  /** From one day to the next the weekday advances by one, modulo 7. */
  lemma WeekdayStep(n: int)
    ensures Weekday(n + 1) == (Weekday(n) + 1) % 7
    ensures Weekday(n + 1) == if Weekday(n) == 6 then 0 else Weekday(n) + 1
  {
    var q, r := (n + 6) / 7, (n + 6) % 7;
    if r == 6 {
      DivisionUnique(n + 7, 7, q + 1, 0);
    } else {
      DivisionUnique(n + 7, 7, q, r + 1);
    }
    DivisionUnique(r + 1, 7, if r == 6 then 1 else 0, if r == 6 then 0 else r + 1);
  }

  /** The weekday column advances by one, modulo 7, from one date to the next. */
  lemma DayOfWeekAdvances(d: Date)
    ensures DayOfWeek(Next(d)) == (DayOfWeek(d) + 1) % 7
    ensures DayOfWeek(Next(d)) == if DayOfWeek(d) == 6 then 0 else DayOfWeek(d) + 1
  {
    WeekdayStep(DayNumber(d));
  }

  /** The ISO week only changes on a Monday, and then it is either the following week of
      the same ISO year or week 1 of the next ISO year. */
  lemma IsoWeekAdvances(d: Date)
    ensures var a, b := IsoCalendar(d), IsoCalendar(Next(d));
      if DayOfWeek(Next(d)) != 0 then b.year == a.year && b.week == a.week
      else (b.year == a.year && b.week == a.week + 1) || (b.year == a.year + 1 && b.week == 1)
  {
    NextDayWeek(d, Next(d));
  }

  /** The same for any date `e` that follows `d`. */
  lemma NextDayWeek(d: Date, e: Date)
    requires DayNumber(e) == DayNumber(d) + 1
    ensures var a, b := IsoCalendar(d), IsoCalendar(e);
      if DayOfWeek(e) != 0 then b.year == a.year && b.week == a.week
      else (b.year == a.year && b.week == a.week + 1) || (b.year == a.year + 1 && b.week == 1)
  {
    var a, b := IsoCalendar(d), IsoCalendar(e);
    WeekStep(DayNumber(d), a.year, a.week, b.year, b.week);
  }

  /** The same on day numbers: day `n` is in week `w1` of ISO year `y1`, and day `n + 1`
      in week `w2` of ISO year `y2`. */
  lemma WeekStep(n: int, y1: int, w1: int, y2: int, w2: int)
    requires InIsoWeek(n, y1, w1) && InIsoWeek(n + 1, y2, w2)
    ensures if Weekday(n + 1) != 0 then y2 == y1 && w2 == w1
      else (y2 == y1 && w2 == w1 + 1) || (y2 == y1 + 1 && w2 == 1)
  {
    WeekdayStep(n);
    if Weekday(n + 1) != 0 {
      assert Thursday(n + 1) == Thursday(n);
      IsoWeekUnique(n + 1, y1, w1, y2, w2);
    } else {
      assert Thursday(n + 1) == Thursday(n) + 7;
      WeekAfter(n, n + 1, y1, w1, y2, w2);
    }
  }

  /** When day `m`'s Thursday is a week after day `n`'s, its ISO week follows `n`'s. */
  lemma WeekAfter(n: int, m: int, y1: int, w1: int, y2: int, w2: int)
    requires Thursday(m) == Thursday(n) + 7
    requires InIsoWeek(n, y1, w1) && InIsoWeek(m, y2, w2)
    ensures (y2 == y1 && w2 == w1 + 1) || (y2 == y1 + 1 && w2 == 1)
  {
    YearLength(y1 + 1);
    if InIsoWeek(m, y1, w1 + 1) {
      IsoWeekUnique(m, y1, w1 + 1, y2, w2);
    } else {
      assert InIsoWeek(m, y1 + 1, 1);
      IsoWeekUnique(m, y1 + 1, 1, y2, w2);
    }
  }

  /** Thursdays of weeks never go backwards: a later day is in the same week or a
      later one. */
  lemma ThursdayMonotone(a: int, b: int)
    requires a <= b
    ensures Thursday(a) <= Thursday(b)
  {
    var q1, q2 := (a + 6) / 7, (b + 6) / 7;
    assert Thursday(a) == 7 * q1 - 3 && Thursday(b) == 7 * q2 - 3;
    if q2 < q1 {
      MultipleAtLeast(7, q1 - q2);
    }
  }

  /** Within one ISO year, week numbers never decrease as the days advance. */
  lemma WeekOrder(d: Date, e: Date, y: int, w1: int, w2: int)
    requires DayNumber(d) <= DayNumber(e)
    requires IsIsoWeek(d, y, w1) && IsIsoWeek(e, y, w2)
    ensures w1 <= w2
  {
    ThursdayMonotone(DayNumber(d), DayNumber(e));
  }

  /** From January 4th to December 28th, every day is in an ISO week of its own year. */
  lemma MidYearIsoYear(d: Date, y: int, w: int)
    requires 4 <= DayOfYear(d) <= DaysInYear(d.year) - 3
    requires IsIsoWeek(d, y, w)
    ensures y == d.year
  {
    YearLength(d.year);
    if y < d.year {
      YearsAdvance(y, d.year);
    } else if d.year < y {
      YearsAdvance(d.year, y);
    }
  }

  /** January 4th is always in week 1 of its own year: ISO week 1 is the week holding
      January 4th. */
  lemma FourthOfJanuary(d: Date, y: int, w: int)
    requires d.month == 1 && d.day == 4
    requires IsIsoWeek(d, y, w)
    ensures y == d.year && w == 1
  {
    YearLength(d.year);
    assert IsIsoWeek(d, d.year, 1);
    IsoWeekUnique(DayNumber(d), d.year, 1, y, w);
  }

  /** December 1st to 21st are in weeks 48 to 52 of their own year. */
  lemma DecemberWeeks(d: Date, y: int, w: int)
    requires d.month == 12 && d.day <= 21
    requires IsIsoWeek(d, y, w)
    ensures y == d.year && 48 <= w <= 52
  {
    MidYearIsoYear(d, y, w);
  }

  /** The boundary case of the ISO rule: Monday 2024-12-30 is in week 1 of 2025. */
  lemma LateDecemberInNextYear()
    ensures DayOfWeek(Ymd(2024, 12, 30)) == 0
    ensures IsoCalendar(Ymd(2024, 12, 30)) == IsoDate(2025, 1, 1)
  {
  }

  /** Tuesday 2024-12-31 is in week 1 of 2025 as well. */
  lemma NewYearsEveInNextYear()
    ensures IsoCalendar(NewYearsEve(2024)) == IsoDate(2025, 1, 2)
  {
    assert DayNumber(NewYearsEve(2024)) == 739251;
    assert Week1Monday(2024) == 738886;
    assert Week1Monday(2025) == 739250;
  }

  /** Monday 2024-01-01 starts week 1 of 2024. */
  lemma NewYearsDayInWeekOne()
    ensures IsoCalendar(Ymd(2024, 1, 1)) == IsoDate(2024, 1, 1)
  {
    assert DaysBeforeYear(2024) == 738885;
    assert DayNumber(Ymd(2024, 1, 1)) == 738886;
    assert Week1Monday(2024) == 738886;
    assert Weekday(738886) == 0;
  }

  /** The other boundary: Friday 2021-01-01 is in week 53 of 2020. */
  lemma EarlyJanuaryInPreviousYear()
    ensures DayOfWeek(Ymd(2021, 1, 1)) == 4
    ensures IsoCalendar(Ymd(2021, 1, 1)) == IsoDate(2020, 53, 5)
  {
    assert DayNumber(Ymd(2021, 1, 1)) == 737791;
    assert Week1Monday(2021) == 737794;
    assert Week1Monday(2020) == 737423;
  }

  /** Sunday 2023-01-01 is in week 52 of 2022. */
  lemma NewYearSundayInPreviousYear()
    ensures IsoCalendar(Ymd(2023, 1, 1)) == IsoDate(2022, 52, 7)
  {
    assert DayNumber(Ymd(2023, 1, 1)) == 738521;
    assert Week1Monday(2023) == 738522;
    assert Week1Monday(2022) == 738158;
  }
}
