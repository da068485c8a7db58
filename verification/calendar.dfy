/** Proleptic Gregorian calendar arithmetic as Python's `datetime.date` and the pandas
    `Timestamp` compute it: the leap-year rule, month lengths, the ordinal day number
    (0001-01-01 is day 1, as `date.toordinal()`), the daily successor and the daily
    date range `pd.date_range(start, end)` generates. */
module Calendar {

  /** A year-month-day triple, not necessarily a real date. */
  datatype Ymd = Ymd(year: int, month: int, day: int)

  /** The Gregorian rule: every 4th year, except centuries not divisible by 400. */
  predicate IsLeapYear(y: int) {
    y % 4 == 0 && (y % 100 != 0 || y % 400 == 0)
  }

  function DaysInYear(y: int): int {
    if IsLeapYear(y) then 366 else 365
  }

  function DaysInMonth(y: int, m: int): int
    requires 1 <= m <= 12
  {
    if m == 2 then (if IsLeapYear(y) then 29 else 28)
    else if m == 4 || m == 6 || m == 9 || m == 11 then 30
    else 31
  }

  predicate IsValid(d: Ymd) {
    1 <= d.month <= 12 && 1 <= d.day <= DaysInMonth(d.year, d.month)
  }

  /** A calendar date: a triple that names a real day. */
  type Date = d: Ymd | IsValid(d) witness Ymd(1, 1, 1)

  /** 2024 is a leap year of 366 days; 1900 is a century year that is not. */
  lemma LeapYearExamples()
    ensures DaysInYear(2024) == 366 && DaysInYear(2023) == 365 && DaysInYear(1900) == 365
  {
    DivisionUnique(2024, 4, 506, 0);
    DivisionUnique(2024, 100, 20, 24);
    DivisionUnique(2023, 4, 505, 3);
    DivisionUnique(1900, 4, 475, 0);
    DivisionUnique(1900, 100, 19, 0);
    DivisionUnique(1900, 400, 4, 300);
  }

  /** Days in all years before year `y`, counted from 0001-01-01 (negative before it). */
  function DaysBeforeYear(y: int): int {
    var p := y - 1;
    p * 365 + p / 4 - p / 100 + p / 400
  }

  /** Days in the months of year `y` before month `m`. */
  function DaysBeforeMonth(y: int, m: int): int
    requires 1 <= m <= 12
  {
    var common :=
      if m == 1 then 0 else if m == 2 then 31 else if m == 3 then 59
      else if m == 4 then 90 else if m == 5 then 120 else if m == 6 then 151
      else if m == 7 then 181 else if m == 8 then 212 else if m == 9 then 243
      else if m == 10 then 273 else if m == 11 then 304 else 334;
    if m > 2 && IsLeapYear(y) then common + 1 else common
  }

  /** Position of `d` within its year, 1 for January 1st. */
  function DayOfYear(d: Date): (n: int)
    ensures 1 <= n <= DaysInYear(d.year)
    ensures d.month == 12 ==> n == DaysInYear(d.year) - 31 + d.day
  {
    DaysBeforeMonth(d.year, d.month) + d.day
  }

  /** The ordinal of `d`: consecutive days have consecutive numbers, 0001-01-01 is 1. */
  function DayNumber(d: Date): (n: int)
    ensures DaysBeforeYear(d.year) < n <= DaysBeforeYear(d.year + 1)
  {
    YearLength(d.year);
    DaysBeforeYear(d.year) + DayOfYear(d)
  }

  /** The years between consecutive year starts have the Gregorian length. */
  lemma YearLength(y: int)
    ensures DaysBeforeYear(y + 1) == DaysBeforeYear(y) + DaysInYear(y)
  {
    CountStep(y, 4);
    CountStep(y, 100);
    CountStep(y, 400);
  }

  /** Going from `y - 1` to `y`, the count of multiples of `k` grows exactly when `k`
      divides `y`. */
  lemma CountStep(y: int, k: int)
    requires k > 0
    ensures y / k - (y - 1) / k == if y % k == 0 then 1 else 0
  {
    var q, r := (y - 1) / k, (y - 1) % k;
    if r == k - 1 {
      DivisionUnique(y, k, q + 1, 0);
    } else {
      DivisionUnique(y, k, q, r + 1);
    }
  }

  lemma DivisionUnique(a: int, k: int, q: int, r: int)
    requires k > 0 && 0 <= r < k && a == k * q + r
    ensures a / k == q && a % k == r
  {
    var q', r' := a / k, a % k;
    assert a == k * q' + r';
    if q' < q {
      MultipleAtLeast(k, q - q');
    } else if q < q' {
      MultipleAtLeast(k, q' - q);
    }
  }

  lemma MultipleAtLeast(k: int, x: int)
    requires k > 0 && x >= 1
    ensures k * x >= k
  {
  }

  /** Year starts are strictly increasing: all of year `a` precedes any later year. */
  lemma {:induction false} YearsAdvance(a: int, b: int)
    requires a < b
    ensures DaysBeforeYear(a + 1) <= DaysBeforeYear(b)
    decreases b - a
  {
    if a + 1 < b {
      YearsAdvance(a + 1, b);
      YearLength(a + 1);
    }
  }

  /** Consecutive month starts are one month length apart. */
  lemma MonthLength(y: int, m: int)
    requires 1 <= m < 12
    ensures DaysBeforeMonth(y, m + 1) == DaysBeforeMonth(y, m) + DaysInMonth(y, m)
  {
  }

  /** All of month `a` precedes any later month `b` of the same year. */
  lemma MonthsAdvance(y: int, a: int, b: int)
    requires 1 <= a < b <= 12
    ensures DaysBeforeMonth(y, a) + DaysInMonth(y, a) <= DaysBeforeMonth(y, b)
  {
  }

  /** A date's year is the year whose span holds its day number. */
  lemma YearOfDayNumber(d: Date, y: int)
    requires DaysBeforeYear(y) < DayNumber(d) <= DaysBeforeYear(y + 1)
    ensures d.year == y
  {
    if d.year < y {
      YearsAdvance(d.year, y);
    } else if y < d.year {
      YearsAdvance(y, d.year);
    }
  }

  /** Chronological order on triples: by year, then month, then day. */
  predicate Before(a: Ymd, b: Ymd) {
    a.year < b.year
    || (a.year == b.year && (a.month < b.month || (a.month == b.month && a.day < b.day)))
  }

  /** The day number is an order isomorphism from dates onto integers. */
  lemma DayNumberOrder(a: Date, b: Date)
    ensures Before(a, b) <==> DayNumber(a) < DayNumber(b)
  {
    if a.year < b.year {
      YearsAdvance(a.year, b.year);
    } else if b.year < a.year {
      YearsAdvance(b.year, a.year);
    } else if a.month < b.month {
      MonthsAdvance(a.year, a.month, b.month);
    } else if b.month < a.month {
      MonthsAdvance(a.year, b.month, a.month);
    }
  }

  /** Distinct dates have distinct day numbers. */
  lemma DayNumberInjective(a: Date, b: Date)
    requires DayNumber(a) == DayNumber(b)
    ensures a == b
  {
    DayNumberOrder(a, b);
    DayNumberOrder(b, a);
  }

  /** The following day (pandas' daily frequency step). */
  function Next(d: Date): (r: Date)
    ensures DayNumber(r) == DayNumber(d) + 1
    ensures Before(d, r)
  {
    if d.day < DaysInMonth(d.year, d.month) then
      Ymd(d.year, d.month, d.day + 1)
    else if d.month < 12 then
      MonthLength(d.year, d.month);
      Ymd(d.year, d.month + 1, 1)
    else
      YearLength(d.year);
      Ymd(d.year + 1, 1, 1)
  }

  /** `pd.date_range(start, end)`: every day from `start` to `end` inclusive, in order;
      empty when `end` precedes `start`. */
  function DateRange(start: Date, end: Date): (r: seq<Date>)
    ensures |r| == if DayNumber(start) <= DayNumber(end) then DayNumber(end) - DayNumber(start) + 1 else 0
    ensures forall i :: 0 <= i < |r| ==> DayNumber(r[i]) == DayNumber(start) + i
    ensures forall i :: 0 < i < |r| ==> r[i] == Next(r[i - 1])
    decreases DayNumber(end) - DayNumber(start)
  {
    if DayNumber(end) < DayNumber(start) then []
    else if DayNumber(end) == DayNumber(start) then [start]
    else
      var rest := DateRange(Next(start), end);
      assert rest[0] == Next(start);
      [start] + rest
  }

  function NewYearsDay(y: int): Date {
    Ymd(y, 1, 1)
  }

  function NewYearsEve(y: int): Date {
    Ymd(y, 12, 31)
  }

  /** The dates of year `y`, January 1st to December 31st (habits.py line 41). */
  function YearDates(y: int): (r: seq<Date>)
    ensures |r| == DaysInYear(y)
    ensures r[0] == NewYearsDay(y) && r[|r| - 1] == NewYearsEve(y)
    ensures forall i :: 0 <= i < |r| ==> r[i].year == y && DayOfYear(r[i]) == i + 1
    ensures forall i :: 0 < i < |r| ==> r[i] == Next(r[i - 1])
    ensures forall i, j :: 0 <= i < j < |r| ==> Before(r[i], r[j])
  {
    var r := DateRange(NewYearsDay(y), NewYearsEve(y));
    YearRange(y, r);
    YearRangeOrdered(r);
    r
  }

  /** The range from January 1st to December 31st of `y` holds the days of `y` in order. */
  lemma YearRange(y: int, r: seq<Date>)
    requires r == DateRange(NewYearsDay(y), NewYearsEve(y))
    ensures |r| == DaysInYear(y)
    ensures r[0] == NewYearsDay(y) && r[|r| - 1] == NewYearsEve(y)
    ensures forall i :: 0 <= i < |r| ==> r[i].year == y && DayOfYear(r[i]) == i + 1
    ensures forall i :: 0 < i < |r| ==> r[i] == Next(r[i - 1])
  {
    YearLength(y);
    var first, last := NewYearsDay(y), NewYearsEve(y);
    assert DayNumber(first) == DaysBeforeYear(y) + 1;
    assert DayNumber(last) == DaysBeforeYear(y) + DaysInYear(y);
    assert |r| == DaysInYear(y);
    DayNumberInjective(r[0], first);
    DayNumberInjective(r[|r| - 1], last);
    forall i | 0 <= i < |r|
      ensures r[i].year == y && DayOfYear(r[i]) == i + 1
    {
      assert DayNumber(r[i]) == DaysBeforeYear(y) + 1 + i;
      YearOfDayNumber(r[i], y);
    }
  }

  /** Dates whose day numbers increase along a sequence are in calendar order. */
  lemma YearRangeOrdered(r: seq<Date>)
    requires forall i :: 0 < i < |r| ==> r[i] == Next(r[i - 1])
    ensures forall i, j :: 0 <= i < j < |r| ==> Before(r[i], r[j])
  {
    forall i, j | 0 <= i < j < |r|
      ensures Before(r[i], r[j])
    {
      NextIncreases(r, i, j);
      DayNumberOrder(r[i], r[j]);
    }
  }

  lemma {:induction false} NextIncreases(r: seq<Date>, i: int, j: int)
    requires forall k :: 0 < k < |r| ==> r[k] == Next(r[k - 1])
    requires 0 <= i <= j < |r|
    ensures DayNumber(r[j]) == DayNumber(r[i]) + (j - i)
    decreases j - i
  {
    if i < j {
      NextIncreases(r, i, j - 1);
    }
  }

  /** Every date of year `y` is in the range, at the position its day of year names. */
  lemma YearDatesComplete(y: int, d: Date)
    requires d.year == y
    ensures DayOfYear(d) - 1 < |YearDates(y)| && YearDates(y)[DayOfYear(d) - 1] == d
  {
    var r := YearDates(y);
    var e := r[DayOfYear(d) - 1];
    assert DayOfYear(e) == DayOfYear(d);
    DayNumberInjective(e, d);
  }

  /** The range of a year has no repeated date. */
  lemma YearDatesDistinct(y: int, i: int, j: int)
    requires 0 <= i < |YearDates(y)| && 0 <= j < |YearDates(y)| && i != j
    ensures YearDates(y)[i] != YearDates(y)[j]
  {
    var r := YearDates(y);
    DayNumberOrder(r[i], r[j]);
    DayNumberOrder(r[j], r[i]);
  }
}
