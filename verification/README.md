# Calendar heatmap data preparation, in Dafny

`habits.py` is a Streamlit page that downloads an iCalendar (`.ics`) export and draws one
heatmap per year. The heatmap shows how many events start on each day. This project models the
data preparation behind those heatmaps and proves its properties:

- **Counting** (`counting.dfy`, module `Counting`): the loop over the parsed calendar's
  components. It takes the DTSTART of every VEVENT and truncates a date-time to its date.
  It then tallies the dates into a map from date to count.
- **Year table** (`tables.dfy`, `Tables`): the counts are restricted to one year and
  re-indexed over every day from January 1st to December 31st. A day without events gets 0.
- **Calendar arithmetic** (`calendar.dfy`, `Calendar`): proleptic Gregorian dates and
  ordinal day numbers, as Python's `date.toordinal()` computes them. Also the daily range
  that `pd.date_range` generates.
- **Weeks** (`weeks.dfy`, `Weeks`):
  - `dt.dayofweek`, with Monday 0.
  - `dt.isocalendar().week`, modelled on the algorithm CPython's `date.isocalendar()` uses.
    It is proved equal to the ISO 8601 rule: a week belongs to the year of its Thursday.
- **Frame** (`grid.dfy`, `Grid`): `df_year`, one cell per day with its count, weekday, ISO
  week and `strftime('%b')` month label. Also the corrected column `GridColumn` described
  under "Findings".
- **Month markers** (`markers.dfy`, `Markers`): `df_year.iloc[:-10].groupby('Month')
  ['WeekOfYear'].min()`, which places each month name at the smallest week among its rows,
  leaving out the last ten rows.
- **Top level** (`plot.dfy`, `Plot`): the list of years to draw, the current year first, and
  the heatmaps drawn for them. The current year and the number of years are parameters.
  `Plot.YearHeatmap` is the heatmap as the script draws it, with ISO weeks as columns.
  `Plot.CorrectedHeatmap` is the corrected layout, whose squares and markers both use
  `GridColumn`.

`wrappers.dfy` holds the `Option` type. A VEVENT without DTSTART makes the script stop with
an attribute error. The model returns `None` in that case.

The script counts every date first and filters by year afterwards (habits.py line 38). The
reverse order would be to filter the dates by year and count them then.
`Tables.TallyThenFilter` proves that the two orders give the same map.

## Model

| member | source | states |
|---|---|---|
| Calendar.LeapYearExamples | habits.py:41 | the range of 2024 has 366 days; those of 2023 and of the century year 1900 have 365 |
| Calendar.Next | habits.py:41 | the next day has ordinal one more and comes later in calendar order, across month and year ends |
| Calendar.DateRange | habits.py:41 | `date_range(start, end)` has end − start + 1 days, or none when end precedes start; the i-th is i days after start, each the day after its predecessor |
| Calendar.DayNumberOrder | habits.py:41 | calendar order of dates coincides with the order of their ordinals |
| Calendar.DayNumberInjective | habits.py:41 | distinct dates have distinct ordinals |
| Calendar.YearDates | habits.py:41 | the range of a year runs from January 1st to December 31st and has 365 or 366 entries; entry i is day i+1 of the year and the day after entry i−1; entries are strictly increasing |
| Calendar.YearDatesComplete | habits.py:41 | every date of the year appears, at the position its day of year names |
| Calendar.YearDatesDistinct | habits.py:41 | no date appears twice in a year's range |
| Weeks.DayOfWeek | habits.py:50 | the weekday is between 0 (Monday) and 6 (Sunday) |
| Weeks.IsoOfDay | habits.py:51 | the `isocalendar()` computation gives a week in 1..53, an ISO weekday one more than `dayofweek`, an ISO year at most one off the calendar year, and the (year, week) whose Thursday rule holds for the day |
| Weeks.IsoCalendar | habits.py:51 | the same for a date: its ISO week number is in 1..53 and the date lies in that ISO week |
| Weeks.IsoWeekUnique | habits.py:51 | a day lies in exactly one ISO (year, week), so the computed week is the ISO week |
| Weeks.DayOfWeekAdvances | habits.py:50 | from one day to the next the weekday advances by one modulo 7 (Sunday 6 to Monday 0) |
| Weeks.IsoWeekAdvances | habits.py:51 | the ISO week stays the same except on a Monday; there it moves to the next week of the ISO year or to week 1 of the next ISO year |
| Weeks.WeekOrder | habits.py:51 | within one ISO year, a later day never has a smaller week |
| Weeks.MidYearIsoYear | habits.py:51 | every day from January 4th to December 28th is in an ISO week of its own year |
| Weeks.FourthOfJanuary | habits.py:51 | January 4th is always in week 1 of its own year |
| Weeks.DecemberWeeks | habits.py:51 | December 1st to 21st lie in weeks 48 to 52 of their own year |
| Weeks.LateDecemberInNextYear | habits.py:51 | Monday 2024-12-30 is in week 1 of ISO year 2025 |
| Weeks.NewYearsEveInNextYear | habits.py:51 | 2024-12-31 is in week 1 of ISO year 2025 |
| Weeks.NewYearsDayInWeekOne | habits.py:51 | Monday 2024-01-01 is in week 1 of 2024 |
| Weeks.EarlyJanuaryInPreviousYear | habits.py:51 | Friday 2021-01-01 is in week 53 of ISO year 2020 |
| Weeks.NewYearSundayInPreviousYear | habits.py:51 | Sunday 2023-01-01 is in week 52 of ISO year 2022 |
| Counting.TruncateDropsTime | habits.py:186-187 | two starts fall on one day iff they carry the same date, whatever their time of day; a date-time counts on the day an all-day start of that date counts on |
| Counting.StartDates | habits.py:183-187 | the start dates exist exactly when every VEVENT has a DTSTART; there is one per VEVENT, a date occurs iff some VEVENT starts on it after truncation, and each date occurs as often as VEVENTs start on it |
| Counting.OccurrencesCount | habits.py:188-191 | counting the occurrences of a date one by one gives its multiplicity in the sequence |
| Counting.Tally | habits.py:188-191 | the map's keys are exactly the dates seen; each count is the number of occurrences of its date and at least 1 |
| Counting.TallyTotal | habits.py:188-191 | the counts add up to the number of dates tallied |
| Counting.CountEvents | habits.py:182-191 | counting succeeds exactly when every VEVENT has a DTSTART; then a date is a key iff some VEVENT starts on it, and its count is the number of VEVENTs starting on it |
| Counting.CountEventsTotal | habits.py:182-191 | the counts add up to the number of VEVENT components |
| Tables.FilterCount | habits.py:38 | `YearFilter` keeps exactly the dates of the year, each with its count; every date of another year reads 0 |
| Tables.Reindex | habits.py:44 | one row per index label, in index order, each with the series' value or 0 when the label is absent |
| Tables.YearTable | habits.py:38-44 | the table of a year has one row per day, from January 1st to December 31st in strictly increasing consecutive order; each row holds its day's count, 0 when absent; dates of other years do not appear |
| Tables.YearTableLookup | habits.py:41-44 | every date of the year has its row, at the position its day of year names, with its count |
| Tables.ReindexTotal | habits.py:44 | re-indexing over distinct labels keeps exactly the counts of the labelled dates |
| Tables.YearTableTotal | habits.py:38-44 | the table's total equals the sum of the input counts dated in that year |
| Tables.InYear | habits.py:38 | the dates of the year keep their multiplicity; dates of other years are dropped |
| Tables.TallyThenFilter | habits.py:38 | counting then filtering by year gives the same map as filtering then counting |
| Tables.EventsInYearTotal | habits.py:38-44 | a year's table adds up to the number of start dates that fall in that year |
| Tables.EmptyInputTable | habits.py:41-44 | with no events the table still lists every day of the year, all with 0, total 0 |
| Tables.BoundaryOnlyTable | habits.py:41-44 | counts on January 1st and December 31st only land in the first and last rows; every row between is 0 |
| Tables.YearBoundaryTable | habits.py:38-44 | two events on January 1st and one on December 31st give 2 in the first row, 1 in the last and 0 in between, for any year |
| Grid.MonthLabel | habits.py:52 | the `%b` label is a three-letter abbreviation; that it names its month one-to-one is Grid.MonthLabelRoundTrip and Grid.MonthLabelInjective |
| Grid.MonthNumber | habits.py:52 | a label that names a month names it by its `%b` abbreviation |
| Grid.MonthLabelRoundTrip | habits.py:52 | reading back the label of month m gives m |
| Grid.MonthLabelInjective | habits.py:52 | distinct months have distinct labels |
| Grid.ToCell | habits.py:50-52 | a cell keeps its date and count; its weekday is in 0..6 and its week in 1..53; the date lies in that ISO week; the month label reads back as the date's month |
| Grid.Frame | habits.py:47-52 | the frame has one cell per table row, in order |
| Grid.YearFrame | habits.py:38-52 | the frame of a year is one cell per day of the year in order, with each day's count, weekday, ISO week and month label |
| Grid.YearFrameAdvances | habits.py:50-51 | down the frame of a year the weekday cycles Monday to Sunday; the week changes only on a Monday, to the next week or to week 1 |
| Grid.FrameTotal | habits.py:47 | deriving the columns keeps the events total |
| Grid.IsoColumnsCollide | habits.py:51-58 | 2024-01-01 and 2024-12-30 get the same weekday and the same ISO week, so the heatmap puts them on one square |
| Grid.GridColumn | habits.py:57 | the corrected column is in 1..54; column and weekday together give the day's offset from the Monday on or before January 1st |
| Grid.GridPositionsDistinct | habits.py:57-58 | within a year, two days share column and weekday iff they are the same day |
| Grid.GridColumnAdvances | habits.py:57 | within a year the corrected column moves on by one exactly on Mondays and never wraps round |
| Grid.GridColumnMonotone | habits.py:57 | within a year a later day never has a smaller corrected column |
| Markers.Trim | habits.py:114 | `iloc[:-10]` keeps the first n−10 rows, and none when there are fewer than ten |
| Markers.MonthStarts | habits.py:114 | `month_starts` holds a marker for every label of the trimmed rows, no greater than any of their weeks, and each marker is the week of one of them |
| Markers.MinWeekByMonth | habits.py:114 | every row's label has a marker no greater than the row's week, and every marker is the week of some row with that label, so it is the minimum |
| Markers.YearMonthStarts | habits.py:114 | in a year's frame the markers are exactly the twelve month labels; January's is week 1 and every other month's is the ISO week of its first day |
| Markers.YearMarkers | habits.py:114 | the same for any frame of a year's shape and any map that is a minimum of the trimmed rows |
| Markers.UntrimmedDecember | habits.py:114 | without the trim, December's marker would be week 1 in every year whose December 31st is in ISO week 1 of the next year (2024, for one) |
| Markers.TrimmedDecember | habits.py:114 | with the trim, December's marker lies in weeks 48 to 52 |
| Markers.GridMonthStarts | habits.py:114 | with the corrected column, the markers are exactly the twelve month labels and every month's, January's included, is the column of its first day |
| Markers.GridMarkers | habits.py:114 | the same for any frame of a year's shape and any map that is a minimum of its trimmed, regridded rows |
| Markers.GridMonthMarker | habits.py:114 | one month's corrected marker is the column of its first day |
| Plot.YearsToPlot | habits.py:204 | the list has n entries, none when n < 1, and entry i is the current year minus i |
| Plot.YearsToPlotShape | habits.py:204 | the list starts at the current year, descends by one, and holds exactly the n years up to the current one |
| Plot.YearHeatmapShape | habits.py:36-58 | `Plot.YearHeatmap`, the heatmap as drawn, has the frame of the year with each day's count, and its markers are the trimmed minima |
| Plot.YearHeatmapPoints | habits.py:55-58 | as drawn, the square of day i+1 has the day's ISO week as x, its weekday as y and its count as z, inside the 53 by 7 grid |
| Plot.HeatmapSquaresCollide | habits.py:51-58 | as drawn, two days of a year with the same weekday and ISO week get the same square |
| Plot.HeatmapOverlapIn2024 | habits.py:51-58 | in the heatmap of 2024 as drawn, two days share a square |
| Plot.PointsDistinct | habits.py:55-58 | with the corrected column, no two days of a year share a square |
| Plot.CorrectedHeatmapSquares | habits.py:55-58 | in the corrected heatmap the square of day i+1 has the day's corrected column, weekday and count, lies in the 54 by 7 grid, and no two days share a square |
| Plot.CorrectedHeatmapMarkers | habits.py:114 | in the corrected heatmap the markers are the twelve month labels, each at the column of the square of the month's first day |
| Plot.Heatmaps | habits.py:182-210 | heatmaps exist exactly when every VEVENT has a DTSTART; there is one per year to plot, and the i-th is the heatmap of the current year minus i drawn from the event counts |
| Plot.HeatmapTotal | habits.py:182-210 | each heatmap's counts add up to the number of VEVENTs that start in its year |

## Findings

| source | as written | input that shows it | evidently intended | confidence | as-written member | corrected member |
|---|---|---|---|---|---|---|
| habits.py:51-58 | the heatmap's x is the ISO week number and its y the weekday | year 2024: Monday January 1st and Monday December 30th are both week 1, weekday 0 | every day of the year has a square of its own: columns are Monday-to-Sunday weeks counted from the week holding January 1st | medium, not executed | Plot.HeatmapSquaresCollide, Plot.HeatmapOverlapIn2024, Grid.IsoColumnsCollide | Plot.CorrectedHeatmapSquares, Plot.CorrectedHeatmapMarkers, Grid.GridPositionsDistinct |

`Plot.YearHeatmap` and `Plot.Heatmaps` model the script as written. `Plot.CorrectedHeatmap`
replaces the ISO week with `GridColumn` in the frame before the squares and the month
markers are derived, so the markers stay aligned with the squares.

## Left out

- The Streamlit page (title, sidebar, setup selection) and the JSON settings file
  (`load_data`, `save_data`, `save_load`, `update_params`). These are user interface and file
  I/O. The number of years therefore enters as a plain integer parameter.
- The HTTP download and `vobject.readOne`: network and a foreign parser. The parsed calendar
  is a sequence of components, each with a name and an optional DTSTART.
- On a response other than 200 the script only prints a message. `cal` is then undefined and
  the counting loop fails with a name error. That path is not modelled.
- `datetime.now().year` is a clock. It is the `current` parameter of `Plot.YearsToPlot`.
- Time zones: a DTSTART date-time is truncated to the date it carries, with no conversion.
- `pd.to_datetime` on the count keys is modelled as the identity on dates. The
  `Timestamp` range (years 1677 to 2262) is not modelled; years are unbounded integers.
- `strftime('%b')` is modelled in the C locale only (English abbreviations).
- Plotly: colours, colour bar, axes, layout and annotation styling. With the corrected
  column, a leap year starting on a Sunday (2012, for one) reaches column 54, while the
  axis ticks of line 90 stop at 53.
