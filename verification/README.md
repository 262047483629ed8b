# Big Year pace chart — verified model of the data core

`pace_app.py` loads a table of cumulative species counts ("pace" series) whose first
column holds "M/D" dates, turns each date into a calendar day of the current year,
drops rows whose date does not parse, and redraws a line chart whenever the user
changes which series are selected. This project models that core in Dafny:

- `calendar.dfy` (`Calendar`): dates, the Gregorian leap-year rule, month lengths and
  the English month abbreviations used by the tick labels.
- `text.dfy` (`Text`): Python's `str.split('/')`, `int()` on a decimal digit string
  and `str()` on a non-negative integer, with their round trips.
- `date_parser.dfy` (`DateParser`): `parse_month_day`, total, with `None` for pandas' NaT.
- `loader.dfy` (`Loader`): the load-time pass that overwrites the Date column with the
  parsed dates and then drops undated rows (`dropna`), as methods with loops proved
  against specification functions.
- `ticks.dfy` (`Ticks`): first-of-month tick selection, the `dates[::k]` fallback with
  `k = max(1, n // 6)`, and the "Mon D" labels.
- `chart.dfy` (`Chart`): `update_plot` as a method whose loop appends one trace per
  selected series, then sets the ticks, labels and the fixed `[0, 300]` y range.

Inputs the program takes from the environment are parameters here: the reference year
(the program reads the clock), the raw rows (the program downloads a CSV) and the
per-cell numeric coercion `coerce: V -> Option<N>` (pandas' `to_numeric(errors='coerce')`,
where `None` is a gap in the line). Value cells have an abstract type `V`.

## Model

| member | source | states |
|---|---|---|
| `Calendar.DaysInMonth` | pace_app.py:23 | month lengths are 28..31; February has 29 days exactly in leap years; April, June, September, November have 30, the rest 31 |
| `Calendar.MonthAbbrev` | pace_app.py:90 | each month's `%b` name is three letters, capital then lower-case |
| `Calendar.ValidDate` | pace_app.py:23 | the dates `pd.Timestamp(year, month, day)` accepts: month 1..12 and day 1..the length of that month in that year |
| `Calendar.IsMonthStart` | pace_app.py:37 | `is_month_start` for a date without a time of day: the day is 1 |
| `Calendar.LeapDayExamples` | pace_app.py:23 | Feb 29 exists in 2024 and 2000 but not in 2025 or 1900; April 31, month 13 and day 0 do not exist |
| `Text.Split` | pace_app.py:19 | `str.split('/')`: always at least one part (its exact meaning is fixed by SplitParts, JoinSplit and SplitJoin) |
| `Text.SplitParts` | pace_app.py:19-20 | `split('/')` gives one more part than there are slashes, and no part contains a slash |
| `Text.JoinSplit` | pace_app.py:19 | joining the parts of `split('/')` with '/' gives back the original string |
| `Text.SplitJoin` | pace_app.py:19 | splitting a join of slash-free parts gives those parts back |
| `Text.ParseDecimal` | pace_app.py:21 | the model's `int()` succeeds exactly on a non-empty string of decimal digits (it differs from Python's `int()` as listed under Left out) |
| `Text.ShowNat` | pace_app.py:90 | `str(n)`: a non-empty digit string, one digit exactly below 10 |
| `Text.ShowNatShape` | pace_app.py:90 | `str(day)` is a non-empty digit string with no leading zero; one digit below 10, two digits for 10..99 |
| `Text.ParseShowNat` | pace_app.py:21 | `int(str(n)) == n` for every n >= 0 |
| `DateParser.ParseMonthDay` | pace_app.py:17-27 | a result other than NaT has the reference year and is a real calendar day |
| `DateParser.ParseMonthDaySucceeds` | pace_app.py:19-23 | the parse gives a date exactly when there are two parts, both integers, naming a real day of the reference year, and the date carries those month and day numbers |
| `DateParser.WrongPartCount` | pace_app.py:19-20 | any number of slashes other than one gives NaT |
| `DateParser.ParseJoined` | pace_app.py:19-27 | "A/B" gives a date exactly when A and B parse and name a real day; otherwise NaT instead of an exception |
| `DateParser.FormatParseRoundTrip` | pace_app.py:17-27 | every real day of the reference year, written "M/D", parses back to itself |
| `DateParser.ParseFormatRoundTrip` | pace_app.py:17-27 | every parsed date is reproduced by parsing its own "M/D" form |
| `DateParser.ExampleMarch15` | pace_app.py:21-23 | "3/15" gives March 15 of the reference year |
| `DateParser.ExampleLeadingZeros` | pace_app.py:21 | "03/015" gives March 15 too: leading zeros are accepted |
| `DateParser.ExamplePartCounts` | pace_app.py:19-20 | "3", "1/2/3" and a non-text cell give NaT |
| `DateParser.ExampleNonInteger` | pace_app.py:21 | "a/5" gives NaT |
| `DateParser.ExampleImpossibleDates` | pace_app.py:23 | "13/1", "4/31" and "1/0" give NaT |
| `DateParser.ExampleLeapDay` | pace_app.py:22-23 | "2/29" gives a date exactly when the reference year is a leap year |
| `Loader.ParseColumn` | pace_app.py:30 | `.apply(parse_month_day)`: one parsed row per raw row, cells unchanged, every date present a real day of the reference year |
| `Loader.DropMissing` | pace_app.py:33 | `dropna(subset=["Date"])`: never more rows than the input, and no rows exactly when every date is NaT |
| `Loader.ApplyParse` | pace_app.py:30 | the Date column is replaced row by row with the parse of each row's cell; the other cells are unchanged |
| `Loader.DropNa` | pace_app.py:33 | the loop builds exactly the `dropna` specification of the parsed rows |
| `Loader.DropMissingCount` | pace_app.py:33 | `dropna` keeps as many rows as there are dated rows |
| `Loader.DropMissingPositions` | pace_app.py:33 | the dated row at index i is kept, at the position given by the number of dated rows before it |
| `Loader.DropMissingFilled` | pace_app.py:33 | every row `dropna` keeps comes from a dated input row |
| `Loader.CountDatedMonotone` | pace_app.py:33 | dated rows land at strictly increasing positions of the output, so their order is kept |
| `Loader.DropMissingExact` | pace_app.py:33 | `dropna` keeps exactly the dated rows, each at the position given by the number of dated rows before it, and nothing else |
| `Loader.DropMissingFrom` | pace_app.py:33 | every kept row comes from an input row with that date and those cells |
| `Loader.CleanedRowsValid` | pace_app.py:30-33 | every cleaned row has a real calendar date in the reference year, parsed from a raw row with the same cells |
| `Loader.UnparsedRowDropped` | pace_app.py:30-33 | a raw row whose date does not parse does not change the cleaned table |
| `Loader.Load` | pace_app.py:30-33 | the loaded table is the cleaned rows; series names are distinct, every row has one cell per series and a real date of the reference year |
| `Ticks.FirstOfMonth` | pace_app.py:37-38 | `dates[dates.dt.is_month_start]`: never more dates than the input, each of them day 1 |
| `Ticks.EveryKth` | pace_app.py:87 | `s[::k]`: no more elements than s, each one of s, starting with s[0], empty exactly when s is |
| `Ticks.TickValues` | pace_app.py:83-87 | the tick positions: first-of-month dates when there are any, else `dates[::max(1, n // 6)]`; never more ticks than dates, and at least one when there are dates |
| `Ticks.FirstOfMonthExact` | pace_app.py:37-38 | the first-of-month mask keeps exactly the day-1 dates in order, and there is one exactly when some date is day 1 |
| `Ticks.Stride` | pace_app.py:87 | the stride is at least 1, is 1 below 12 dates, and is n // 6 from 6 dates on |
| `Ticks.EveryKthExact` | pace_app.py:87 | `dates[::k]` has ceil(n / k) elements and element j is dates[j * k] |
| `Ticks.EveryKthLength` | pace_app.py:87 | `dates[::k]` has c elements with (c - 1) * k < n <= c * k |
| `Ticks.EveryKthAt` | pace_app.py:87 | element j of `dates[::k]` is dates[j * k] |
| `Ticks.TicksAtMonthStarts` | pace_app.py:83-84 | when some date is day 1, the ticks are exactly the first-of-month dates, all of them day 1 |
| `Ticks.FallbackIsStride` | pace_app.py:83-87 | with no day-1 date the ticks are `dates[::max(1, n // 6)]` |
| `Ticks.EveryFirst` | pace_app.py:87 | a stride of 1 keeps every date |
| `Ticks.StridePickCount` | pace_app.py:87 | from 6 dates on, the stride `n // 6` picks between 6 and 11 dates |
| `Ticks.TicksFallback` | pace_app.py:85-87 | with no day-1 date the ticks are dates 0, k, 2k, ... with k = max(1, n // 6), ceil(n / k) of them |
| `Ticks.FallbackTickCount` | pace_app.py:86-87 | in the fallback, fewer than 12 dates are all ticks; otherwise there are 6 to 11 ticks |
| `Ticks.TicksAreDates` | pace_app.py:83-87 | every tick is one of the dates; no dates, no ticks |
| `Ticks.TickLabel` | pace_app.py:90 | `d.strftime("%b") + " " + str(d.day)`: 5 or 6 characters, the month abbreviation, a space, then digits |
| `Ticks.TickLabelShape` | pace_app.py:90 | a label is the 3-letter month, a space, and the day with no leading zero, from which the day reads back |
| `Ticks.TickLabelInjective` | pace_app.py:90 | two ticks get the same label exactly when they share month and day |
| `Ticks.TickLabelExamples` | pace_app.py:90 | April 1 is labelled "Apr 1" and January 15 "Jan 15" |
| `Ticks.TickTexts` | pace_app.py:90 | one label per tick, label i being the label of tick i |
| `Chart.DatesOf` | pace_app.py:36 | `data["Date"]`: one date per cleaned row, in row order |
| `Chart.ColumnIndex` | pace_app.py:73 | `data[name]` selects the column carrying that name (series names are distinct, as read_csv makes them) |
| `Chart.UpdatePlot` | pace_app.py:66-90 | one trace per selected series in selection order, each named after it, in line mode, with x the cleaned dates and y the coerced cells of that column (same length); ticks and labels depend only on the dates; the y range (set at line 118) is [0, 300] whatever the selection, and an empty selection gives no traces |

## Left out

- Fetching the CSV from its URL (pace_app.py:9-10) is network I/O; the raw rows and the series names are inputs of `Loader.Load`.
- `datetime.now().year` (pace_app.py:22) reads the clock, once per row; the reference year is one parameter for the whole table, so a load that straddles New Year's midnight (where rows could get different years) is not modelled.
- A CSV with a header and no data rows: `apply` on the empty Date column keeps its object dtype (pace_app.py:30), so `dates.dt.is_month_start` raises at pace_app.py:37 and the program never starts. The model loads an empty dataset and draws a chart with no ticks instead. (A non-empty table whose every date fails gives a datetime-typed all-NaT column; there the program and the model agree on no rows and no ticks.)
- `Text.ParseDecimal`: differs from Python's `int()` in both directions. It is stricter: `int()` also accepts surrounding whitespace, a leading `+` or `-`, `_` digit separators and non-ASCII digits, so " 3/15" or "+3/15" parse in the program but give NaT here (a leading `-` gives NaT in both, since no month or day is negative). And unlike `int()`, it has no length limit: a part longer than 4300 digits (for example zero-padded) raises in the program (CPython's integer string conversion limit), giving NaT, but parses here.
- `DateParser.ParseMonthDay`: pandas' Timestamp range limits (years about 1677 to 2262, which depend on the pandas version) are not modelled; the reference year is the current year, well inside them.
- `pd.to_numeric(..., errors='coerce')` (pace_app.py:73) is float parsing; each cell's coercion is the parameter `coerce`, and float semantics are not modelled.
- `strftime("%b")` locale behaviour (pace_app.py:90): a fixed English month table is used.
- The Dash app, page layout, checklist widget (whose options are the series names and whose default is all of them), callback wiring and `app.run` (pace_app.py:41-65, 146-147) are UI framework plumbing.
- All styling in `update_layout` other than the y range (pace_app.py:93-140): title, fonts, colours, margins, template, legend.
- Repeated header names: read_csv renames them ("X", "X.1", ...), so the loaded series names are distinct (`Loader.Load` requires it); `data[name]` on a repeated label, which would return a table that `to_numeric` rejects, is not modelled.
- `Chart.UpdatePlot`: requires every selected name to be a series column; the program would raise a KeyError otherwise, but its checklist only offers those names.
- Trace objects carry no plotly semantics; a value outside [0, 300] stays in the trace unchanged and is only clipped visually by the renderer.
