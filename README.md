# Monthly vacation calendar: the date and lane-layout core

`my_calendar.py` draws one month as an SVG calendar: six Sunday-first
weeks of seven cells, with each person's vacation drawn as a bar across the
days it covers. This project models the part of that script that decides
*what* is drawn and *where* it goes:

- **Dates** (`dates.dfy`). Calendar dates are proleptic Gregorian day ordinals, the
  numbering Python's `date.toordinal()` uses. The module defines the weekday functions `weekday()` and
  `dow_jp` (Sunday = 0), `month_range` (the first and last day of a month,
  or `None` where Python's `date` constructor raises), and
  `day_bg_color`.
- **Grid** (`grid.dfy`). `month_matrix` is a method with a nested loop and a date
  cursor. It is proved equal to a closed-form grid, and that grid is proved to hold, in
  row-major order, `SundayIndex(first)` blanks, then every day of the
  month in order, then blanks only. Every date sits in the column of its
  weekday. The column scan inside `day_to_x` is a method whose result is
  the first cell matching the date, or the weekday-formula fallback.
- **Events** (`events.dfy`). This is the loop of `load_events` after the file has been parsed.
  It skips records whose dates do not parse, swaps reversed ranges, drops
  events outside the month and clips the rest to it, keeping input order.
- **Lanes** (`lanes.dfy`, `counting.dfy`). This is the per-row part of `draw_events`.
  It selects the events that touch the week and cuts each to the visible
  range `ds..de`. It sorts those ranges by `(ds, de)` with a stable sort, as
  Python's `sorted` is. Then it stacks them first-fit: a range
  goes to the first lane whose last range ends strictly before it starts,
  or opens a new lane. Proved: two ranges in one lane never overlap or
  touch, and the number of lanes a row opens is exactly the largest number
  of its visible ranges that share a date. So the greedy layout uses
  the fewest lanes possible.
- **Layout** (`layout.dfy`). This is `draw_events` across the six rows, up to the SVG text.
  For every row it gives the bars, each with its lane, its visible range and
  the columns of its two ends. A row shows exactly the events that touch it, each once.
- **Render** (`render.dfy`). It models `clamp` and `escape_xml`. The three chained
  `replace` calls are proved equal to escaping character by character. The
  output holds no `<` or `>`, every `&` in it starts an entity, and the
  input can be read back from it.

Python dates are `int` ordinals (`Dates.Date`). A grid cell is
`Option<Date>` (`None` for Python's `None`). A loaded event record is
`Events.Record`, whose two dates are `None` when the field is missing or
fails to parse. Each visible range carries a `pos` tag, which is the event's index in
the list given to the row. Python has no such field. The model uses it to state
stability and "each event once".

## Model

| member | source | states |
|---|---|---|
| Dates.DaysInMonth | my_calendar.py:50-57 | a month has 28 to 31 days; February has 29 exactly in leap years |
| Dates.MonthRange | my_calendar.py:50-57 | defined exactly for years 1..9999 and months 1..12, except December 9999, where `date(y + 1, 1, 1)` raises; first is day 1 of the month and last is its final day |
| Dates.MonthRangeLength | my_calendar.py:50-57 | last - first + 1 is the month's length, 29 for February exactly in leap years |
| Dates.MonthsAreContiguous | my_calendar.py:50-57 | the day after a month's last day is the next month's first day, across the December rollover |
| Dates.Weekday | my_calendar.py:109 | `date.weekday()` lies in 0..6 (Monday = 0) and is one less than the ordinal modulo 7, cyclically |
| Dates.SundayIndex | my_calendar.py:108-109 | `dow_jp` lies in 0..6 and equals the ordinal modulo 7 |
| Dates.WeekdayAnchors | my_calendar.py:105-109 | 0001-01-01 is a Monday under `weekday()`, and 2025-08-01 has Sunday-first index 5 (Friday) |
| Dates.DayBackground | my_calendar.py:127-133 | Sunday background exactly on Sundays, Saturday background exactly on Saturdays, white exactly on Monday to Friday |
| Grid.MonthMatrix | my_calendar.py:103-125 | defined exactly when `month_range` is; the loop's grid equals the closed-form `MonthGrid` of the month |
| Grid.GridRowMajor | my_calendar.py:111-125 | read row by row, a grid is the leading blanks, then the dates first..last consecutively, then blanks only |
| Grid.MonthGridLayout | my_calendar.py:103-125 | for a real month the 42 cells are `dow_jp(first)` blanks, the month's days in order, then `42 - dow_jp(first) - days` blanks |
| Grid.GridIsWeekdayAligned | my_calendar.py:113-124 | every date in row r sits in the column equal to its `dow_jp` |
| Grid.ColumnOf | my_calendar.py:239-249 | the column holds the date and no earlier column does; with no match it is the weekday fallback; in an aligned row it is always the weekday |
| Grid.DayToColumn | my_calendar.py:243-249 | the scan loop with `for ... else` returns `ColumnOf` |
| Events.NormalizeOne | my_calendar.py:163-187 | a record yields an event iff both dates parse and the swapped range meets the month; the event keeps name and title and covers exactly the days in both the range and the month |
| Events.LoadEvents | my_calendar.py:159-188 | defined exactly when `month_range` is; the loop's result is `Normalized` of the records, and every event lies within first..last |
| Events.NormalizedAppend | my_calendar.py:161-187 | records are handled independently: the events of a concatenation concatenate |
| Events.SkipUnparsed | my_calendar.py:163-169 | a record whose dates do not parse is skipped and changes nothing around it |
| Events.KeptInOrder | my_calendar.py:161-187 | a kept record's event comes after those of earlier records and before those of later ones |
| Events.NormalizedWithinMonth | my_calendar.py:177-187 | every loaded event satisfies first <= start <= end <= last |
| Events.NormalizedCount | my_calendar.py:161-187 | the number of events is the number of record indices whose record parses and touches the month |
| Lanes.Visible | my_calendar.py:214-216 | the visible range is never empty and lies in the row; for a well-formed event it covers exactly the event's days inside the row |
| Lanes.Selected | my_calendar.py:210-217 | every selected range is the visible range of an event that touches the row, in event-list order |
| Lanes.SelectedComplete | my_calendar.py:211-213 | every event that touches the row is selected |
| Lanes.SelectSpans | my_calendar.py:210-217 | the selection loop returns `Selected` |
| Lanes.SortSpans | my_calendar.py:222 | the sorted list is a permutation of the selection, ordered by (ds, de) |
| Lanes.SortIsStable | my_calendar.py:222 | ranges with equal (ds, de) keep their input order; the result is strictly ordered by (ds, de, position) |
| Lanes.FirstFit | my_calendar.py:224-228 | the chosen lane is the first whose end is strictly before ds; all lanes before it end at or after ds |
| Lanes.Place | my_calendar.py:224-231 | only the chosen lane changes, to de, and a new lane is appended precisely when none fits |
| Lanes.StackOne | my_calendar.py:223-231 | the inner lane loop returns the `FirstFit` lane and the `Place` lane ends |
| Lanes.AssignLanes | my_calendar.py:220-232 | the lane loop's final lanes are `LanesAfter(spans)` and each placement pairs range i with `LaneOf(spans, i)` |
| Lanes.SameLaneNeverTouches | my_calendar.py:224-228 | of two ranges in one lane, the earlier ends strictly before the later starts |
| Lanes.LaneEnds | my_calendar.py:220-232 | every range's lane exists at the end, and each lane ends where the last range placed in it ends |
| Lanes.LaneEndsNeverDecrease | my_calendar.py:224-231 | stacking a range never moves a lane's end earlier |
| Lanes.DepthAtMostLanes | my_calendar.py:220-232 | no date lies in more visible ranges than there are lanes |
| Lanes.DepthReachesLanes | my_calendar.py:220-232 | for sorted ranges some date lies in as many ranges as there are lanes |
| Lanes.LaneCountIsMaxOverlap | my_calendar.py:220-232 | the lane count is the maximum overlap depth of the row, and zero exactly for an empty row |
| Lanes.NoFewerLanes | my_calendar.py:220-232 | no assignment of the row's ranges to lanes without overlaps in a lane uses fewer lanes than first-fit |
| Layout.LayoutRow | my_calendar.py:203-253 | one pass of the row loop returns `RowBars`: the week's dates (`WeekDays`, `RowStart`, `RowEnd`), selection, sort, lanes and end columns |
| Layout.PlaceBars | my_calendar.py:236-253 | the drawing loop's bars pair each placement with the columns of its ds and de |
| Layout.DrawEvents | my_calendar.py:201-260 | six rows of bars, row r being `RowBars` of grid row r |
| Layout.SortedSelection | my_calendar.py:210-222 | the sorted selection holds each touching event exactly once, as its visible range, in strict (ds, de, position) order |
| Layout.RowShowsTouchingEvents | my_calendar.py:201-222 | a row with no dates draws nothing; otherwise its bars are exactly the touching events, each once, in stable order |
| Layout.RowSpansWithinRow | my_calendar.py:206-217 | every bar's range is well formed and lies within w_start..w_end |
| Layout.RowLanesDisjoint | my_calendar.py:219-232 | two bars in the same lane of a row neither overlap nor touch |
| Layout.RowLaneCountIsMaxOverlap | my_calendar.py:219-232 | every bar's lane is below the row's lane count, which equals the row's maximum overlap depth, and is zero exactly when the row has no bars |
| Layout.RowColumnsAreWeekdays | my_calendar.py:239-252 | in a weekday-aligned row each bar's end columns are the `dow_jp` of its ds and de |
| Layout.GridRowIsOrdered | my_calendar.py:203-207 | `WeekDays` (the row's dates, blanks skipped) of a grid row strictly increase, so `RowStart` (w_start) <= `RowEnd` (w_end), and the row is weekday-aligned |
| Render.Clamp | my_calendar.py:63-64 | for lo <= hi the result lies in lo..hi, equals v inside, lo below, hi above; for hi < lo it is lo, as `max(lo, min(hi, v))` gives |
| Render.EscapeXmlIsPerCharacter | my_calendar.py:262-263 | `EscapeXml`, the three chained replacements, equal escaping each character on its own |
| Render.EscapeXmlSafe | my_calendar.py:262-263 | the output of `EscapeXml` holds no `<` or `>`, every `&` begins `&amp;`, `&lt;` or `&gt;`, and unescaping gives the input back |

## Left out

- File and JSON I/O in `load_events`: a missing file returns `[]` and the
  JSON parse happens before the loop. The model starts from the parsed records.
- `parse_iso` and `to_local_d`: the ISO-8601 parse and the UTC conversion
  are foreign date-time code. A record carries their result as an
  `Option<Date>`. A missing key, a failed parse or any other exception in
  the `try` block is `None`. A missing `name`/`title` is already the empty string.
- The UTC conversion `to_local_d` is assumed never to raise. In the source it
  runs after the `try` block has closed, so an error there (such as the
  overflow of `astimezone` on a date near year 1 or 9999) is not caught
  and aborts the whole load. The model has no such failure: every record
  is either converted or skipped.
- Deduplication of identical records: `load_events` does not do it, so
  the model keeps every record.
- SVG output and pixel geometry: `svg_header`,
  `svg_footer`, `draw_weekdays`, `draw_grid` (with the today highlight),
  the `x`/`y` coordinates built from `MARGIN`, `CELL_W` and `CELL_H`
  (floating point), lane heights, and the label text
  `f'{name}: {title}'.strip(": ")`. A bar's position is modelled as its
  lane and its two end columns, which is all the pixel formulas depend on.
- The bar colour `EVENT_COLORS[hash(name) % 5]`: Python's string hash is
  salted per process.
- `main`, the PNG conversion and `post_to_slack.py`: environment,
  file and network I/O, and the external `cairosvg` rasteriser.
- Render.Clamp: modelled on `int`. In the source the value clamped is a
  float difference of pixel coordinates.
- Render.EscapeXmlSafe: the `s or ""` guard is not modelled, because the
  input is a string, never `None`.
- Layout.RowSpansWithinRow: it needs `w_start <= w_end`, and states
  containment only under that condition. Layout.GridRowIsOrdered proves
  the condition for every row of a month grid.
- Events.LoadEvents: `None` stands for the exception `month_range` raises
  for an invalid year or month. Python would propagate the exception.
