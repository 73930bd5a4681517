/** `draw_events` without its SVG output: for each of the six week rows, the
    bars it would draw, each with its lane, its visible range and the columns
    its two ends fall in. */
module Layout {
  import opened Wrappers
  import opened Dates
  import opened Events
  import opened Grid
  import opened Lanes

  /** One bar of a row: lane, visible span, and the columns of `ds` and `de`. */
  datatype Bar = Bar(lane: nat, span: Span, startCol: int, endCol: int)

  /** The dates of a row in column order, blanks skipped (`week_days`). */
  function WeekDays(row: seq<Cell>): (days: seq<Date>)
    ensures |days| <= |row|
  {
    if row == [] then []
    else (if row[0].Some? then [row[0].value] else []) + WeekDays(row[1..])
  }

  /** `w_start` and `w_end`: the first and last date of a row that has one. */
  function RowStart(row: seq<Cell>): (d: Date)
    requires WeekDays(row) != []
  {
    WeekDays(row)[0]
  }

  function RowEnd(row: seq<Cell>): (d: Date)
    requires WeekDays(row) != []
  {
    WeekDays(row)[|WeekDays(row)| - 1]
  }

  /** The visible spans of a row in the order they are stacked: the sorted
      selection, or nothing for a row without dates. */
  function RowSpans(row: seq<Cell>, events: seq<Event>): (spans: seq<Span>) {
    if WeekDays(row) == [] then []
    else SortSpans(Selected(events, RowStart(row), RowEnd(row)))
  }

  /** The bar drawn for the `i`-th of the stacked spans of a row. */
  function BarAt(row: seq<Cell>, spans: seq<Span>, i: int): (b: Bar)
    requires |row| == Cols && 0 <= i < |spans|
  {
    Bar(LaneOf(spans, i), spans[i], ColumnOf(row, spans[i].ds), ColumnOf(row, spans[i].de))
  }

  /** The bars drawn for stacked spans, in stacking order. */
  function BarsOf(row: seq<Cell>, spans: seq<Span>): (bars: seq<Bar>)
    requires |row| == Cols
  {
    seq(|spans|, i requires 0 <= i < |spans| => BarAt(row, spans, i))
  }

  /** The bars of one row. */
  function RowBars(row: seq<Cell>, events: seq<Event>): (bars: seq<Bar>)
    requires |row| == Cols
  {
    BarsOf(row, RowSpans(row, events))
  }

  /** The number of lanes the row opens: `len(lanes)` at the end of the row. */
  function RowLaneCount(row: seq<Cell>, events: seq<Event>): (n: nat) {
    |LanesAfter(RowSpans(row, events))|
  }

  /** One pass of the row loop of `draw_events`. */
  method LayoutRow(row: seq<Cell>, events: seq<Event>) returns (bars: seq<Bar>)
    requires |row| == Cols
    ensures bars == RowBars(row, events)
  {
    var days := WeekDays(row);
    if days == [] {
      return [];
    }
    var wStart, wEnd := days[0], days[|days| - 1];
    var selected := SelectSpans(events, wStart, wEnd);
    var spans := SortSpans(selected);
    assert spans == RowSpans(row, events);
    var lanes, placed := AssignLanes(spans);
    bars := PlaceBars(row, spans, placed);
  }

  /** The drawing loop of a row: each placed span becomes a bar with the
      columns `day_to_x` finds for its two ends. */
  method PlaceBars(row: seq<Cell>, spans: seq<Span>, placed: seq<Placement>) returns (bars: seq<Bar>)
    requires |row| == Cols && |placed| == |spans|
    requires forall i :: 0 <= i < |spans| ==> placed[i] == Placement(LaneOf(spans, i), spans[i])
    ensures bars == BarsOf(row, spans)
  {
    bars := [];
    for k := 0 to |placed|
      invariant |bars| == k
      invariant forall i :: 0 <= i < k ==> bars[i] == BarAt(row, spans, i)
    {
      var xs := DayToColumn(row, placed[k].span.ds);
      var xe := DayToColumn(row, placed[k].span.de);
      var bar := Bar(placed[k].lane, placed[k].span, xs, xe);
      AppendBar(bars, bar, row, spans, k);
      bars := bars + [bar];
    }
  }

  /** One step of the drawing loop keeps the bars drawn so far. */
  lemma AppendBar(bars: seq<Bar>, bar: Bar, row: seq<Cell>, spans: seq<Span>, k: int)
    requires |row| == Cols && 0 <= k < |spans| && |bars| == k
    requires forall i :: 0 <= i < k ==> bars[i] == BarAt(row, spans, i)
    requires bar == BarAt(row, spans, k)
    ensures forall i :: 0 <= i <= k ==> (bars + [bar])[i] == BarAt(row, spans, i)
  {
    forall i | 0 <= i <= k
      ensures (bars + [bar])[i] == BarAt(row, spans, i)
    {
      if i < k {
        assert (bars + [bar])[i] == bars[i];
      } else {
        assert (bars + [bar])[i] == bar;
      }
    }
  }

  /** `draw_events` over the six rows of a month grid. */
  method DrawEvents(cells: seq<seq<Cell>>, events: seq<Event>) returns (rows: seq<seq<Bar>>)
    requires |cells| == Rows && forall r :: 0 <= r < Rows ==> |cells[r]| == Cols
    ensures |rows| == Rows
    ensures forall r :: 0 <= r < Rows ==> rows[r] == RowBars(cells[r], events)
  {
    rows := [];
    for r := 0 to Rows
      invariant |rows| == r
      invariant forall i :: 0 <= i < r ==> rows[i] == RowBars(cells[i], events)
    {
      var bars := LayoutRow(cells[r], events);
      AppendRow(rows, bars, cells, events, r);
      rows := rows + [bars];
    }
  }

  /** One step of the row loop keeps the rows built so far. */
  lemma AppendRow(rows: seq<seq<Bar>>, bars: seq<Bar>, cells: seq<seq<Cell>>, events: seq<Event>, r: int)
    requires 0 <= r < |cells| == Rows && |rows| == r && forall i :: 0 <= i < Rows ==> |cells[i]| == Cols
    requires forall i :: 0 <= i < r ==> rows[i] == RowBars(cells[i], events)
    requires bars == RowBars(cells[r], events)
    ensures forall i :: 0 <= i <= r ==> (rows + [bars])[i] == RowBars(cells[i], events)
  {
    forall i | 0 <= i <= r
      ensures (rows + [bars])[i] == RowBars(cells[i], events)
    {
      if i < r {
        assert (rows + [bars])[i] == rows[i];
      } else {
        assert (rows + [bars])[i] == bars;
      }
    }
  }

  // ----- what a row's layout guarantees -----

  /** The bars of a row are its stacked spans, one each, with their lanes
      and columns. */
  lemma RowBarsShape(row: seq<Cell>, events: seq<Event>)
    requires |row| == Cols
    ensures |RowBars(row, events)| == |RowSpans(row, events)|
    ensures forall i :: 0 <= i < |RowSpans(row, events)| ==>
              RowBars(row, events)[i] == BarAt(row, RowSpans(row, events), i)
  {
  }

  /** Sorting keeps every span's range, and orders the ranges by start. */
  lemma SortedSpansWellFormed(spans: seq<Span>)
    requires WellFormed(spans)
    ensures WellFormed(SortSpans(spans)) && SortedByStart(SortSpans(spans))
  {
    var r := SortSpans(spans);
    forall i | 0 <= i < |r|
      ensures r[i].ds <= r[i].de
    {
      assert r[i] in multiset(spans);
    }
    forall i, j | 0 <= i < j < |r|
      ensures r[i].ds <= r[j].ds
    {
      assert KeyLe(r[i], r[j]);
    }
  }

  lemma RowSpansWellFormed(row: seq<Cell>, events: seq<Event>)
    ensures WellFormed(RowSpans(row, events)) && SortedByStart(RowSpans(row, events))
  {
    if WeekDays(row) != [] {
      var wStart, wEnd := RowStart(row), RowEnd(row);
      var sel := Selected(events, wStart, wEnd);
      forall i | 0 <= i < |sel|
        ensures sel[i].ds <= sel[i].de
      {
        assert sel[i] == Visible(events[sel[i].pos], sel[i].pos, wStart, wEnd);
      }
      SortedSpansWellFormed(sel);
      assert RowSpans(row, events) == SortSpans(sel);
    }
  }

  /** `spans` are the visible parts of exactly the events touching
      wStart..wEnd, one span per event. */
  predicate ShowsTouching(spans: seq<Span>, events: seq<Event>, wStart: Date, wEnd: Date) {
    && (forall i :: 0 <= i < |spans| ==>
          spans[i].pos < |events| && Touches(events[spans[i].pos], wStart, wEnd)
          && spans[i] == Visible(events[spans[i].pos], spans[i].pos, wStart, wEnd))
    && (forall k :: 0 <= k < |events| && Touches(events[k], wStart, wEnd) ==>
          exists i :: 0 <= i < |spans| && spans[i].pos == k)
    && (forall i, j :: 0 <= i < j < |spans| ==> spans[i].pos != spans[j].pos)
  }

  /** Every span of the sorted selection is the visible part of an event
      that touches the row. */
  lemma SortedSelectionSound(events: seq<Event>, wStart: Date, wEnd: Date, i: int)
    requires 0 <= i < |SortSpans(Selected(events, wStart, wEnd))|
    ensures var s := SortSpans(Selected(events, wStart, wEnd))[i];
      s.pos < |events| && Touches(events[s.pos], wStart, wEnd)
      && s == Visible(events[s.pos], s.pos, wStart, wEnd)
  {
    var sel := Selected(events, wStart, wEnd);
    assert SortSpans(sel)[i] in multiset(sel);
  }

  /** Every event that touches the row has a span in the sorted selection. */
  lemma SortedSelectionComplete(events: seq<Event>, wStart: Date, wEnd: Date, k: int)
    requires 0 <= k < |events| && Touches(events[k], wStart, wEnd)
    ensures exists i :: 0 <= i < |SortSpans(Selected(events, wStart, wEnd))|
                     && SortSpans(Selected(events, wStart, wEnd))[i].pos == k
  {
    var sel := Selected(events, wStart, wEnd);
    var spans := SortSpans(sel);
    SelectedComplete(events, wStart, wEnd, k);
    var q :| 0 <= q < |sel| && sel[q].pos == k;
    assert sel[q] in multiset(spans);
    assert sel[q] in spans;
    var i :| 0 <= i < |spans| && spans[i] == sel[q];
    assert spans[i].pos == k;
  }

  /** The sorted selection of a row shows exactly the touching events, once
      each, in the strict (ds, de, position) order. */
  lemma SortedSelection(events: seq<Event>, wStart: Date, wEnd: Date)
    ensures ShowsTouching(SortSpans(Selected(events, wStart, wEnd)), events, wStart, wEnd)
    ensures StrictlyOrdered(SortSpans(Selected(events, wStart, wEnd)))
  {
    var sel := Selected(events, wStart, wEnd);
    var spans := SortSpans(sel);
    assert spans == SortSpans(Selected(events, wStart, wEnd));
    forall i | 0 <= i < |spans|
      ensures spans[i].pos < |events| && Touches(events[spans[i].pos], wStart, wEnd)
           && spans[i] == Visible(events[spans[i].pos], spans[i].pos, wStart, wEnd)
    {
      SortedSelectionSound(events, wStart, wEnd, i);
    }
    forall k | 0 <= k < |events| && Touches(events[k], wStart, wEnd)
      ensures exists i :: 0 <= i < |spans| && spans[i].pos == k
    {
      SortedSelectionComplete(events, wStart, wEnd, k);
    }
    SortIsStable(sel);
    forall i, j | 0 <= i < j < |spans|
      ensures spans[i].pos != spans[j].pos
    {
      assert Precedes(spans[i], spans[j]);
    }
  }

  /** Each row shows exactly the events that touch it, each once: every bar
      is the visible span of an event that touches the row, every such event
      has a bar, no event has two, the bars come in the stable (ds, de)
      order, and a row without dates shows nothing. */
  lemma RowShowsTouchingEvents(row: seq<Cell>, events: seq<Event>)
    requires |row| == Cols
    ensures WeekDays(row) == [] ==> RowBars(row, events) == []
    ensures WeekDays(row) != [] ==>
              ShowsTouching(RowSpans(row, events), events, RowStart(row), RowEnd(row))
    ensures StrictlyOrdered(RowSpans(row, events))
    ensures |RowBars(row, events)| == |RowSpans(row, events)|
    ensures forall i :: 0 <= i < |RowBars(row, events)| ==> RowBars(row, events)[i].span == RowSpans(row, events)[i]
  {
    RowBarsShape(row, events);
    if WeekDays(row) != [] {
      SortedSelection(events, RowStart(row), RowEnd(row));
      assert RowSpans(row, events) == SortSpans(Selected(events, RowStart(row), RowEnd(row)));
    }
  }

  /** Every visible range of a row is well formed and, when the row's first
      date is not after its last, lies within the row. */
  lemma RowSpansWithinRow(row: seq<Cell>, events: seq<Event>)
    ensures WellFormed(RowSpans(row, events))
    ensures WeekDays(row) != [] && RowStart(row) <= RowEnd(row) ==>
              forall i :: 0 <= i < |RowSpans(row, events)| ==>
                RowStart(row) <= RowSpans(row, events)[i].ds && RowSpans(row, events)[i].de <= RowEnd(row)
  {
    RowSpansWellFormed(row, events);
    if WeekDays(row) != [] && RowStart(row) <= RowEnd(row) {
      var wStart, wEnd := RowStart(row), RowEnd(row);
      var spans := RowSpans(row, events);
      SortedSelection(events, wStart, wEnd);
      assert spans == SortSpans(Selected(events, wStart, wEnd));
      forall i | 0 <= i < |spans|
        ensures wStart <= spans[i].ds && spans[i].de <= wEnd
      {
        assert spans[i] == Visible(events[spans[i].pos], spans[i].pos, wStart, wEnd);
      }
    }
  }

  /** Two bars stacked in the same lane of a row neither overlap nor touch. */
  lemma RowLanesDisjoint(row: seq<Cell>, events: seq<Event>)
    requires |row| == Cols
    ensures forall i, j ::
              0 <= i < j < |RowBars(row, events)| && RowBars(row, events)[i].lane == RowBars(row, events)[j].lane
              ==> RowBars(row, events)[i].span.de < RowBars(row, events)[j].span.ds
  {
    var spans := RowSpans(row, events);
    RowBarsShape(row, events);
    RowSpansWellFormed(row, events);
    forall i, j | 0 <= i < j < |RowBars(row, events)| &&
                  RowBars(row, events)[i].lane == RowBars(row, events)[j].lane
      ensures RowBars(row, events)[i].span.de < RowBars(row, events)[j].span.ds
    {
      assert RowBars(row, events)[i] == BarAt(row, spans, i);
      assert RowBars(row, events)[j] == BarAt(row, spans, j);
      SameLaneNeverTouches(spans, i, j);
    }
  }

  /** A row needs exactly as many lanes as the largest number of its visible
      ranges that share a date, every bar's lane is one of them, and a row
      without bars opens none. */
  lemma RowLaneCountIsMaxOverlap(row: seq<Cell>, events: seq<Event>)
    requires |row| == Cols
    ensures forall i :: 0 <= i < |RowBars(row, events)| ==> RowBars(row, events)[i].lane < RowLaneCount(row, events)
    ensures forall t :: Depth(RowSpans(row, events), t) <= RowLaneCount(row, events)
    ensures RowBars(row, events) != [] ==> exists t :: Depth(RowSpans(row, events), t) == RowLaneCount(row, events)
    ensures RowBars(row, events) == [] <==> RowLaneCount(row, events) == 0
  {
    var spans := RowSpans(row, events);
    RowBarsShape(row, events);
    RowSpansWellFormed(row, events);
    LaneEnds(spans);
    LaneCountIsMaxOverlap(spans);
    forall i | 0 <= i < |RowBars(row, events)|
      ensures RowBars(row, events)[i].lane < RowLaneCount(row, events)
    {
      assert RowBars(row, events)[i] == BarAt(row, spans, i);
    }
  }

  /** In a weekday-aligned row each bar's end columns are the Sunday-first
      weekdays of its first and last visible day. */
  lemma RowColumnsAreWeekdays(row: seq<Cell>, events: seq<Event>)
    requires WeekdayAligned(row)
    ensures forall i :: 0 <= i < |RowBars(row, events)| ==>
              RowBars(row, events)[i].startCol == SundayIndex(RowBars(row, events)[i].span.ds)
              && RowBars(row, events)[i].endCol == SundayIndex(RowBars(row, events)[i].span.de)
  {
    var spans := RowSpans(row, events);
    RowBarsShape(row, events);
    forall i | 0 <= i < |RowBars(row, events)|
      ensures RowBars(row, events)[i].startCol == SundayIndex(RowBars(row, events)[i].span.ds)
           && RowBars(row, events)[i].endCol == SundayIndex(RowBars(row, events)[i].span.de)
    {
      assert RowBars(row, events)[i] == BarAt(row, spans, i);
    }
  }

  /** The dates of a grid row increase from left to right, so its first date
      is not after its last; and the grid row is weekday-aligned. Together
      with the lemmas above: in a month grid every bar lies within its row
      and its columns are the weekdays of its ends. */
  lemma GridRowIsOrdered(first: Date, last: Date, r: int)
    requires 0 <= r < Rows
    ensures Increasing(WeekDays(MonthGrid(first, last)[r]))
    ensures WeekDays(MonthGrid(first, last)[r]) != [] ==>
              RowStart(MonthGrid(first, last)[r]) <= RowEnd(MonthGrid(first, last)[r])
    ensures WeekdayAligned(MonthGrid(first, last)[r])
  {
    var row := MonthGrid(first, last)[r];
    forall c | 0 <= c < Cols && row[c].Some?
      ensures row[c].value == Cols * r + first - SundayIndex(first) + c
    {
      assert row[c] == GridCell(first, last, Cols * r + c);
    }
    WeekDaysIncrease(row, Cols * r + first - SundayIndex(first));
    GridIsWeekdayAligned(first, last, r);
  }

  /** Strictly increasing dates. */
  predicate Increasing(days: seq<Date>) {
    forall i, j :: 0 <= i < j < |days| ==> days[i] < days[j]
  }

  lemma IncreasingCons(x: Date, days: seq<Date>)
    requires Increasing(days) && forall i :: 0 <= i < |days| ==> x < days[i]
    ensures Increasing([x] + days)
  {
    var d := [x] + days;
    forall i, j | 0 <= i < j < |d|
      ensures d[i] < d[j]
    {
      assert d[j] == days[j - 1];
      if i > 0 {
        assert d[i] == days[i - 1];
      }
    }
  }

  /** The row with its first cell dropped holds every date but that cell's. */
  lemma WeekDaysCons(row: seq<Cell>)
    requires row != []
    ensures WeekDays(row) == (if row[0].Some? then [row[0].value] else []) + WeekDays(row[1..])
  {
  }

  /** In a row whose cell `c` can only hold `base + c`, every date is at
      least `base`. */
  lemma {:induction false} WeekDaysAtLeast(row: seq<Cell>, base: int)
    requires forall c :: 0 <= c < |row| && row[c].Some? ==> row[c].value == base + c
    ensures forall i :: 0 <= i < |WeekDays(row)| ==> base <= WeekDays(row)[i]
    decreases |row|
  {
    if row != [] {
      var tail := row[1..];
      forall c | 0 <= c < |tail| && tail[c].Some?
        ensures tail[c].value == (base + 1) + c
      {
        assert tail[c] == row[c + 1];
      }
      WeekDaysAtLeast(tail, base + 1);
      WeekDaysCons(row);
    }
  }

  /** The dates of a row whose cell `c` can only hold `base + c` increase. */
  lemma {:induction false} WeekDaysIncrease(row: seq<Cell>, base: int)
    requires forall c :: 0 <= c < |row| && row[c].Some? ==> row[c].value == base + c
    ensures Increasing(WeekDays(row))
    decreases |row|
  {
    if row != [] {
      var tail := row[1..];
      forall c | 0 <= c < |tail| && tail[c].Some?
        ensures tail[c].value == (base + 1) + c
      {
        assert tail[c] == row[c + 1];
      }
      WeekDaysIncrease(tail, base + 1);
      WeekDaysAtLeast(tail, base + 1);
      WeekDaysCons(row);
      if row[0].Some? {
        IncreasingCons(row[0].value, WeekDays(tail));
      }
    }
  }
}
