/** The month grid: six Sunday-first weeks of seven cells, `None` outside the
    month; and the lookup of a date's column in one week row. */
module Grid {
  import opened Wrappers
  import opened Dates

  /** A grid cell: a date of the month, or a blank. */
  type Cell = Option<Date>

  const Rows: int := 6
  const Cols: int := 7

  /** How many of the row-major cells before index `idx` hold a date, when the
      month first..last starts in column `SundayIndex(first)`. */
  function DaysPlaced(first: Date, last: Date, idx: int): (n: int) {
    var start := SundayIndex(first);
    if idx <= start then 0
    else if idx - start < last - first + 1 then idx - start
    else last - first + 1
  }

  /** The cell at row-major index `idx` of the grid of the month first..last. */
  function GridCell(first: Date, last: Date, idx: int): (cell: Cell) {
    var start := SundayIndex(first);
    if idx < start || first + (idx - start) > last then None
    else Some(first + (idx - start))
  }

  /** The whole grid, row by row. */
  function MonthGrid(first: Date, last: Date): (g: seq<seq<Cell>>)
    ensures |g| == Rows && forall r :: 0 <= r < Rows ==> |g[r]| == Cols
  {
    seq(Rows, r => seq(Cols, c => GridCell(first, last, Cols * r + c)))
  }

  /** `month_matrix`: the loop that walks the 42 cells, leaving blanks before
      the first weekday and after the last day, and advancing a date cursor
      over each cell it fills. `None` when `month_range` raises. */
  method MonthMatrix(y: int, m: int) returns (cells: Option<seq<seq<Cell>>>)
    ensures cells.Some? <==> MonthRange(y, m).Some?
    ensures cells.Some? ==> cells.value == MonthGrid(MonthRange(y, m).value.0, MonthRange(y, m).value.1)
  {
    var range := MonthRange(y, m);
    if range.None? {
      return None;
    }
    var first, last := range.value.0, range.value.1;
    MonthRangeLength(y, m);
    var startIdx := SundayIndex(first);
    var rows: seq<seq<Cell>> := [];
    var d := first;
    for r := 0 to Rows
      invariant |rows| == r
      invariant forall i :: 0 <= i < r ==> rows[i] == MonthGrid(first, last)[i]
      invariant d == first + DaysPlaced(first, last, Cols * r)
    {
      var row: seq<Cell> := [];
      for c := 0 to Cols
        invariant |row| == c
        invariant forall j :: 0 <= j < c ==> row[j] == GridCell(first, last, Cols * r + j)
        invariant d == first + DaysPlaced(first, last, Cols * r + c)
      {
        var idx := r * Cols + c;
        if idx < startIdx || d > last {
          row := row + [None];
        } else {
          row := row + [Some(d)];
          d := d + 1;
        }
      }
      rows := rows + [row];
    }
    assert rows == MonthGrid(first, last);
    return Some(rows);
  }

  /** Concatenation of the rows: the grid read in row-major order. */
  function Flatten(rows: seq<seq<Cell>>): (cells: seq<Cell>) {
    if rows == [] then [] else rows[0] + Flatten(rows[1..])
  }

  function Blanks(n: nat): (cells: seq<Cell>) {
    seq(n, _ => None)
  }

  /** The consecutive dates a..b, each in a cell. */
  function DayRun(a: Date, b: Date): (cells: seq<Cell>)
    requires a <= b + 1
  {
    seq(b - a + 1, k => Some(a + k))
  }

  lemma {:induction false} FlattenAt(rows: seq<seq<Cell>>, i: int)
    requires forall r :: 0 <= r < |rows| ==> |rows[r]| == Cols
    requires 0 <= i < Cols * |rows|
    ensures |Flatten(rows)| == Cols * |rows|
    ensures Flatten(rows)[i] == rows[i / Cols][i % Cols]
  {
    FlattenLength(rows);
    if i >= Cols {
      FlattenAt(rows[1..], i - Cols);
    }
  }

  lemma {:induction false} FlattenLength(rows: seq<seq<Cell>>)
    requires forall r :: 0 <= r < |rows| ==> |rows[r]| == Cols
    ensures |Flatten(rows)| == Cols * |rows|
  {
    if rows != [] {
      FlattenLength(rows[1..]);
    }
  }

  /** Read row by row, the grid of a month that fits in 42 cells is
      `SundayIndex(first)` blanks, then every date first..last in order, then
      blanks only. */
  lemma GridRowMajor(first: Date, last: Date)
    requires first <= last && SundayIndex(first) + (last - first + 1) <= Rows * Cols
    ensures Flatten(MonthGrid(first, last))
         == Blanks(SundayIndex(first)) + DayRun(first, last)
          + Blanks(Rows * Cols - SundayIndex(first) - (last - first + 1))
  {
    var g := MonthGrid(first, last);
    var rhs := Blanks(SundayIndex(first)) + DayRun(first, last)
             + Blanks(Rows * Cols - SundayIndex(first) - (last - first + 1));
    FlattenLength(g);
    forall i | 0 <= i < Rows * Cols
      ensures Flatten(g)[i] == rhs[i]
    {
      FlattenAt(g, i);
      assert Cols * (i / Cols) + i % Cols == i;
      assert Flatten(g)[i] == GridCell(first, last, i);
      var start := SundayIndex(first);
      if i < start {
        assert rhs[i] == None;
      } else if i < start + (last - first + 1) {
        assert rhs[i] == DayRun(first, last)[i - start];
      } else {
        assert rhs[i] == None;
      }
    }
  }

  /** The month-grid layout for an actual month: 42 cells whose dates are
      exactly the days of the month, consecutive, after `SundayIndex(first)`
      leading blanks and followed only by blanks. */
  lemma MonthGridLayout(y: int, m: int)
    requires MonthRange(y, m).Some?
    ensures var (first, last) := MonthRange(y, m).value;
      && |Flatten(MonthGrid(first, last))| == Rows * Cols
      && Flatten(MonthGrid(first, last)) ==
           Blanks(SundayIndex(first)) + DayRun(first, last)
           + Blanks(Rows * Cols - SundayIndex(first) - DaysInMonth(y, m))
  {
    var (first, last) := MonthRange(y, m).value;
    MonthRangeLength(y, m);
    GridRowMajor(first, last);
  }

  /** A week row in which every date sits in the column of its weekday. */
  predicate WeekdayAligned(row: seq<Cell>) {
    |row| == Cols && forall c :: 0 <= c < Cols && row[c].Some? ==> SundayIndex(row[c].value) == c
  }

  /** Every date of the grid sits in the column of its Sunday-first weekday. */
  lemma GridIsWeekdayAligned(first: Date, last: Date, r: int)
    requires 0 <= r < Rows
    ensures WeekdayAligned(MonthGrid(first, last)[r])
  {
    var row := MonthGrid(first, last)[r];
    forall c | 0 <= c < Cols && row[c].Some?
      ensures SundayIndex(row[c].value) == c
    {
      var start := SundayIndex(first);
      assert row[c] == GridCell(first, last, Cols * r + c);
      assert first == Cols * (first / Cols) + start;
      assert row[c].value == Cols * (first / Cols + r) + c;
    }
  }

  /** The first column at or after `c` whose cell holds `d`, or `d`'s weekday
      index when none does. */
  function FindFrom(row: seq<Cell>, d: Date, c: int): (col: int)
    requires |row| == Cols && 0 <= c <= Cols
    ensures 0 <= col < Cols
    ensures (exists k :: c <= k < Cols && row[k] == Some(d)) ==>
              c <= col && row[col] == Some(d) && forall k :: c <= k < col ==> row[k] != Some(d)
    ensures (forall k :: c <= k < Cols ==> row[k] != Some(d)) ==> col == SundayIndex(d)
    decreases Cols - c
  {
    if c == Cols then SundayIndex(d)
    else if row[c] == Some(d) then c
    else FindFrom(row, d, c + 1)
  }

  /** The column of date `d` in a week row: the first cell holding `d`, or,
      when no cell does, its weekday index. In a weekday-aligned row the two
      agree, so the result is always the weekday index. */
  function ColumnOf(row: seq<Cell>, d: Date): (col: int)
    requires |row| == Cols
    ensures 0 <= col < Cols
    ensures (exists k :: 0 <= k < Cols && row[k] == Some(d)) ==>
              row[col] == Some(d) && forall k :: 0 <= k < col ==> row[k] != Some(d)
    ensures (forall k :: 0 <= k < Cols ==> row[k] != Some(d)) ==> col == SundayIndex(d)
    ensures WeekdayAligned(row) ==> col == SundayIndex(d)
  {
    FindFrom(row, d, 0)
  }

  /** The column lookup inside `day_to_x`: a scan of the row for an exact
      match that falls back to the weekday formula. */
  method DayToColumn(row: seq<Cell>, d: Date) returns (col: int)
    requires |row| == Cols
    ensures col == ColumnOf(row, d)
  {
    var cc := 0;
    while cc < Cols
      invariant 0 <= cc <= Cols
      invariant forall k :: 0 <= k < cc ==> row[k] != Some(d)
    {
      if row[cc] == Some(d) {
        return cc;
      }
      cc := cc + 1;
    }
    col := SundayIndex(d);
  }
}
