/**
 * Stage 6 of the per-zone pipeline (per_zone_stage6.py): the zone sheet of
 * the current year is lined up with the sheets of earlier years.
 *   - Each table's date range is read from its headers from column 2 on;
 *     a header is reduced to its last space-separated token and completed
 *     with the current year.
 *   - The earliest start and the latest end of the earlier years are
 *     compared with the current sheet's by month and day only.
 *   - As many empty columns as the start is days away are inserted after
 *     the "Capacity" column.
 *   - Each earlier year's header row is inserted as row 2, and each of its
 *     Total rows under the first current row starting with the same keyword.
 *
 * Date parsing itself (`pd.to_datetime`) is a parameter `parse`; the clock
 * (`datetime.now().year`) is the parameter `year`.
 */
module CalendarAlign {
  import opened Cells
  import opened Sheets

  // ---------------------------------------------------------------------
  // Dates

  datatype Date = Date(year: int, month: int, day: int)

  /** A proleptic Gregorian leap year. */
  predicate Leap(year: int)
  {
    year % 4 == 0 && (year % 100 != 0 || year % 400 == 0)
  }

  function DaysIn(month: int, year: int): int
  {
    if month == 2 then (if Leap(year) then 29 else 28)
    else if month == 4 || month == 6 || month == 9 || month == 11 then 30
    else 31
  }

  /** A date that exists, as every pandas Timestamp does. */
  predicate Exists(d: Date)
  {
    1 <= d.month <= 12 && 1 <= d.day <= DaysIn(d.month, d.year)
  }

  /** What `pd.to_datetime` returns when it parses something. */
  type Timestamp = d: Date | Exists(d) witness Date(2000, 1, 1)

  /** extract_month_day: the (month, day) tuple. */
  datatype MonthDay = MonthDay(month: int, day: int)

  function MonthDayOf(d: Date): MonthDay
  {
    MonthDay(d.month, d.day)
  }

  /** `datetime(year, month, day)` succeeds. */
  predicate InYear(md: MonthDay, year: int)
  {
    Exists(Date(year, md.month, md.day))
  }

  /** Days before the first of each month in a common year. */
  const DaysBefore: seq<int> := [0, 31, 59, 90, 120, 151, 181, 212, 243, 273, 304, 334]

  /** The day's number within `year`, 1 for 1 January. */
  function DayOfYear(md: MonthDay, year: int): int
    requires 1 <= md.month <= 12
  {
    DaysBefore[md.month - 1] + (if Leap(year) && md.month > 2 then 1 else 0) + md.day
  }

  /**
   * calculate_days_difference: both dates are moved into the current year
   * and the distance between them is counted in days.
   */
  function DaysDifference(d1: Date, d2: Date, year: int): (r: nat)
    requires InYear(MonthDayOf(d1), year) && InYear(MonthDayOf(d2), year)
    ensures r < if Leap(year) then 366 else 365
  {
    var x := DayOfYear(MonthDayOf(d1), year) - DayOfYear(MonthDayOf(d2), year);
    if x < 0 then -x else x
  }

  /** Python's `<=` on (month, day) tuples. */
  predicate NotAfter(a: MonthDay, b: MonthDay)
  {
    a.month < b.month || (a.month == b.month && a.day <= b.day)
  }

  /** The last day of a month comes before the first day of any later month. */
  lemma MonthsInOrder(m1: int, m2: int, year: int)
    requires 1 <= m1 < m2 <= 12
    ensures DayOfYear(MonthDay(m1, DaysIn(m1, year)), year) < DayOfYear(MonthDay(m2, 1), year)
  {
  }

  /** Within one year the tuple order is the calendar order. */
  lemma OrderMatchesDays(a: MonthDay, b: MonthDay, year: int)
    requires InYear(a, year) && InYear(b, year)
    ensures NotAfter(a, b) <==> DayOfYear(a, year) <= DayOfYear(b, year)
  {
    if a.month < b.month {
      MonthsInOrder(a.month, b.month, year);
    } else if b.month < a.month {
      MonthsInOrder(b.month, a.month, year);
    }
  }

  /** The distance is symmetric. */
  lemma DaysDifferenceSymmetric(d1: Date, d2: Date, year: int)
    requires InYear(MonthDayOf(d1), year) && InYear(MonthDayOf(d2), year)
    ensures DaysDifference(d1, d2, year) == DaysDifference(d2, d1, year)
  {
  }

  /** The distance is zero exactly for the same month and day, whatever the years of the dates. */
  lemma DaysDifferenceZero(d1: Date, d2: Date, year: int)
    requires InYear(MonthDayOf(d1), year) && InYear(MonthDayOf(d2), year)
    ensures DaysDifference(d1, d2, year) == 0 <==> MonthDayOf(d1) == MonthDayOf(d2)
  {
    OrderMatchesDays(MonthDayOf(d1), MonthDayOf(d2), year);
    OrderMatchesDays(MonthDayOf(d2), MonthDayOf(d1), year);
  }

  /** The years of the two dates play no part. */
  lemma DaysDifferenceIgnoresYears(d1: Date, d2: Date, y1: int, y2: int, year: int)
    requires InYear(MonthDayOf(d1), year) && InYear(MonthDayOf(d2), year)
    ensures DaysDifference(Date(y1, d1.month, d1.day), Date(y2, d2.month, d2.day), year) == DaysDifference(d1, d2, year)
  {
  }

  /** `min` of (month, day) tuples. */
  function Earliest(mds: seq<MonthDay>): (r: MonthDay)
    requires |mds| > 0
    ensures r in mds
    ensures forall i :: 0 <= i < |mds| ==> NotAfter(r, mds[i])
  {
    if |mds| == 1 then mds[0]
    else
      var rest := Earliest(mds[1..]);
      if NotAfter(mds[0], rest) then mds[0] else rest
  }

  /** `max` of (month, day) tuples. */
  function Latest(mds: seq<MonthDay>): (r: MonthDay)
    requires |mds| > 0
    ensures r in mds
    ensures forall i :: 0 <= i < |mds| ==> NotAfter(mds[i], r)
  {
    if |mds| == 1 then mds[0]
    else
      var rest := Latest(mds[1..]);
      if NotAfter(rest, mds[0]) then mds[0] else rest
  }

  function MonthDays(ds: seq<Timestamp>): (r: seq<MonthDay>)
    ensures |r| == |ds| && forall i :: 0 <= i < |ds| ==> r[i] == MonthDayOf(ds[i])
  {
    seq(|ds|, i requires 0 <= i < |ds| => MonthDayOf(ds[i]))
  }

  // ---------------------------------------------------------------------
  // Date headers

  /** `s.split(" ")[-1]`: what follows the last space. */
  function LastToken(s: string): (r: string)
    ensures ' ' !in r && EndsWith(s, r)
    ensures |r| == |s| || s[|s| - |r| - 1] == ' '
  {
    if s == [] || s[|s| - 1] == ' ' then []
    else LastToken(s[..|s| - 1]) + [s[|s| - 1]]
  }

  /**
   * The text parse_date hands to `pd.to_datetime`: the last token, with
   * "/{year}" appended when it splits into exactly two parts at '/'.
   */
  function DateText(s: string, year: int): (r: string)
    ensures StartsWith(r, LastToken(s))
    ensures |r| > |LastToken(s)| <==> multiset(LastToken(s))['/'] == 1
  {
    var t := LastToken(s);
    if multiset(t)['/'] == 1 then t + "/" + IntText(year) else t
  }

  /**
   * What `pd.to_datetime(..., errors='coerce')` returns: a timestamp, or NaT
   * for text it cannot read.  NaT is truthy, and its month and day are NaN.
   */
  datatype Parsed = Day(t: Timestamp) | NaT

  /**
   * parse_date on a header.  Only text is split and parsed, NaT standing for
   * text `parse` cannot read; any other header makes `split` raise, which the
   * handler turns into None.
   */
  function ParseDate(h: Cell, year: int, parse: string -> Option<Timestamp>): (r: Option<Parsed>)
    ensures r.None? <==> !h.Text?
    ensures r == Some(NaT) <==> h.Text? && parse(DateText(h.s, year)).None?
    ensures h.Text? && parse(DateText(h.s, year)).Some? ==> r == Some(Day(parse(DateText(h.s, year)).value))
  {
    if !h.Text? then None
    else match parse(DateText(h.s, year))
      case Some(t) => Some(Day(t))
      case None => Some(NaT)
  }

  /** The header that stands for the end of the range. */
  function EndHeader(dates: seq<Cell>): Cell
    requires |dates| > 0
  {
    var last := dates[|dates| - 1];
    if last.Text? && Lower(last.s) == "total" then
      (if |dates| > 1 then dates[|dates| - 2] else Text("Unknown"))
    else last
  }

  datatype Range = Range(start: Option<Parsed>, end: Option<Parsed>)

  /** detect_date_range over the column headers of a table. */
  function DateRange(columns: seq<Cell>, year: int, parse: string -> Option<Timestamp>): (r: Range)
    ensures |columns| <= 2 ==> r == Range(None, None)
    ensures r.start.Some? ==> |columns| > 2 && columns[2].Text?
  {
    if |columns| <= 2 then Range(None, None)
    else
      var dates := columns[2..];
      Range(ParseDate(dates[0], year, parse), ParseDate(EndHeader(dates), year, parse))
  }

  /**
   * The start is read from column 2; the end from the last column, or the
   * one before it when the last is headed "total" in any case, or from
   * "Unknown" when column 2 is the only date column.
   */
  lemma DateRangeHeaders(columns: seq<Cell>, year: int, parse: string -> Option<Timestamp>)
    requires |columns| > 2
    ensures DateRange(columns, year, parse).start == ParseDate(columns[2], year, parse)
    ensures DateRange(columns, year, parse).end == ParseDate(EndOf(columns), year, parse)
  {
    var dates := columns[2..];
    assert dates[0] == columns[2];
    assert dates[|dates| - 1] == columns[|columns| - 1];
    if |dates| > 1 {
      assert dates[|dates| - 2] == columns[|columns| - 2];
    }
  }

  /** The end header picked from the full header row. */
  function EndOf(columns: seq<Cell>): Cell
    requires |columns| > 2
  {
    var last := columns[|columns| - 1];
    if !(last.Text? && Lower(last.s) == "total") then last
    else if |columns| > 3 then columns[|columns| - 2]
    else Text("Unknown")
  }

  // ---------------------------------------------------------------------
  // Padding after the Capacity column

  /**
   * add_empty_columns: `None` when no header in row 1 is "Capacity" (the
   * sheet is then not saved); otherwise `n` empty columns right after the
   * first such column.
   */
  function PaddedColumns(g: Grid, n: nat): (r: Option<Grid>)
    ensures r.None? <==> ColumnHeaded(g, "Capacity").None?
  {
    match ColumnHeaded(g, "Capacity")
    case None => None
    case Some(c) => Some(if n > 0 then InsertCols(g, c + 1, n) else g)
  }

  /**
   * Columns up to Capacity keep their cells, the next `n` are empty, and
   * every later column is the one `n` places to its left.
   */
  lemma PaddingAfterCapacity(g: Grid, n: nat)
    requires ColumnHeaded(g, "Capacity").Some?
    ensures var c := ColumnHeaded(g, "Capacity").value;
      var h := PaddedColumns(g, n).value;
      forall i, j :: Val(h, i, j) == if j <= c then Val(g, i, j) else if j <= c + n then Empty else Val(g, i, j - n)
  {
  }

  /** The add_empty_columns pass on the sheet; false when it does not save. */
  method AddEmptyColumns(ws: Worksheet, n: nat) returns (saved: bool)
    modifies ws
    ensures saved == PaddedColumns(old(ws.grid), n).Some?
    ensures saved ==> ws.grid == PaddedColumns(old(ws.grid), n).value
  {
    var c := FindColumn(ws, "Capacity");
    if c.None? {
      return false;
    }
    if n > 0 {
      ws.InsertColsAt(c.value + 1, n);
    }
    return true;
  }

  // ---------------------------------------------------------------------
  // Copying rows in

  /** The value the write loop puts in column j (1-based) of a copied row. */
  function Entry(row: seq<Cell>, j: int): Cell
  {
    if 1 <= j <= |row| then row[j - 1] else Empty
  }

  /** `insert_rows(at)` followed by writing `row` into the opened row. */
  function WithRowAt(g: Grid, at: nat, row: seq<Cell>): Grid
    requires 1 <= at
  {
    FillRow(InsertRows(g, at, 1), at, 1, |row| + 1, (j: nat) => Entry(row, j))
  }

  /** What the sheet holds at (i, j) once `row` is copied in as row `at`. */
  function RowCopiedAt(g: Grid, at: nat, row: seq<Cell>, i: int, j: int): Cell
  {
    if i < at then Val(g, i, j) else if i == at then Entry(row, j) else Val(g, i - 1, j)
  }

  /** Rows above `at` stay, row `at` holds the copied values, and the rows from `at` on move one down. */
  lemma RowInsertedAt(g: Grid, at: nat, row: seq<Cell>, i: int, j: int)
    requires 1 <= at
    ensures Val(WithRowAt(g, at, row), i, j) == RowCopiedAt(g, at, row, i, j)
  {
    var o := InsertRows(g, at, 1);
    assert At(o, i, j) == RowsOpenedAt(g, at, 1, i, j);
    if i == at && !(1 <= j < |row| + 1) {
      assert Val(o, i, j) == Empty;
    }
  }

  /** RowInsertedAt at every position, and the sheet never shrinks. */
  lemma RowInserted(g: Grid, at: nat, row: seq<Cell>)
    requires 1 <= at
    ensures forall i, j :: Val(WithRowAt(g, at, row), i, j) == RowCopiedAt(g, at, row, i, j)
    ensures g.rows <= WithRowAt(g, at, row).rows
  {
    assert g.rows <= InsertRows(g, at, 1).rows;
    forall i, j ensures Val(WithRowAt(g, at, row), i, j) == RowCopiedAt(g, at, row, i, j) {
      RowInsertedAt(g, at, row, i, j);
    }
  }

  /** A row copied in just below the sheet's last row adds one row. */
  lemma RowAdded(g: Grid, at: nat, row: seq<Cell>)
    requires 1 <= at <= g.rows + 1 && |row| >= 1
    ensures WithRowAt(g, at, row).rows == g.rows + 1
  {
    var o := InsertRows(g, at, 1);
    FillRowSize(o, at, 1, |row| + 1, (j: nat) => Entry(row, j));
  }

  /** Writing along a row makes the sheet reach that row and no further. */
  lemma {:induction false} FillRowSize(g: Grid, r: nat, lo: nat, hi: int, e: nat -> Cell)
    requires 1 <= r && 1 <= lo < hi
    ensures FillRow(g, r, lo, hi, e).rows == Max(g.rows, r)
    decreases hi - lo
  {
    if lo < hi - 1 {
      FillRowSize(g, r, lo, hi - 1, e);
    }
  }

  /** The write loop of copy_header and copy_total_rows_from_stage5, after the row is opened. */
  method InsertRowValues(ws: Worksheet, at: nat, row: seq<Cell>)
    requires 1 <= at
    modifies ws
    ensures ws.grid == WithRowAt(old(ws.grid), at, row)
  {
    ws.InsertRowsAt(at, 1);
    ghost var blank := ws.grid;
    var j := 1;
    while j <= |row|
      invariant 1 <= j <= |row| + 1
      invariant ws.grid == FillRow(blank, at, 1, j, (c: nat) => Entry(row, c))
    {
      ws.SetCell(at, j, row[j - 1]);
      j := j + 1;
    }
  }

  /** copy_header: the earlier year's headers become row 2. */
  method CopyHeader(ws: Worksheet, columns: seq<Cell>)
    modifies ws
    ensures ws.grid == WithRowAt(old(ws.grid), 2, columns)
  {
    InsertRowValues(ws, 2, columns);
  }

  const Keywords: seq<string> := ["Total Accommodation", "Total Youth Hostel", "Total Camping"]

  /** The first keyword the name's text starts with. */
  function KeywordOf(name: Cell): (r: Option<string>)
    ensures r.Some? ==> r.value in Keywords && StartsWith(Render(name), r.value)
    ensures r.None? <==> forall i :: 0 <= i < |Keywords| ==> !StartsWith(Render(name), Keywords[i])
  {
    if StartsWith(Render(name), Keywords[0]) then Some(Keywords[0])
    else if StartsWith(Render(name), Keywords[1]) then Some(Keywords[1])
    else if StartsWith(Render(name), Keywords[2]) then Some(Keywords[2])
    else None
  }

  /** The rows the `str.startswith` mask keeps: a text name starting with a keyword. */
  predicate Selected(row: seq<Cell>)
  {
    |row| >= 1 && row[0].Text? && KeywordOf(row[0]).Some?
  }

  /** A current row whose name is truthy and whose text starts with the keyword. */
  function Starting(keyword: string): Cell -> bool
  {
    v => Truthy(v) && StartsWith(Render(v), keyword)
  }

  /** The row a copied total row goes under. */
  function Target(g: Grid, keyword: string): Option<nat>
  {
    FirstRow(g, Starting(keyword), 1, MaxRow(g) + 1)
  }

  /** The scan for the target row, which stops at the first match. */
  method FindTarget(ws: Worksheet, keyword: string) returns (r: Option<nat>)
    ensures r == Target(ws.grid, keyword)
  {
    var i := 1;
    while i <= MaxRow(ws.grid)
      invariant 1 <= i
      invariant Target(ws.grid, keyword) == FirstRow(ws.grid, Starting(keyword), i, MaxRow(ws.grid) + 1)
    {
      var v := Val(ws.grid, i, 1);
      if Truthy(v) && StartsWith(Render(v), keyword) {
        return Some(i);
      }
      i := i + 1;
    }
    return None;
  }

  /** One row of the earlier year's table: copied under its target, or skipped. */
  function CopyOne(g: Grid, row: seq<Cell>): Grid
  {
    if !Selected(row) then g
    else
      match Target(g, KeywordOf(row[0]).value)
      case None => g
      case Some(t) => WithRowAt(g, t + 1, row)
  }

  /** The first `n` rows of the earlier year's table, in order. */
  function CopyRows(g: Grid, rows: Table, n: nat): Grid
    requires n <= |rows|
  {
    if n == 0 then g else CopyOne(CopyRows(g, rows, n - 1), rows[n - 1])
  }

  /** copy_total_rows_from_stage5. */
  method CopyTotalRows(ws: Worksheet, rows: Table)
    modifies ws
    ensures ws.grid == CopyRows(old(ws.grid), rows, |rows|)
  {
    ghost var g := ws.grid;
    for n := 0 to |rows|
      invariant ws.grid == CopyRows(g, rows, n)
    {
      var row := rows[n];
      if Selected(row) {
        var t := FindTarget(ws, KeywordOf(row[0]).value);
        if t.Some? {
          InsertRowValues(ws, t.value + 1, row);
        }
      }
    }
  }

  /**
   * Rows up to the target are untouched when a row is copied in under it,
   * so for any test the target stays where it was.
   */
  lemma TargetStays(g: Grid, row: seq<Cell>, ok: Cell -> bool, t: nat)
    requires FirstRow(g, ok, 1, MaxRow(g) + 1) == Some(t)
    ensures FirstRow(WithRowAt(g, t + 1, row), ok, 1, MaxRow(WithRowAt(g, t + 1, row)) + 1) == Some(t)
  {
    var h := WithRowAt(g, t + 1, row);
    assert g.rows <= InsertRows(g, t + 1, 1).rows;
    forall i | 1 <= i <= t ensures Val(h, i, 1) == Val(g, i, 1) {
      RowInsertedAt(g, t + 1, row, i, 1);
    }
    SameScan(g, h, ok, t);
  }

  /** Two sheets that agree in column 1 down to the first match of one scan the same way. */
  lemma SameScan(g: Grid, h: Grid, ok: Cell -> bool, t: nat)
    requires FirstRow(g, ok, 1, MaxRow(g) + 1) == Some(t)
    requires t <= MaxRow(h) && forall i :: 1 <= i <= t ==> Val(h, i, 1) == Val(g, i, 1)
    ensures FirstRow(h, ok, 1, MaxRow(h) + 1) == Some(t)
  {
    FirstMatch(h, ok, 1, t, MaxRow(h) + 1);
  }

  /** A scan that meets no match before row `t` and a match at `t` stops at `t`. */
  lemma {:induction false} FirstMatch(h: Grid, ok: Cell -> bool, lo: nat, t: nat, hi: nat)
    requires lo <= t < hi && ok(Val(h, t, 1))
    requires forall i :: lo <= i < t ==> !ok(Val(h, i, 1))
    ensures FirstRow(h, ok, lo, hi) == Some(t)
    decreases t - lo
  {
    if lo < t {
      FirstMatch(h, ok, lo + 1, t, hi);
    }
  }

  /**
   * A second total row with the same keyword lands directly under the
   * target too, pushing the first one down: later rows end up above
   * earlier ones.
   */
  lemma LaterAbove(g: Grid, t: nat, first: seq<Cell>, second: seq<Cell>)
    ensures forall j :: Val(WithRowAt(WithRowAt(g, t + 1, first), t + 1, second), t + 1, j) == Entry(second, j)
    ensures forall j :: Val(WithRowAt(WithRowAt(g, t + 1, first), t + 1, second), t + 2, j) == Entry(first, j)
  {
    forall j ensures Val(WithRowAt(WithRowAt(g, t + 1, first), t + 1, second), t + 1, j) == Entry(second, j) {
      CopiedRow(WithRowAt(g, t + 1, first), t + 1, second, j);
    }
    forall j ensures Val(WithRowAt(WithRowAt(g, t + 1, first), t + 1, second), t + 2, j) == Entry(first, j) {
      PushedDown(g, t, first, second, j);
    }
  }

  lemma CopiedRow(g: Grid, at: nat, row: seq<Cell>, j: int)
    requires 1 <= at
    ensures Val(WithRowAt(g, at, row), at, j) == Entry(row, j)
  {
    RowInsertedAt(g, at, row, at, j);
  }

  lemma PushedDown(g: Grid, t: nat, first: seq<Cell>, second: seq<Cell>, j: int)
    ensures Val(WithRowAt(WithRowAt(g, t + 1, first), t + 1, second), t + 2, j) == Entry(first, j)
  {
    var h := WithRowAt(g, t + 1, first);
    MovedDown(h, t + 1, second, j);
    CopiedRow(g, t + 1, first, j);
  }

  /** The row at `at` moves one down when a row is copied in at `at`. */
  lemma MovedDown(g: Grid, at: nat, row: seq<Cell>, j: int)
    requires 1 <= at
    ensures Val(WithRowAt(g, at, row), at + 1, j) == Val(g, at, j)
  {
    RowInsertedAt(g, at, row, at + 1, j);
  }

  // ---------------------------------------------------------------------
  // process_stage6

  /** A table of an earlier year: its column headers and its rows. */
  datatype Prior = Prior(columns: seq<Cell>, rows: Table)

  /** copy_header then copy_total_rows_from_stage5 for the first `n` earlier years. */
  function CopyYears(g: Grid, files: seq<Prior>, n: nat): Grid
    requires n <= |files|
  {
    if n == 0 then g
    else
      var f := files[n - 1];
      var p := CopyYears(g, files, n - 1);
      CopyRows(WithRowAt(p, 2, f.columns), f.rows, |f.rows|)
  }

  /** detect_date_range with the current year and the date parser fixed. */
  function Reader(year: int, parse: string -> Option<Timestamp>): seq<Cell> -> Range
  {
    columns => DateRange(columns, year, parse)
  }

  /** The starts of the first `n` earlier years that parse_date returned (a timestamp or NaT), in file order. */
  function Starts(files: seq<Prior>, n: nat, read: seq<Cell> -> Range): seq<Parsed>
    requires n <= |files|
  {
    if n == 0 then []
    else
      var s := read(files[n - 1].columns).start;
      Starts(files, n - 1, read) + (if s.Some? then [s.value] else [])
  }

  /** The ends of the first `n` earlier years that parse_date returned, in file order. */
  function Ends(files: seq<Prior>, n: nat, read: seq<Cell> -> Range): seq<Parsed>
    requires n <= |files|
  {
    if n == 0 then []
    else
      var e := read(files[n - 1].columns).end;
      Ends(files, n - 1, read) + (if e.Some? then [e.value] else [])
  }

  /** Exactly the earlier years whose start parse_date returned contribute a start. */
  lemma {:induction false} StartsCount(files: seq<Prior>, n: nat, read: seq<Cell> -> Range)
    requires n <= |files|
    ensures Starts(files, n, read) == [] <==> forall k :: 0 <= k < n ==> read(files[k].columns).start.None?
  {
    if n > 0 {
      StartsCount(files, n - 1, read);
    }
  }

  /** Exactly the earlier years whose end parse_date returned contribute an end. */
  lemma {:induction false} EndsCount(files: seq<Prior>, n: nat, read: seq<Cell> -> Range)
    requires n <= |files|
    ensures Ends(files, n, read) == [] <==> forall k :: 0 <= k < n ==> read(files[k].columns).end.None?
  {
    if n > 0 {
      EndsCount(files, n - 1, read);
    }
  }

  /** NaT is truthy: the first collected start is the first year's start that parse_date returned, NaT included. */
  lemma {:induction false} FirstStart(files: seq<Prior>, n: nat, read: seq<Cell> -> Range, k: nat)
    requires k < n <= |files|
    requires read(files[k].columns).start.Some?
    requires forall i :: 0 <= i < k ==> read(files[i].columns).start.None?
    ensures Starts(files, n, read) != [] && Starts(files, n, read)[0] == read(files[k].columns).start.value
  {
    if n == k + 1 {
      StartsCount(files, k, read);
    } else {
      FirstStart(files, n - 1, read, k);
    }
  }

  // ---------------------------------------------------------------------
  // min and max of the (month, day) tuples, NaT's (nan, nan) included

  /** Python's `a < b` on the tuples: false whenever either side holds NaN. */
  predicate Before(a: Parsed, b: Parsed)
  {
    a.Day? && b.Day? && NotAfter(MonthDayOf(a.t), MonthDayOf(b.t)) && MonthDayOf(a.t) != MonthDayOf(b.t)
  }

  /** `min`: the running minimum `m` is replaced by every later item strictly below it. */
  function MinFrom(m: Parsed, rest: seq<Parsed>): Parsed
    decreases |rest|
  {
    if rest == [] then m else MinFrom(if Before(rest[0], m) then rest[0] else m, rest[1..])
  }

  /** `max`: the running maximum `m` is replaced by every later item strictly above it. */
  function MaxFrom(m: Parsed, rest: seq<Parsed>): Parsed
    decreases |rest|
  {
    if rest == [] then m else MaxFrom(if Before(m, rest[0]) then rest[0] else m, rest[1..])
  }

  /** The timestamps among the items, NaT left out. */
  function Days(ps: seq<Parsed>): (r: seq<Timestamp>)
    ensures forall i :: 0 <= i < |ps| && ps[i].Day? ==> ps[i].t in r
    ensures forall i :: 0 <= i < |r| ==> Day(r[i]) in ps
  {
    if ps == [] then []
    else (if ps[0].Day? then [ps[0].t] else []) + Days(ps[1..])
  }

  /** Nothing is below or above NaN: a running NaT is never replaced. */
  lemma {:induction false} NaTSticks(rest: seq<Parsed>)
    ensures MinFrom(NaT, rest) == NaT && MaxFrom(NaT, rest) == NaT
    decreases |rest|
  {
    if rest != [] {
      NaTSticks(rest[1..]);
    }
  }

  /** From a timestamp on, `min` reaches a timestamp that is one of them and no later than any of them. */
  lemma {:induction false} MinFromDay(m: Timestamp, rest: seq<Parsed>)
    ensures MinFrom(Day(m), rest).Day?
    ensures var r := MinFrom(Day(m), rest).t; r == m || Day(r) in rest
    ensures var r := MinFrom(Day(m), rest).t;
      NotAfter(MonthDayOf(r), MonthDayOf(m)) && forall i :: 0 <= i < |rest| && rest[i].Day? ==> NotAfter(MonthDayOf(r), MonthDayOf(rest[i].t))
    decreases |rest|
  {
    if rest != [] {
      var next := if Before(rest[0], Day(m)) then rest[0] else Day(m);
      MinFromDay(next.t, rest[1..]);
      var r := MinFrom(Day(m), rest).t;
      forall i | 0 <= i < |rest| && rest[i].Day? ensures NotAfter(MonthDayOf(r), MonthDayOf(rest[i].t)) {
        if i > 0 {
          assert rest[1..][i - 1] == rest[i];
        }
      }
    }
  }

  /** From a timestamp on, `max` reaches a timestamp that is one of them and no earlier than any of them. */
  lemma {:induction false} MaxFromDay(m: Timestamp, rest: seq<Parsed>)
    ensures MaxFrom(Day(m), rest).Day?
    ensures var r := MaxFrom(Day(m), rest).t; r == m || Day(r) in rest
    ensures var r := MaxFrom(Day(m), rest).t;
      NotAfter(MonthDayOf(m), MonthDayOf(r)) && forall i :: 0 <= i < |rest| && rest[i].Day? ==> NotAfter(MonthDayOf(rest[i].t), MonthDayOf(r))
    decreases |rest|
  {
    if rest != [] {
      var next := if Before(Day(m), rest[0]) then rest[0] else Day(m);
      MaxFromDay(next.t, rest[1..]);
      var r := MaxFrom(Day(m), rest).t;
      forall i | 0 <= i < |rest| && rest[i].Day? ensures NotAfter(MonthDayOf(rest[i].t), MonthDayOf(r)) {
        if i > 0 {
          assert rest[1..][i - 1] == rest[i];
        }
      }
    }
  }

  /**
   * `min(all_start_md)`: NaT when the first collected item is NaT; otherwise
   * the timestamp whose (month, day) is Earliest of the timestamps, any NaT
   * later in the list passed over.
   */
  lemma PyMin(ps: seq<Parsed>)
    requires |ps| > 0
    ensures ps[0].NaT? ==> MinFrom(ps[0], ps[1..]) == NaT
    ensures ps[0].Day? ==> (MinFrom(ps[0], ps[1..]).Day? && |Days(ps)| > 0
      && MonthDayOf(MinFrom(ps[0], ps[1..]).t) == Earliest(MonthDays(Days(ps))))
  {
    if ps[0].NaT? {
      NaTSticks(ps[1..]);
    } else {
      MinFromDay(ps[0].t, ps[1..]);
      var r := MinFrom(ps[0], ps[1..]).t;
      var ds := Days(ps);
      assert Day(r) in ps by {
        if r != ps[0].t {
          var j :| 0 <= j < |ps[1..]| && ps[1..][j] == Day(r);
          assert ps[j + 1] == Day(r);
        }
      }
      var i :| 0 <= i < |ps| && ps[i] == Day(r);
      assert r in ds;
      var e := Earliest(MonthDays(ds));
      var n :| 0 <= n < |ds| && ds[n] == r;
      assert MonthDays(ds)[n] == MonthDayOf(r);
      var k :| 0 <= k < |ds| && MonthDays(ds)[k] == e;
      assert Day(ds[k]) in ps;
      var q :| 0 <= q < |ps| && ps[q] == Day(ds[k]);
      if q > 0 {
        assert ps[1..][q - 1] == ps[q];
      }
    }
  }

  /** `max(all_end_md)`, as PyMin with Latest. */
  lemma PyMax(ps: seq<Parsed>)
    requires |ps| > 0
    ensures ps[0].NaT? ==> MaxFrom(ps[0], ps[1..]) == NaT
    ensures ps[0].Day? ==> (MaxFrom(ps[0], ps[1..]).Day? && |Days(ps)| > 0
      && MonthDayOf(MaxFrom(ps[0], ps[1..]).t) == Latest(MonthDays(Days(ps))))
  {
    if ps[0].NaT? {
      NaTSticks(ps[1..]);
    } else {
      MaxFromDay(ps[0].t, ps[1..]);
      var r := MaxFrom(ps[0], ps[1..]).t;
      var ds := Days(ps);
      assert Day(r) in ps by {
        if r != ps[0].t {
          var j :| 0 <= j < |ps[1..]| && ps[1..][j] == Day(r);
          assert ps[j + 1] == Day(r);
        }
      }
      var i :| 0 <= i < |ps| && ps[i] == Day(r);
      assert r in ds;
      var e := Latest(MonthDays(ds));
      var n :| 0 <= n < |ds| && ds[n] == r;
      assert MonthDays(ds)[n] == MonthDayOf(r);
      var k :| 0 <= k < |ds| && MonthDays(ds)[k] == e;
      assert Day(ds[k]) in ps;
      var q :| 0 <= q < |ps| && ps[q] == Day(ds[k]);
      if q > 0 {
        assert ps[1..][q - 1] == ps[q];
      }
    }
  }

  // ---------------------------------------------------------------------
  // The outcome

  /** The exceptions `datetime(year, month, day)` raises. */
  datatype Error =
    | TypeError   // NaT's month and day are NaN, not integers
    | ValueError  // a day the current year does not have (29 February)

  /** `datetime(year, month, day)` on the month and day of an item. */
  function Fixed(p: Parsed, year: int): (r: Option<Error>)
    ensures r.None? <==> p.Day? && InYear(MonthDayOf(p.t), year)
  {
    match p
    case NaT => Some(TypeError)
    case Day(t) => if InYear(MonthDayOf(t), year) then None else Some(ValueError)
  }

  /** The first of the `datetime` calls, in the order they run, that raises. */
  function FirstError(ps: seq<Parsed>, year: int): (r: Option<Error>)
    ensures r.None? <==> forall i :: 0 <= i < |ps| ==> Fixed(ps[i], year).None?
    ensures r.Some? ==> exists i :: 0 <= i < |ps| && Fixed(ps[i], year) == r
  {
    if ps == [] then None
    else if Fixed(ps[0], year).Some? then Fixed(ps[0], year)
    else FirstError(ps[1..], year)
  }

  /**
   * How the stage ends: no comparable date ranges (nothing is written), an
   * exception from `datetime` (nothing is written), no Capacity column (the
   * file is not saved, so copying the headers finds nothing to load), or the
   * aligned sheet.
   */
  datatype Outcome = NoDateRange | Raised(error: Error) | NoCapacity | Aligned(grid: Grid)

  /**
   * The `datetime` calls in the order process_stage6 makes them: the
   * earliest start and the latest end of the earlier years (lines 223-224),
   * then the current sheet's start and end inside calculate_days_difference.
   */
  function Calls(reference: Range, starts: seq<Parsed>, ends: seq<Parsed>): seq<Parsed>
    requires reference.start.Some? && reference.end.Some? && |starts| > 0 && |ends| > 0
  {
    [MinFrom(starts[0], starts[1..]), MaxFrom(ends[0], ends[1..]), reference.start.value, reference.end.value]
  }

  /** The padding before the current sheet's first date: its distance from the earliest start, moved into the current year. */
  function StartDiff(start: Timestamp, earliest: Timestamp, year: int): nat
    requires InYear(MonthDayOf(start), year) && InYear(MonthDayOf(earliest), year)
  {
    DaysDifference(start, Date(year, earliest.month, earliest.day), year)
  }

  /**
   * Past the check for date ranges: the first `datetime` call that raises
   * decides the outcome; with none, the padding is the distance of the
   * current start from the earliest start, and every earlier year is copied in.
   */
  function Compare(g: Grid, files: seq<Prior>, reference: Range, starts: seq<Parsed>, ends: seq<Parsed>, year: int): (r: Outcome)
    requires reference.start.Some? && reference.end.Some? && |starts| > 0 && |ends| > 0
    ensures r.Raised? <==> FirstError(Calls(reference, starts, ends), year).Some?
    ensures r.Raised? ==> r.error == FirstError(Calls(reference, starts, ends), year).value
    ensures !r.NoDateRange?
  {
    var calls := Calls(reference, starts, ends);
    match FirstError(calls, year)
    case Some(e) => Raised(e)
    case None =>
      assert Fixed(calls[0], year).None? && Fixed(calls[2], year).None?;
      match PaddedColumns(g, StartDiff(calls[2].t, calls[0].t, year))
      case None => NoCapacity
      case Some(h) => Aligned(CopyYears(h, files, |files|))
  }

  /** process_stage6 on the current sheet and the earlier years' tables. */
  function Stage6(g: Grid, files: seq<Prior>, year: int, parse: string -> Option<Timestamp>): (r: Outcome)
    ensures r.NoDateRange? <==>
      var reference := DateRange(Headers(g), year, parse);
      Starts(files, |files|, Reader(year, parse)) == [] || Ends(files, |files|, Reader(year, parse)) == [] || reference.start.None? || reference.end.None?
  {
    var reference := DateRange(Headers(g), year, parse);
    var starts := Starts(files, |files|, Reader(year, parse));
    var ends := Ends(files, |files|, Reader(year, parse));
    if starts == [] || ends == [] || reference.start.None? || reference.end.None? then NoDateRange
    else Compare(g, files, reference, starts, ends, year)
  }

  /**
   * An earlier year whose start header is text that does not parse, with no
   * earlier file before it whose start parse_date returned: its NaT is the
   * first collected start, `min` keeps it, and `datetime` raises TypeError
   * before anything is written.
   */
  lemma NaTStartRaises(g: Grid, files: seq<Prior>, year: int, parse: string -> Option<Timestamp>, k: nat)
    requires k < |files|
    requires Reader(year, parse)(files[k].columns).start == Some(NaT)
    requires forall i :: 0 <= i < k ==> Reader(year, parse)(files[i].columns).start.None?
    requires Ends(files, |files|, Reader(year, parse)) != []
    requires DateRange(Headers(g), year, parse).start.Some? && DateRange(Headers(g), year, parse).end.Some?
    ensures Stage6(g, files, year, parse) == Raised(TypeError)
  {
    var starts := Starts(files, |files|, Reader(year, parse));
    FirstStart(files, |files|, Reader(year, parse), k);
    PyMin(starts);
    assert FirstError(Calls(DateRange(Headers(g), year, parse), starts, Ends(files, |files|, Reader(year, parse))), year) == Some(TypeError);
  }

  /**
   * The current sheet's own start takes no part in the earliest start and
   * the distance has no sign: a sheet that starts before every earlier
   * year is padded all the same.
   */
  lemma PaddedEvenWhenEarlier(start: Timestamp, starts: seq<Parsed>, year: int)
    requires |starts| > 0 && starts[0].Day? && InYear(MonthDayOf(start), year)
    requires forall i :: 0 <= i < |starts| && starts[i].Day? ==>
      InYear(MonthDayOf(starts[i].t), year) && NotAfter(MonthDayOf(start), MonthDayOf(starts[i].t)) && MonthDayOf(start) != MonthDayOf(starts[i].t)
    ensures var e := MinFrom(starts[0], starts[1..]);
      e.Day? && InYear(MonthDayOf(e.t), year) && StartDiff(start, e.t, year) > 0
  {
    MinFromDay(starts[0].t, starts[1..]);
    var e := MinFrom(starts[0], starts[1..]).t;
    if e != starts[0].t {
      var j :| 0 <= j < |starts[1..]| && starts[1..][j] == Day(e);
      assert starts[j + 1] == Day(e);
    }
    DaysDifferenceZero(start, Date(year, e.month, e.day), year);
  }

  /** The loop of process_stage6 collecting every start and end parse_date returned, NaT included. */
  method CollectRanges(files: seq<Prior>, read: seq<Cell> -> Range)
    returns (starts: seq<Parsed>, ends: seq<Parsed>)
    ensures starts == Starts(files, |files|, read) && ends == Ends(files, |files|, read)
  {
    starts, ends := [], [];
    for n := 0 to |files|
      invariant starts == Starts(files, n, read) && ends == Ends(files, n, read)
    {
      var r := read(files[n].columns);
      if r.start.Some? {
        starts := starts + [r.start.value];
      }
      if r.end.Some? {
        ends := ends + [r.end.value];
      }
    }
  }

  /** The loop over the earlier years' files. */
  method CopyAllYears(ws: Worksheet, files: seq<Prior>)
    modifies ws
    ensures ws.grid == CopyYears(old(ws.grid), files, |files|)
  {
    ghost var g := ws.grid;
    for n := 0 to |files|
      invariant ws.grid == CopyYears(g, files, n)
    {
      CopyHeader(ws, files[n].columns);
      CopyTotalRows(ws, files[n].rows);
    }
  }

  /** process_stage6. */
  method ProcessStage6(ws: Worksheet, files: seq<Prior>, year: int, parse: string -> Option<Timestamp>)
    returns (r: Outcome)
    modifies ws
    ensures r == Stage6(old(ws.grid), files, year, parse)
    ensures r.Aligned? ==> ws.grid == r.grid
  {
    var reference := DateRange(Headers(ws.grid), year, parse);
    var starts, ends := CollectRanges(files, Reader(year, parse));
    if starts == [] || ends == [] || reference.start.None? || reference.end.None? {
      return NoDateRange;
    }
    var calls := Calls(reference, starts, ends);
    var e := FirstError(calls, year);
    if e.Some? {
      return Raised(e.value);
    }
    assert Fixed(calls[0], year).None? && Fixed(calls[2], year).None?;
    assert Stage6(old(ws.grid), files, year, parse) == Compare(ws.grid, files, reference, starts, ends, year);
    var saved := AddEmptyColumns(ws, StartDiff(calls[2].t, calls[0].t, year));
    if !saved {
      return NoCapacity;
    }
    CopyAllYears(ws, files);
    return Aligned(ws.grid);
  }
}
