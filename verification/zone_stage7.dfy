/**
 * Per-zone stage 7: the sums, capacities and occupancy rates of the zone
 * sheet.  Each "Total Accommodations/Youth Hostel/Camping {year}" row gets,
 * in column B, the capacity of the rows above it back to the nearest
 * "Category" row or empty row, and in every later column a SUM over those
 * rows; each "Πληρότητα" row gets sum / capacity; finally every data row
 * that has no total yet gets SUM(C .. second-to-last column) in the last
 * column.
 */
module ZoneStage7 {
  import opened Cells
  import opened Sheets

  /** A row number as `enumerate(ws.iter_rows(), 1)` produces it. */
  type Row = r: nat | 1 <= r witness 1

  const Category: string := "Category"
  const Capacity: string := "Capacity"
  const Occupancy: string := "Πληρότητα"

  // ---------------------------------------------------------------------
  // Row tests and scans

  /** Every cell of row r in columns 1 .. width is None. */
  predicate AllNone(g: Grid, r: int, width: int)
  {
    forall c :: 1 <= c <= width ==> Val(g, r, c) == Empty
  }

  /** The two kinds of rows the scans look for. */
  datatype RowKind = LabelRow(text: string) | NoneRow

  /**
   * The tests of the `iter_rows` loops: `row and row[0] == label` and
   * `row and all(cell is None for cell in row)`; a row tuple is empty, so
   * falsy, when the sheet has no column.
   */
  predicate Is(g: Grid, r: int, k: RowKind)
  {
    g.cols >= 1 && (match k
      case LabelRow(s) => Val(g, r, 1) == Text(s)
      case NoneRow => AllNone(g, r, g.cols))
  }

  /** The last row among 1 .. n of kind k. */
  function LastOf(g: Grid, k: RowKind, n: nat): (o: Option<Row>)
    ensures o.Some? ==> o.value <= n && Is(g, o.value, k)
    ensures forall r :: (if o.Some? then o.value else 0) < r <= n ==> !Is(g, r, k)
  {
    if n == 0 then None else if Is(g, n, k) then Some(n) else LastOf(g, k, n - 1)
  }

  /** The first row among 1 .. n of kind k. */
  function FirstOf(g: Grid, k: RowKind, n: nat): (o: Option<Row>)
    ensures o.Some? ==> o.value <= n && Is(g, o.value, k)
    ensures forall r :: 1 <= r <= n && (o.None? || r < o.value) ==> !Is(g, r, k)
  {
    if n == 0 then None
    else
      var p := FirstOf(g, k, n - 1);
      if p.Some? then p else if Is(g, n, k) then Some(n) else None
  }

  /** All rows among 1 .. n of kind k, top to bottom. */
  function AllOf(g: Grid, k: RowKind, n: nat): (rs: seq<Row>)
    ensures forall i :: 0 <= i < |rs| ==> rs[i] <= n && Is(g, rs[i], k)
    ensures forall i, j :: 0 <= i < j < |rs| ==> rs[i] < rs[j]
    ensures forall r :: 1 <= r <= n && Is(g, r, k) ==> r in rs
  {
    if n == 0 then [] else AllOf(g, k, n - 1) + (if Is(g, n, k) then [n as Row] else [])
  }

  // ---------------------------------------------------------------------
  // detect_breakpoints

  datatype Breakpoints = Breakpoints(lastCategory: Option<Row>, firstEmpty: Option<Row>, finalEmpty: Option<Row>)

  /**
   * The last "Category" row, the first and the last all-None row.  There
   * is a first empty row exactly when there is a last one, and it is not
   * below it.
   */
  function Detect(g: Grid): (b: Breakpoints)
    ensures b.lastCategory.Some? ==> Val(g, b.lastCategory.value, 1) == Text(Category)
    ensures b.firstEmpty.Some? <==> b.finalEmpty.Some?
    ensures b.firstEmpty.Some? ==> b.firstEmpty.value <= b.finalEmpty.value
  {
    var b := Breakpoints(LastOf(g, LabelRow(Category), g.rows), FirstOf(g, NoneRow, g.rows), LastOf(g, NoneRow, g.rows));
    assert b.finalEmpty.Some? ==> Is(g, b.finalEmpty.value, NoneRow);
    assert b.firstEmpty.Some? ==> Is(g, b.firstEmpty.value, NoneRow);
    b
  }

  /** detect_breakpoints: one pass over the rows. */
  method DetectBreakpoints(ws: Worksheet) returns (b: Breakpoints)
    ensures b == Detect(ws.grid)
  {
    var lastCategory: Option<Row> := None;
    var firstEmpty: Option<Row> := None;
    var finalEmpty: Option<Row> := None;
    var r := 1;
    while r <= ws.grid.rows
      invariant 1 <= r <= ws.grid.rows + 1
      invariant lastCategory == LastOf(ws.grid, LabelRow(Category), r - 1)
      invariant firstEmpty == FirstOf(ws.grid, NoneRow, r - 1)
      invariant finalEmpty == LastOf(ws.grid, NoneRow, r - 1)
    {
      if Is(ws.grid, r, LabelRow(Category)) {
        lastCategory := Some(r);
      }
      if Is(ws.grid, r, NoneRow) {
        if firstEmpty.None? {
          firstEmpty := Some(r);
        }
        finalEmpty := Some(r);
      }
      r := r + 1;
    }
    b := Breakpoints(lastCategory, firstEmpty, finalEmpty);
  }

  // ---------------------------------------------------------------------
  // locate_target_rows

  /**
   * One entry of `target_data`.  The source sets `sum_row` and
   * `capacity_row` to the same row every time, so the model keeps one
   * field, `total`; `capacity_value` is returned by ProcessCategory.
   */
  datatype Target = Target(total: Option<Row>, occupancy: Option<Row>)

  /** The keys of `target_data`, in its order. */
  function CategoryNames(year: int): seq<string>
  {
    ["Total Accommodations " + IntText(year), "Total Youth Hostel " + IntText(year), "Total Camping " + IntText(year)]
  }

  /** The entry for key k: its last labelled row, and the k-th "Πληρότητα" row if there are three. */
  function TargetFor(g: Grid, k: nat, year: int, occ: seq<Row>): Target
    requires k < 3
  {
    Target(LastOf(g, LabelRow(CategoryNames(year)[k]), g.rows), if |occ| >= 3 then Some(occ[k]) else None)
  }

  function Locate(g: Grid, year: int): (ts: seq<Target>)
    ensures |ts| == 3
  {
    var occ := AllOf(g, LabelRow(Occupancy), g.rows);
    [TargetFor(g, 0, year, occ), TargetFor(g, 1, year, occ), TargetFor(g, 2, year, occ)]
  }

  /**
   * The located rows: each total row is the last row carrying its label,
   * and the occupancy rows are assigned exactly when the sheet has three
   * "Πληρότητα" rows, then the first three of them, top to bottom.
   */
  lemma {:induction false} Located(g: Grid, year: int)
    ensures var ts := Locate(g, year);
      forall k :: 0 <= k < 3 ==> ts[k].total == LastOf(g, LabelRow(CategoryNames(year)[k]), g.rows)
    ensures var ts := Locate(g, year);
      (ts[0].occupancy.Some? <==> |AllOf(g, LabelRow(Occupancy), g.rows)| >= 3)
      && ts[0].occupancy.Some? == ts[1].occupancy.Some? == ts[2].occupancy.Some?
    ensures var ts := Locate(g, year);
      ts[0].occupancy.Some? ==> OccupancyRowsFirst(g, ts[0].occupancy.value, ts[1].occupancy.value, ts[2].occupancy.value)
  {
    var occ := AllOf(g, LabelRow(Occupancy), g.rows);
    if |occ| >= 3 {
      FirstThree(g, occ);
    }
  }

  /** a < b < c are "Πληρότητα" rows and no other "Πληρότητα" row lies above c. */
  ghost predicate OccupancyRowsFirst(g: Grid, a: Row, b: Row, c: Row)
  {
    && a < b < c && Is(g, a, LabelRow(Occupancy)) && Is(g, b, LabelRow(Occupancy)) && Is(g, c, LabelRow(Occupancy))
    && forall r :: 1 <= r < c && Is(g, r, LabelRow(Occupancy)) ==> r == a || r == b
  }

  lemma FirstThree(g: Grid, occ: seq<Row>)
    requires occ == AllOf(g, LabelRow(Occupancy), g.rows) && |occ| >= 3
    ensures OccupancyRowsFirst(g, occ[0], occ[1], occ[2])
  {
    forall r | 1 <= r < occ[2] && Is(g, r, LabelRow(Occupancy))
      ensures r == occ[0] || r == occ[1]
    {
      assert r <= g.rows;
      var i :| 0 <= i < |occ| && occ[i] == r;
    }
  }

  /** The first pass of locate_target_rows: the last row of each label. */
  method TotalRows(ws: Worksheet, year: int) returns (a: Option<Row>, y: Option<Row>, c: Option<Row>)
    ensures a == LastOf(ws.grid, LabelRow(CategoryNames(year)[0]), ws.grid.rows)
    ensures y == LastOf(ws.grid, LabelRow(CategoryNames(year)[1]), ws.grid.rows)
    ensures c == LastOf(ws.grid, LabelRow(CategoryNames(year)[2]), ws.grid.rows)
  {
    var names := CategoryNames(year);
    a, y, c := None, None, None;
    var r := 1;
    while r <= ws.grid.rows
      invariant 1 <= r <= ws.grid.rows + 1
      invariant a == LastOf(ws.grid, LabelRow(names[0]), r - 1)
      invariant y == LastOf(ws.grid, LabelRow(names[1]), r - 1)
      invariant c == LastOf(ws.grid, LabelRow(names[2]), r - 1)
    {
      if Is(ws.grid, r, LabelRow(names[0])) {
        a := Some(r);
      }
      if Is(ws.grid, r, LabelRow(names[1])) {
        y := Some(r);
      }
      if Is(ws.grid, r, LabelRow(names[2])) {
        c := Some(r);
      }
      r := r + 1;
    }
  }

  /** The second pass of locate_target_rows: every "Πληρότητα" row, in order. */
  method OccupancyRows(ws: Worksheet) returns (rs: seq<Row>)
    ensures rs == AllOf(ws.grid, LabelRow(Occupancy), ws.grid.rows)
  {
    rs := [];
    var r := 1;
    while r <= ws.grid.rows
      invariant 1 <= r <= ws.grid.rows + 1
      invariant rs == AllOf(ws.grid, LabelRow(Occupancy), r - 1)
    {
      if Is(ws.grid, r, LabelRow(Occupancy)) {
        rs := rs + [r as Row];
      }
      r := r + 1;
    }
  }

  /** locate_target_rows */
  method LocateTargetRows(ws: Worksheet, year: int) returns (ts: seq<Target>)
    ensures ts == Locate(ws.grid, year)
  {
    var a, y, c := TotalRows(ws, year);
    var occ := OccupancyRows(ws);
    if |occ| >= 3 {
      ts := [Target(a, Some(occ[0])), Target(y, Some(occ[1])), Target(c, Some(occ[2]))];
    } else {
      ts := [Target(a, None), Target(y, None), Target(c, None)];
    }
  }

  // ---------------------------------------------------------------------
  // determine_stop_row

  /** A "Category" row, or a row whose cells 1 .. width are all None. */
  predicate Stops(g: Grid, r: int, width: int)
  {
    Val(g, r, 1) == Text(Category) || AllNone(g, r, width)
  }

  /**
   * Scanning rows r, r-1, .. 1: one below the first stop row met, or 2 when
   * there is none.
   */
  function StopFrom(g: Grid, r: int): (s: nat)
    ensures 2 <= s <= Max(r + 1, 2)
    ensures forall i :: s <= i <= r ==> !Stops(g, i, g.cols)
    ensures (s <= r + 1 && Stops(g, s - 1, g.cols)) || (s == 2 && forall i :: 1 <= i <= r ==> !Stops(g, i, g.cols))
    decreases r
  {
    if r < 1 then 2 else if Stops(g, r, g.cols) then r + 1 else StopFrom(g, r - 1)
  }

  /** determine_stop_row for a total row: the scan starts just above it. */
  function StopRow(g: Grid, current: Row): nat
  {
    StopFrom(g, current - 1)
  }

  /** determine_stop_row: the upward loop. */
  method DetermineStopRow(ws: Worksheet, current: Row) returns (s: nat)
    ensures s == StopRow(ws.grid, current)
  {
    var r := current - 1;
    while r >= 1
      invariant r <= current - 1
      invariant StopFrom(ws.grid, r) == StopFrom(ws.grid, current - 1)
      decreases r
    {
      if Val(ws.grid, r, 1) == Text(Category) {
        return r + 1;
      }
      if AllNone(ws.grid, r, ws.grid.cols) {
        return r + 1;
      }
      r := r - 1;
    }
    return 2;
  }

  // ---------------------------------------------------------------------
  // process_category

  /** `=SUM({col}{stop}:{col}{sum-1})` */
  function GroupSum(stop: nat, sum: Row, c: nat): Cell
  {
    Fx(SumRange(Ref(stop, c), Ref(sum - 1, c)))
  }

  /**
   * process_category on total row `sum`: column B gets the capacity, the
   * numeric column-B values of rows stop .. sum-1; every column from C to
   * max_column (taken after that write) gets the SUM over the same rows;
   * nothing else is written.
   */
  function CategoryPass(g: Grid, sum: Row): (h: Grid)
    ensures Val(h, sum, 2) == Num(ColSum(g, 2, StopRow(g, sum), sum))
    ensures forall c :: 3 <= c <= Max(g.cols, 2) ==> Val(h, sum, c) == GroupSum(StopRow(g, sum), sum, c)
    ensures forall i, j :: i != sum || j < 2 || j > Max(g.cols, 2) ==> Val(h, i, j) == Val(g, i, j)
  {
    var stop := StopRow(g, sum);
    var hc := SetVal(g, sum, 2, Num(ColSum(g, 2, stop, sum)));
    FillRow(hc, sum, 3, hc.cols + 1, (c: nat) => GroupSum(stop, sum, c))
  }

  /**
   * The rows a total adds up: none of rows stop .. sum-1 is a "Category"
   * row or an empty row, and the row above them is one unless the scan
   * fell through to row 2.
   */
  lemma GroupRows(g: Grid, sum: Row)
    ensures var stop := StopRow(g, sum);
      2 <= stop <= Max(sum, 2)
      && (forall i :: stop <= i < sum ==> !Stops(g, i, g.cols))
      && ((stop <= sum && Stops(g, stop - 1, g.cols)) || (stop == 2 && forall i :: 1 <= i < sum ==> !Stops(g, i, g.cols)))
  {
  }

  /**
   * Excel's value of each SUM that process_category writes is the direct
   * sum of the group's rows in that column, when the group has a row (the
   * row above the total is not itself a stop row).
   */
  lemma {:induction false} GroupSumValue(g: Grid, sum: Row, c: nat)
    requires StopRow(g, sum) < sum && 3 <= c <= Max(g.cols, 2)
    ensures var stop := StopRow(g, sum);
      FormulaValue(CategoryPass(g, sum), GroupSum(stop, sum, c).f) == Some(ColSum(g, c, stop, sum))
  {
    var stop := StopRow(g, sum);
    var h := CategoryPass(g, sum);
    RectSumColumn(h, stop, sum - 1, c);
    ColSumFrame(h, g, c, stop, sum);
  }

  /** process_category; returns the capacity it wrote (`data['capacity_value']`). */
  method ProcessCategory(ws: Worksheet, sum: Row) returns (capacity: real)
    modifies ws
    ensures capacity == ColSum(old(ws.grid), 2, StopRow(old(ws.grid), sum), sum)
    ensures ws.grid == CategoryPass(old(ws.grid), sum)
  {
    var stop := DetermineStopRow(ws, sum);
    capacity := ws.ColumnTotal(2, stop, sum);
    ws.SetCell(sum, 2, Num(capacity));
    ghost var hc := ws.grid;
    var last := ws.grid.cols;
    var col := 3;
    while col <= last
      invariant 3 <= col && (col <= last + 1 || col == 3)
      invariant ws.grid == FillRow(hc, sum, 3, col, (c: nat) => GroupSum(stop, sum, c))
    {
      ws.SetCell(sum, col, GroupSum(stop, sum, col));
      col := col + 1;
    }
  }

  /** The category loop of process_stage7 over the first k targets. */
  function CategoryPasses(g: Grid, ts: seq<Target>, k: nat): (h: Grid)
    requires k <= |ts|
    ensures g.cols <= h.cols
    ensures forall i :: Val(h, i, 1) == Val(g, i, 1)
  {
    if k == 0 then g
    else
      var p := CategoryPasses(g, ts, k - 1);
      if ts[k - 1].total.Some? then CategoryPass(p, ts[k - 1].total.value) else p
  }

  // ---------------------------------------------------------------------
  // calculate_occupancy_rates

  /** `={col}{sum_row}/B{capacity_row}`, both rows being the total row. */
  function OccupancyCell(total: Row, c: nat): Cell
  {
    Fx(Quotient(Ref(total, c), Ref(total, 2)))
  }

  /**
   * One category of calculate_occupancy_rates: nothing without an
   * occupancy row or a total row; otherwise columns C .. max_column-1 of
   * the occupancy row get the quotient, and the last column and every
   * other cell are kept.
   */
  function OccupancyPass(g: Grid, t: Target): (h: Grid)
    ensures t.occupancy.None? || t.total.None? ==> h == g
    ensures t.occupancy.Some? && t.total.Some? ==>
      forall c :: 3 <= c < g.cols ==> Val(h, t.occupancy.value, c) == OccupancyCell(t.total.value, c)
    ensures forall i, j :: t.occupancy.None? || i != t.occupancy.value || j < 3 || j >= g.cols ==> Val(h, i, j) == Val(g, i, j)
  {
    if t.occupancy.None? || t.total.None? then g
    else FillRow(g, t.occupancy.value, 3, g.cols, (c: nat) => OccupancyCell(t.total.value, c))
  }

  /** With a capacity of 0 the occupancy formula evaluates to #DIV/0!. */
  lemma OccupancyUnguarded(g: Grid, total: Row, c: nat)
    requires Val(g, total, 2) == Num(0.0)
    ensures FormulaValue(g, OccupancyCell(total, c).f).None?
  {
  }

  function OccupancyPasses(g: Grid, ts: seq<Target>, k: nat): (h: Grid)
    requires k <= |ts|
    ensures g.cols <= h.cols
    ensures forall i :: Val(h, i, 1) == Val(g, i, 1)
  {
    if k == 0 then g else OccupancyPass(OccupancyPasses(g, ts, k - 1), ts[k - 1])
  }

  /** The column loop of calculate_occupancy_rates for one category. */
  method WriteOccupancy(ws: Worksheet, t: Target)
    modifies ws
    ensures ws.grid == OccupancyPass(old(ws.grid), t)
  {
    if t.occupancy.None? || t.total.None? {
      return;
    }
    ghost var g := ws.grid;
    var occ, total := t.occupancy.value, t.total.value;
    var last := ws.grid.cols;
    var col := 3;
    while col < last
      invariant 3 <= col && (col <= last || col == 3)
      invariant ws.grid == FillRow(g, occ, 3, col, (c: nat) => OccupancyCell(total, c))
    {
      ws.SetCell(occ, col, OccupancyCell(total, col));
      col := col + 1;
    }
  }

  /** calculate_occupancy_rates: the categories in order. */
  method OccupancyRates(ws: Worksheet, ts: seq<Target>)
    modifies ws
    ensures ws.grid == OccupancyPasses(old(ws.grid), ts, |ts|)
  {
    ghost var g := ws.grid;
    var k := 0;
    while k < |ts|
      invariant k <= |ts|
      invariant ws.grid == OccupancyPasses(g, ts, k)
    {
      WriteOccupancy(ws, ts[k]);
      k := k + 1;
    }
  }

  // ---------------------------------------------------------------------
  // calculate_total_column

  /** Rows calculate_total_column leaves alone, `last` being the last column. */
  predicate Skipped(g: Grid, r: int, last: nat)
  {
    || Val(g, r, 1) == Text(Category) || Val(g, r, 1) == Text(Capacity)
    || AllNone(g, r, last)
    || Val(g, r, 1) == Text(Occupancy)
    || Val(g, r, last) != Empty
  }

  /** `=SUM(C{r}:{second-to-last column}{r})` */
  function TotalCell(r: nat, last: nat): Cell
    requires last >= 1
  {
    Fx(SumRange(Ref(r, 3), Ref(r, last - 1)))
  }

  /** What row r of the last column receives. */
  function TotalEntry(g: Grid, last: nat, r: nat): Option<Cell>
    requires last >= 1
  {
    if Skipped(g, r, last) then None else Some(TotalCell(r, last))
  }

  /**
   * calculate_total_column.  openpyxl reports at least one column, which
   * the last-column reads rely on.  Exactly the rows that are not skipped
   * get the total formula in the last column; every other cell keeps its
   * value.
   */
  function TotalColumnPass(g: Grid): (h: Grid)
    requires g.cols >= 1
    ensures forall r :: 1 <= r <= g.rows && !Skipped(g, r, g.cols) ==> Val(h, r, g.cols) == TotalCell(r, g.cols)
    ensures forall i, j :: j != g.cols || i < 1 || i > g.rows || Skipped(g, i, g.cols) ==> Val(h, i, j) == Val(g, i, j)
  {
    FillCol(g, g.cols, 1, g.rows + 1, (r: nat) => TotalEntry(g, g.cols, r))
  }

  /** Running calculate_total_column a second time changes nothing. */
  lemma TotalColumnIdempotent(g: Grid)
    requires g.cols >= 1
    ensures TotalColumnPass(TotalColumnPass(g)) == TotalColumnPass(g)
  {
    var h := TotalColumnPass(g);
    FillColSize(g, g.cols, 1, g.rows + 1, (r: nat) => TotalEntry(g, g.cols, r));
    forall i: nat | 1 <= i < h.rows + 1
      ensures TotalEntry(h, h.cols, i).None?
    {
      if !Skipped(g, i, g.cols) {
        assert Val(h, i, g.cols) == TotalCell(i, g.cols);
      } else {
        assert forall j :: Val(h, i, j) == Val(g, i, j);
      }
    }
    FillColNone(h, h.cols, 1, h.rows + 1, (r: nat) => TotalEntry(h, h.cols, r));
  }

  /** calculate_total_column: the loop over the rows. */
  method CalculateTotalColumn(ws: Worksheet)
    requires ws.grid.cols >= 1
    modifies ws
    ensures ws.grid == TotalColumnPass(old(ws.grid))
  {
    ghost var g := ws.grid;
    var last := ws.grid.cols;
    var rows := ws.grid.rows;
    var r := 1;
    while r <= rows
      invariant 1 <= r <= rows + 1
      invariant ws.grid == FillCol(g, last, 1, r, (i: nat) => TotalEntry(g, last, i))
    {
      assert forall j :: Val(ws.grid, r, j) == Val(g, r, j);
      if !Skipped(ws.grid, r, last) {
        ws.SetCell(r, last, TotalCell(r, last));
      }
      r := r + 1;
    }
  }

  // ---------------------------------------------------------------------
  // process_stage7

  /**
   * The stage on the loaded sheet: breakpoints (which nothing reads),
   * the targets, each category's sums and capacity, the occupancy rates,
   * then the total column.  No label in column A changes, and the result
   * has no row left that the total column would still fill.
   */
  function Stage7(g: Grid, year: int): (r: Grid)
    requires g.cols >= 1
    ensures forall i :: Val(r, i, 1) == Val(g, i, 1)
    ensures r.cols >= 1 && TotalColumnPass(r) == r
  {
    var ts := Locate(g, year);
    var p := OccupancyPasses(CategoryPasses(g, ts, 3), ts, 3);
    TotalColumnIdempotent(p);
    assert forall i :: Val(TotalColumnPass(p), i, 1) == Val(p, i, 1) by {
      forall i ensures Val(TotalColumnPass(p), i, 1) == Val(p, i, 1) {
        if p.cols == 1 && 1 <= i <= p.rows && Val(p, i, 1) == Empty {
          assert AllNone(p, i, 1);
        }
      }
    }
    TotalColumnPass(p)
  }

  /** process_stage7 between loading and saving, styling left out. */
  method ProcessStage7(ws: Worksheet, year: int)
    requires ws.grid.cols >= 1
    modifies ws
    ensures ws.grid == Stage7(old(ws.grid), year)
  {
    ghost var g := ws.grid;
    var breakpoints := DetectBreakpoints(ws);
    var ts := LocateTargetRows(ws, year);
    var k := 0;
    while k < 3
      invariant k <= 3
      invariant ws.grid == CategoryPasses(g, ts, k)
    {
      if ts[k].total.Some? {
        var capacity := ProcessCategory(ws, ts[k].total.value);
      }
      k := k + 1;
    }
    OccupancyRates(ws, ts);
    CalculateTotalColumn(ws);
  }
}
