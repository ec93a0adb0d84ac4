/**
 * Second nationality stage.  Two programs share this model:
 *   - per_nationality_stage2_previous_years.py, whose every function catches
 *     its own errors and carries on (`guarded`);
 *   - per_nat_stage2.py, with no error handling at all.
 * Both splice the total rows in as the first stage does, then give the
 * worksheet group column sums (switched off by `DO_CALCULATIONS = False`),
 * a row-total column, six monthly columns after an empty percent column,
 * and finally delete every day column headed like "Fri 02/05".
 */
module NatStage2 {
  import opened Cells
  import opened Sheets
  import opened MonthColumns
  import opened NatStage1

  // ---------------------------------------------------------------------
  // Group column sums: apply_column_sum_formulas

  /**
   * apply_column_sum_formulas of this stage.  With calculations on it has no
   * guard: `range(2, None)` raises at the first column when there is no
   * Total Rooms row, and `range(tr + 2, None)` raises once column B's Total
   * Rooms cell is written when there is no Total Camping row.
   */
  function GroupSums(g: Grid, tr: Option<nat>, tc: Option<nat>, maxCol: nat, doCalc: bool): (p: Pass)
    requires RowNo(tr) && RowNo(tc) && Apart(tr, tc)
    ensures p.ok <==> !doCalc || maxCol == 0 || (tr.Some? && tc.Some?)
    ensures !doCalc || maxCol == 0 || tr.None? ==> p.grid == g
    ensures doCalc && maxCol >= 1 && tr.Some? && tc.None? ==>
      && Val(p.grid, tr.value, 2) == Num(ColSum(g, 2, 2, tr.value))
      && (forall i, j :: (i, j) != (tr.value, 2) ==> Val(p.grid, i, j) == Val(g, i, j))
    ensures doCalc && tr.Some? && tc.Some? ==> forall c :: 2 <= c <= maxCol + 1 ==>
      && Val(p.grid, tr.value, c) == Num(ColSum(g, c, 2, tr.value))
      && Val(p.grid, tc.value, c) == Num(ColSum(g, c, tr.value + 2, tc.value))
    ensures forall i, j :: !(2 <= j <= maxCol + 1 && IsTotalRow(i, tr, tc)) ==> Val(p.grid, i, j) == Val(g, i, j)
    ensures forall i, j :: FillOf(p.grid, i, j) == FillOf(g, i, j)
  {
    if !doCalc || maxCol == 0 then Pass(g, true)
    else if tr.None? then Pass(g, false)
    else if tc.None? then Pass(SetVal(g, tr.value, 2, Num(ColSum(g, 2, 2, tr.value))), false)
    else Pass(ColumnSumsUpTo(g, tr, tc, maxCol, false), true)
  }

  /** The column-sum pass as the loop over the columns. */
  method ApplyGroupSums(ws: Worksheet, tr: Option<nat>, tc: Option<nat>, maxCol: nat, doCalc: bool) returns (ok: bool)
    requires RowNo(tr) && RowNo(tc) && Apart(tr, tc)
    modifies ws
    ensures ok == GroupSums(old(ws.grid), tr, tc, maxCol, doCalc).ok
    ensures ws.grid == GroupSums(old(ws.grid), tr, tc, maxCol, doCalc).grid
  {
    if !doCalc || maxCol == 0 {
      return true;
    }
    if tr.None? {
      return false;
    }
    if tc.None? {
      var sum := ws.ColumnTotal(2, 2, tr.value);
      ws.SetCell(tr.value, 2, Num(sum));
      return false;
    }
    SumColumns(ws, tr, tc, maxCol, false);
    ok := true;
  }

  // ---------------------------------------------------------------------
  // The row-total column: add_total_column

  /**
   * add_total_column of this stage: the header "Total {year}" and, whatever
   * DO_CALCULATIONS says, every row 2 .. max_row, the total rows and the
   * spacer included, holding the numeric sum of its columns 2 .. max_col.
   */
  function EveryRowTotal(g: Grid, maxRow: nat, maxCol: nat, year: int): (h: Grid)
    ensures Val(h, 1, maxCol + 1) == Text(TotalHeader(year))
    ensures var tcol := maxCol + 1; forall i :: 2 <= i <= maxRow ==> Val(h, i, tcol) == Num(RowSum(g, i, 2, tcol))
    ensures forall i, j :: j != maxCol + 1 || (i != 1 && (i < 2 || i > maxRow)) ==> Val(h, i, j) == Val(g, i, j)
    ensures forall i, j :: FillOf(h, i, j) == FillOf(g, i, j)
  {
    TotalColumn(g, maxRow, maxCol, None, None, Flags(false, true), year)
  }

  /** add_total_column: the loop over the rows, skipping none. */
  method AddEveryRowTotal(ws: Worksheet, maxRow: nat, maxCol: nat, year: int)
    modifies ws
    ensures ws.grid == EveryRowTotal(old(ws.grid), maxRow, maxCol, year)
  {
    AddTotalColumn(ws, maxRow, maxCol, None, None, Flags(false, true), year);
  }

  // ---------------------------------------------------------------------
  // Monthly sums: add_monthly_sums

  /** add_monthly_sums always computes, and never writes formulas. */
  const MONTH_SUM_FLAGS := Flags(false, true)

  /**
   * The month ranges this stage works with: the header scan over columns
   * 2 .. max_col, or none at all when a truthy header that is not a string
   * makes the scan raise (the previous-years program then returns `{}`).
   */
  function FoundRanges(g: Grid, maxCol: nat): (r: Ranges)
    ensures |r| == 6
    ensures NonTextStop(g, 2, maxCol + 1).Some? ==> forall m :: 0 <= m < 6 ==> r[m].None?
    ensures forall m :: 0 <= m < 6 ==> Within(r[m], 2, maxCol + 1)
  {
    if NonTextStop(g, 2, maxCol + 1).Some? then NoRanges(6)
    else
      RangesWithin(6, g, 2, maxCol + 1, HeaderInMonth);
      RangesUpTo(6, g, 2, maxCol + 1, HeaderInMonth)
  }

  /**
   * The monthly pass: month m is headed "{Mon} {year}" in column
   * max_col+3+m, one column after the percent column, which stays empty;
   * every row 2 .. max_row other than the two total rows gets the numeric
   * sum of its day columns in that month.  Without the guard a non-string
   * header makes the whole pass raise (`None`).
   */
  function MonthlySums2(g: Grid, maxRow: nat, maxCol: nat, tr: Option<nat>, tc: Option<nat>, guarded: bool, year: int): (h: Option<Grid>)
    ensures h.None? <==> !guarded && NonTextStop(g, 2, maxCol + 1).Some?
    ensures h.Some? ==> forall m :: 0 <= m < 6 ==>
      Val(h.value, 1, maxCol + 3 + m) == Text(SPRING_TO_AUTUMN[m] + " " + IntText(year))
    ensures h.Some? ==> forall i, j :: j <= maxCol + 2 || j > maxCol + 8 ==> Val(h.value, i, j) == Val(g, i, j)
    ensures h.Some? ==> forall i, j :: maxCol + 3 <= j <= maxCol + 8 && i != 1 ==>
      Val(h.value, i, j) ==
        var sp := FoundRanges(g, maxCol)[j - maxCol - 3];
        if sp.Some? && 2 <= i <= maxRow && !IsTotalRow(i, tr, tc) then Num(RowSum(g, i, sp.value.first, sp.value.last + 1))
        else Val(g, i, j)
    ensures h.Some? ==> forall i, j :: FillOf(h.value, i, j) == FillOf(g, i, j)
  {
    if !guarded && NonTextStop(g, 2, maxCol + 1).Some? then None
    else
      var ranges := FoundRanges(g, maxCol);
      var headers := MonthHeaders(Finalizer, year);
      MonthsUpToCells(g, ranges, headers, 6, maxCol + 2, maxRow, tr, tc, MONTH_SUM_FLAGS);
      Some(MonthsUpTo(g, ranges, headers, 6, maxCol + 2, maxRow, tr, tc, MONTH_SUM_FLAGS))
  }

  /** add_monthly_sums: the scan, then one column per month. */
  method AddMonthlySums2(ws: Worksheet, maxRow: nat, maxCol: nat, tr: Option<nat>, tc: Option<nat>, guarded: bool, year: int)
    returns (ok: bool)
    modifies ws
    ensures ok <==> MonthlySums2(old(ws.grid), maxRow, maxCol, tr, tc, guarded, year).Some?
    ensures ok ==> ws.grid == MonthlySums2(old(ws.grid), maxRow, maxCol, tr, tc, guarded, year).value
  {
    ghost var g := ws.grid;
    var tcol := maxCol + 1;
    var ranges, failed := ScanMonthRanges(ws, 6, 2, tcol, false);
    if failed {
      if !guarded {
        return false;
      }
      ranges := NoRanges(6);
    }
    assert ranges == FoundRanges(g, maxCol);
    AddMonthColumns(ws, ranges, MonthHeaders(Finalizer, year), tcol, maxRow, tr, tc, MONTH_SUM_FLAGS);
    ok := true;
  }

  // ---------------------------------------------------------------------
  // Deleting the day columns

  /** The day abbreviations the pattern accepts, Greek and English. */
  const DAY_NAMES: seq<string> :=
    ["Δευ", "Τρι", "Τετ", "Πεμ", "Παρ", "Σαβ", "Κυρ", "Mon", "Tue", "Wed", "Thu", "Fri", "Sat", "Sun"]

  /**
   * `re.match(r"^(Δευ|…|Sun) \d{2}/\d{2}$", s)`: a day name, a space, two
   * digits, a slash and two digits.  Python's `$` also matches just before a
   * final newline, so one trailing "\n" is allowed.
   */
  predicate DayHeader(s: string)
  {
    && (|s| == 9 || (|s| == 10 && s[9] == '\n'))
    && s[..3] in DAY_NAMES
    && s[3] == ' ' && IsDigit(s[4]) && IsDigit(s[5]) && s[6] == '/' && IsDigit(s[7]) && IsDigit(s[8])
  }

  /** Column c is headed by a string that matches the day pattern. */
  predicate IsDayColumn(g: Grid, c: int)
  {
    Val(g, 1, c).Text? && DayHeader(Val(g, 1, c).s)
  }

  /** "Fri 02/05" and "Παρ 02/05" match, "Apr 2024" does not. */
  lemma DayHeaderExamples()
    ensures DayHeader("Fri 02/05") && DayHeader("Παρ 02/05") && DayHeader("Κυρ 31/12\n")
    ensures !DayHeader("Apr 2024") && !DayHeader("Fri 2/5")
  {
    assert "Fri 02/05"[..3] == "Fri";
    assert "Παρ 02/05"[..3] == "Παρ";
    assert "Κυρ 31/12\n"[..3] == "Κυρ";
  }

  /**
   * None of the headers this stage writes is a day header, so the deletion
   * never removes the total or the month columns.
   */
  lemma WrittenHeadersAreNotDays(year: int, m: nat)
    requires m < 6
    ensures !DayHeader(TotalHeader(year))
    ensures !DayHeader(SPRING_TO_AUTUMN[m] + " " + IntText(year))
  {
    var t := TotalHeader(year);
    Spelling("Total ", IntText(year), |IntText(year)|);
    if |t| >= 3 {
      assert t[..3] == "Tot";
    }
    var s := SPRING_TO_AUTUMN[m] + " " + IntText(year);
    assert s[..3] == SPRING_TO_AUTUMN[m];
  }

  /** Strictly increasing column numbers. */
  predicate Increasing(cols: seq<int>)
  {
    forall a, b :: 0 <= a < b < |cols| ==> cols[a] < cols[b]
  }

  /** `date_cols`: the day columns among lo .. hi-1, left to right. */
  function DayColumns(g: Grid, lo: int, hi: int): (cols: seq<int>)
    ensures Increasing(cols)
    ensures forall k :: 0 <= k < |cols| ==> lo <= cols[k] < hi && IsDayColumn(g, cols[k])
    ensures forall c :: lo <= c < hi && IsDayColumn(g, c) ==> c in cols
    decreases hi - lo
  {
    if hi <= lo then []
    else DayColumns(g, lo, hi - 1) + (if IsDayColumn(g, hi - 1) then [hi - 1] else [])
  }

  /** The scan for `date_cols` over columns 2 .. max_column. */
  method FindDayColumns(ws: Worksheet) returns (cols: seq<int>)
    ensures cols == DayColumns(ws.grid, 2, MaxCol(ws.grid) + 1)
  {
    cols := [];
    var col := 2;
    while col <= MaxCol(ws.grid)
      invariant 2 <= col <= MaxCol(ws.grid) + 1 || (col == 2 && MaxCol(ws.grid) < 2)
      invariant cols == DayColumns(ws.grid, 2, col)
    {
      var h := Val(ws.grid, 1, col);
      if h.Text? && DayHeader(h.s) {
        cols := cols + [col];
      }
      col := col + 1;
    }
  }

  /** Every listed column is a real column number. */
  predicate Columns(cols: seq<int>)
  {
    forall t :: 0 <= t < |cols| ==> cols[t] >= 1
  }

  /** The sheet once cols[k..] are deleted one by one, right to left. */
  function DeleteFrom(g: Grid, cols: seq<int>, k: nat): Grid
    requires k <= |cols| && Columns(cols)
    decreases |cols| - k
  {
    if k == |cols| then g else DeleteCols(DeleteFrom(g, cols, k + 1), cols[k], 1)
  }

  /**
   * The column of the original sheet that ends up in column j once
   * cols[k..] are deleted: each deletion at c moves the columns right of c
   * one place left.
   */
  function Src(cols: seq<int>, k: nat, j: int): int
    requires k <= |cols|
    decreases |cols| - k
  {
    if k == |cols| then j else Src(cols, k + 1, if j < cols[k] then j else j + 1)
  }

  /** Column j of h holds, cell by cell, column Src(cols, k, j) of g. */
  ghost predicate ColumnsFrom(h: Grid, g: Grid, cols: seq<int>, k: nat)
    requires k <= |cols|
  {
    forall i, j {:trigger At(h, i, j)} :: At(h, i, j) == At(g, i, Src(cols, k, j))
  }

  /** Cell by cell, the deletions leave in column j what stood in column Src(j). */
  lemma {:induction false} DeleteFromCells(g: Grid, cols: seq<int>, k: nat)
    requires k <= |cols| && Columns(cols)
    ensures ColumnsFrom(DeleteFrom(g, cols, k), g, cols, k)
    decreases |cols| - k
  {
    if k < |cols| {
      DeleteFromCells(g, cols, k + 1);
      DeleteOneMore(DeleteFrom(g, cols, k + 1), g, cols, k);
    }
  }

  /** One more deletion, at cols[k], on top of those of cols[k+1..]. */
  lemma DeleteOneMore(p: Grid, g: Grid, cols: seq<int>, k: nat)
    requires k < |cols| && cols[k] >= 1 && ColumnsFrom(p, g, cols, k + 1)
    ensures ColumnsFrom(DeleteCols(p, cols[k], 1), g, cols, k)
  {
    var h := DeleteCols(p, cols[k], 1);
    forall i, j
      ensures At(h, i, j) == At(g, i, Src(cols, k, j))
    {
      var j' := if j < cols[k] then j else j + 1;
      assert At(h, i, j) == At(p, i, j');
    }
  }

  /** A column only ever moves left: it comes from at or right of where it ends. */
  lemma {:induction false} SrcAtLeast(cols: seq<int>, k: nat, j: int)
    requires k <= |cols|
    ensures Src(cols, k, j) >= j
    decreases |cols| - k
  {
    if k < |cols| {
      SrcAtLeast(cols, k + 1, if j < cols[k] then j else j + 1);
    }
  }

  /** Columns left of the first deleted one stay where they are. */
  lemma {:induction false} SrcBelowFirst(cols: seq<int>, k: nat, j: int)
    requires k < |cols| && Increasing(cols) && j < cols[k]
    ensures Src(cols, k, j) == j
    decreases |cols| - k
  {
    if k + 1 < |cols| {
      SrcBelowFirst(cols, k + 1, j);
    }
  }

  /** The deletions keep the remaining columns in their order. */
  lemma {:induction false} SrcMonotone(cols: seq<int>, k: nat, j1: int, j2: int)
    requires k <= |cols| && j1 < j2
    ensures Src(cols, k, j1) < Src(cols, k, j2)
    decreases |cols| - k
  {
    if k < |cols| {
      SrcMonotone(cols, k + 1, if j1 < cols[k] then j1 else j1 + 1, if j2 < cols[k] then j2 else j2 + 1);
    }
  }

  /** No deleted column survives. */
  lemma {:induction false} SrcSkipsDeleted(cols: seq<int>, k: nat, j: int, t: nat)
    requires k <= t < |cols| && Increasing(cols)
    ensures Src(cols, k, j) != cols[t]
    decreases |cols| - k
  {
    var j' := if j < cols[k] then j else j + 1;
    if t > k {
      SrcSkipsDeleted(cols, k + 1, j', t);
    } else if k + 1 < |cols| {
      if j' < cols[k + 1] {
        SrcBelowFirst(cols, k + 1, j');
      } else {
        SrcAtLeast(cols, k + 1, j');
      }
    }
  }

  /** Every column that is not deleted survives somewhere. */
  lemma {:induction false} SrcReachesKept(cols: seq<int>, k: nat, c: int)
    requires k <= |cols| && Increasing(cols)
    requires forall t :: k <= t < |cols| ==> cols[t] != c
    ensures exists j :: Src(cols, k, j) == c
    decreases |cols| - k
  {
    if k == |cols| {
      assert Src(cols, k, c) == c;
    } else {
      SrcReachesKept(cols, k + 1, c);
      var j1 :| Src(cols, k + 1, j1) == c;
      if j1 < cols[k] {
        assert Src(cols, k, j1) == c;
      } else if j1 > cols[k] {
        assert Src(cols, k, j1 - 1) == c;
      } else if k + 1 < |cols| {
        SrcBelowFirst(cols, k + 1, j1);
      }
    }
  }

  /** The deletion loop: `for col in reversed(date_cols): ws.delete_cols(col)`. */
  method DeleteDayColumns(ws: Worksheet)
    modifies ws
    ensures ws.grid == DeleteFrom(old(ws.grid), DayColumns(old(ws.grid), 2, MaxCol(old(ws.grid)) + 1), 0)
  {
    ghost var g := ws.grid;
    var cols := FindDayColumns(ws);
    var k := |cols|;
    while k > 0
      invariant 0 <= k <= |cols|
      invariant ws.grid == DeleteFrom(g, cols, k)
    {
      k := k - 1;
      ws.DeleteColsAt(cols[k], 1);
    }
  }

  /** The order facts about Src for strictly increasing columns from 2 on. */
  lemma SrcOrder(cols: seq<int>)
    requires Increasing(cols) && forall t :: 0 <= t < |cols| ==> cols[t] >= 2
    ensures forall j :: j < 2 ==> Src(cols, 0, j) == j
    ensures forall j1, j2 :: j1 < j2 ==> Src(cols, 0, j1) < Src(cols, 0, j2)
  {
    forall j | j < 2
      ensures Src(cols, 0, j) == j
    {
      if |cols| > 0 {
        SrcBelowFirst(cols, 0, j);
      }
    }
    forall j1, j2 | j1 < j2
      ensures Src(cols, 0, j1) < Src(cols, 0, j2)
    {
      SrcMonotone(cols, 0, j1, j2);
    }
  }

  /** Column c of the sheet before ends up in some column after the deletions. */
  ghost predicate Survives(cols: seq<int>, c: int)
  {
    exists j :: Src(cols, 0, j) == c
  }

  /** Every column that is not listed survives the deletions. */
  lemma SrcOnto(cols: seq<int>)
    requires Increasing(cols)
    ensures forall c :: c !in cols ==> Survives(cols, c)
  {
    forall c | c !in cols
      ensures Survives(cols, c)
    {
      SrcReachesKept(cols, 0, c);
    }
  }

  /** After the deletions, column j >= 2 is not headed like a day. */
  lemma NoDayLeft(g: Grid, h: Grid, cols: seq<int>, j: int)
    requires Bounded(g) && cols == DayColumns(g, 2, MaxCol(g) + 1)
    requires ColumnsFrom(h, g, cols, 0) && j >= 2
    ensures !IsDayColumn(h, j)
  {
    var s := Src(cols, 0, j);
    SrcAtLeast(cols, 0, j);
    assert Val(h, 1, j) == Val(g, 1, s);
    forall t | 0 <= t < |cols|
      ensures s != cols[t]
    {
      SrcSkipsDeleted(cols, 0, j, t);
    }
    assert s !in cols;
    if s > MaxCol(g) {
      OutsideIsBlank(g, 1, s);
    } else {
      assert !IsDayColumn(g, s);
    }
  }

  /**
   * What the deletion achieves on a sheet that keeps its cells within
   * max_row x max_column: column j afterwards is column Src(j) before;
   * column A stays put; the surviving columns keep their order; every
   * column that is not a day column survives; and no column from B on is
   * headed like a day any more.
   */
  lemma DayColumnsGone(g: Grid)
    requires Bounded(g)
    ensures var cols := DayColumns(g, 2, MaxCol(g) + 1);
      var h := DeleteFrom(g, cols, 0);
      && ColumnsFrom(h, g, cols, 0)
      && (forall j :: j < 2 ==> Src(cols, 0, j) == j)
      && (forall j1, j2 :: j1 < j2 ==> Src(cols, 0, j1) < Src(cols, 0, j2))
      && (forall c :: c !in cols ==> Survives(cols, c))
      && (forall j :: j >= 2 ==> !IsDayColumn(h, j))
  {
    var cols := DayColumns(g, 2, MaxCol(g) + 1);
    var h := DeleteFrom(g, cols, 0);
    DeleteFromCells(g, cols, 0);
    SrcOrder(cols);
    SrcOnto(cols);
    forall j | j >= 2
      ensures !IsDayColumn(h, j)
    {
      NoDayLeft(g, h, cols, j);
    }
  }

  // ---------------------------------------------------------------------
  // The uncalled add_percentage_column of per_nat_stage2.py

  /**
   * Python's `round(p, 2)` on the exact value: the nearest hundredth, a tie
   * going to the even one.
   */
  function Round2(p: real): (q: real)
    ensures (q * 100.0).Floor as real == q * 100.0
    ensures -0.005 <= q - p <= 0.005
  {
    var x := p * 100.0;
    var n := x.Floor;
    var f := x - n as real;
    var m := if f < 0.5 then n else if f > 0.5 then n + 1 else if n % 2 == 0 then n else n + 1;
    m as real / 100.0
  }

  /** `x / d * 100` for a truthy divisor; a string in the division raises (`None`). */
  function Percentage(x: Cell, d: Cell): Option<real>
    requires Truthy(d)
  {
    if x.Num? && d.Num? then Some(x.r / d.r * 100.0) else None
  }

  /**
   * The percentage of row r before rounding: a share of the Total Rooms
   * value above Total Rooms, of the Total Camping value below the spacer,
   * and 0 whenever the row's total or its divisor is falsy.
   */
  function RowPercent(cur: Cell, rooms: Cell, camping: Cell, r: int, tr: nat): Option<real>
  {
    if r < tr && Truthy(rooms) && Truthy(cur) then Percentage(cur, rooms)
    else if r > tr + 1 && Truthy(camping) && Truthy(cur) then Percentage(cur, camping)
    else Some(0.0)
  }

  /** What row r of the percent column receives: `round(percentage, 2) / 100`. */
  function RoundedEntry(g: Grid, tcol: nat, tr: nat, tc: nat, rooms: Cell, camping: Cell, r: nat): Option<Cell>
  {
    if IsTotalRow(r, Some(tr), Some(tc)) then None
    else
      var p := RowPercent(Val(g, r, tcol), rooms, camping, r, tr);
      if p.None? then None else Some(Num(Round2(p.value) / 100.0))
  }

  /** No ordinary row of 2 .. hi-1 makes the division raise. */
  predicate AllRowsDivide(g: Grid, hi: nat, tcol: nat, tr: nat, tc: nat, rooms: Cell, camping: Cell)
  {
    forall r :: 2 <= r < hi && !IsTotalRow(r, Some(tr), Some(tc)) ==> RowPercent(Val(g, r, tcol), rooms, camping, r, tr).Some?
  }

  /**
   * add_percentage_column as per_nat_stage2.py defines it (apply_row_sum_formulas
   * never calls it).  With calculations on, reading a total row that is
   * missing raises, and so does a row whose division meets a string.
   */
  function RoundedPercent(g: Grid, maxRow: nat, maxCol: nat, tr: Option<nat>, tc: Option<nat>, doCalc: bool, year: int): (h: Option<Grid>)
    ensures h.None? ==> doCalc
    ensures doCalc && (tr.None? || tc.None?) ==> h.None?
    ensures h.Some? ==> Val(h.value, 1, maxCol + 2) == Text(PercentHeader(year))
    ensures h.Some? ==> forall i, j :: j != maxCol + 2 ==> Val(h.value, i, j) == Val(g, i, j)
    ensures h.Some? && doCalc ==> forall i :: 2 <= i <= maxRow && !IsTotalRow(i, tr, tc) ==>
      var p := RowPercent(Val(g, i, maxCol + 1), Val(g, tr.value, maxCol + 1), Val(g, tc.value, maxCol + 1), i, tr.value);
      p.Some? && Val(h.value, i, maxCol + 2) == Num(Round2(p.value) / 100.0)
  {
    var tcol, pc := maxCol + 1, maxCol + 2;
    var hd := SetVal(g, 1, pc, Text(PercentHeader(year)));
    if !doCalc then Some(hd)
    else if tr.None? || tc.None? then None
    else
      var rooms, camping := Val(g, tr.value, tcol), Val(g, tc.value, tcol);
      if !AllRowsDivide(g, maxRow + 1, tcol, tr.value, tc.value, rooms, camping) then None
      else Some(FillCol(hd, pc, 2, maxRow + 1, (r: nat) => RoundedEntry(g, tcol, tr.value, tc.value, rooms, camping, r)))
  }

  /**
   * The stored percentage is within half a hundredth of a percent of the
   * exact share, for a rooms row with numeric values.
   */
  lemma RoundedShareIsClose(cur: real, rooms: real, camping: Cell, r: int, tr: nat)
    requires r < tr && cur != 0.0 && rooms != 0.0
    ensures var p := RowPercent(Num(cur), Num(rooms), camping, r, tr);
      p.Some? && -0.00005 <= Round2(p.value) / 100.0 - cur / rooms <= 0.00005
  {
    var p := cur / rooms * 100.0;
    assert p / 100.0 == cur / rooms;
  }

  /** A zero or empty total, or a zero or empty divisor, gives 0. */
  lemma RoundedShareOfNothing(cur: Cell, rooms: Cell, camping: Cell, r: int, tr: nat)
    requires !Truthy(cur) || (r < tr && !Truthy(rooms)) || (tr <= r <= tr + 1) || (r > tr + 1 && !Truthy(camping))
    ensures RowPercent(cur, rooms, camping, r, tr) == Some(0.0) && Round2(0.0) / 100.0 == 0.0
  {
  }

  /** The loop of add_percentage_column. */
  method AddRoundedPercent(ws: Worksheet, maxRow: nat, maxCol: nat, tr: Option<nat>, tc: Option<nat>, doCalc: bool, year: int)
    returns (ok: bool)
    modifies ws
    ensures ok <==> RoundedPercent(old(ws.grid), maxRow, maxCol, tr, tc, doCalc, year).Some?
    ensures ok ==> ws.grid == RoundedPercent(old(ws.grid), maxRow, maxCol, tr, tc, doCalc, year).value
  {
    ghost var g := ws.grid;
    var tcol, pc := maxCol + 1, maxCol + 2;
    ws.SetCell(1, pc, Text(PercentHeader(year)));
    if !doCalc {
      return true;
    }
    if tr.None? || tc.None? {
      return false;
    }
    ghost var hd := ws.grid;
    var rooms, camping := Val(ws.grid, tr.value, tcol), Val(ws.grid, tc.value, tcol);
    assert rooms == Val(g, tr.value, tcol) && camping == Val(g, tc.value, tcol);
    ok := FillRoundedPercent(ws, g, maxRow, tcol, tr.value, tc.value, rooms, camping);
    assert ok ==> ws.grid == FillCol(hd, pc, 2, maxRow + 1, (r: nat) => RoundedEntry(g, tcol, tr.value, tc.value, rooms, camping, r));
  }

  /** The row loop of add_percentage_column; it stops at the first row that raises. */
  method FillRoundedPercent(ws: Worksheet, ghost g: Grid, maxRow: nat, tcol: nat, tr: nat, tc: nat, rooms: Cell, camping: Cell)
    returns (ok: bool)
    requires tcol >= 1
    requires forall i :: Val(ws.grid, i, tcol) == Val(g, i, tcol)
    modifies ws
    ensures ok <==> AllRowsDivide(g, maxRow + 1, tcol, tr, tc, rooms, camping)
    ensures ok ==> ws.grid == FillCol(old(ws.grid), tcol + 1, 2, maxRow + 1, (r: nat) => RoundedEntry(g, tcol, tr, tc, rooms, camping, r))
  {
    ghost var hd := ws.grid;
    var row := 2;
    while row <= maxRow
      invariant 2 <= row <= maxRow + 1 || (row == 2 && maxRow < 2)
      invariant AllRowsDivide(g, row, tcol, tr, tc, rooms, camping)
      invariant ws.grid == FillCol(hd, tcol + 1, 2, row, (r: nat) => RoundedEntry(g, tcol, tr, tc, rooms, camping, r))
    {
      var divides := RoundedPercentRow(ws, g, hd, tcol, tr, tc, rooms, camping, row);
      if !divides {
        return false;
      }
      row := row + 1;
    }
    ok := true;
  }

  /** One turn of the percent loop, for row `row`; false when its division raises. */
  method RoundedPercentRow(ws: Worksheet, ghost g: Grid, ghost hd: Grid, tcol: nat, tr: nat, tc: nat, rooms: Cell, camping: Cell, row: nat)
    returns (ok: bool)
    requires 1 <= tcol && row >= 2
    requires forall i :: Val(hd, i, tcol) == Val(g, i, tcol)
    requires ws.grid == FillCol(hd, tcol + 1, 2, row, (r: nat) => RoundedEntry(g, tcol, tr, tc, rooms, camping, r))
    modifies ws
    ensures ok <==> IsTotalRow(row, Some(tr), Some(tc)) || RowPercent(Val(g, row, tcol), rooms, camping, row, tr).Some?
    ensures ok ==> ws.grid == FillCol(hd, tcol + 1, 2, row + 1, (r: nat) => RoundedEntry(g, tcol, tr, tc, rooms, camping, r))
  {
    if IsTotalRow(row, Some(tr), Some(tc)) {
      return true;
    }
    assert Val(ws.grid, row, tcol) == Val(g, row, tcol);
    var p := RowPercent(Val(ws.grid, row, tcol), rooms, camping, row, tr);
    if p.None? {
      return false;
    }
    ws.SetCell(row, tcol + 1, Num(Round2(p.value) / 100.0));
    ok := true;
  }

  // ---------------------------------------------------------------------
  // The whole pass: apply_excel_formatting_and_formulas

  /**
   * The sheet saved by apply_excel_formatting_and_formulas, or `None` when a
   * pass raises and nothing is saved.  Styling changes no value.
   */
  function Format2(g: Grid, guarded: bool, doCalc: bool, year: int): Option<Grid>
  {
    var maxRow, maxCol := MaxRow(g), MaxCol(g);
    var tr := LastLabelled(g, "Total Rooms", maxRow);
    var tc := LastLabelled(g, "Total Camping", maxRow);
    TotalRowsApart(g, maxRow);
    var p := GroupSums(g, tr, tc, maxCol, doCalc);
    if !p.ok && !guarded then None
    else Finish2(p.grid, maxRow, maxCol, tr, tc, guarded, year)
  }

  /** The passes after the group sums: the Total column, the monthly sums, then the day columns go. */
  function Finish2(g: Grid, maxRow: nat, maxCol: nat, tr: Option<nat>, tc: Option<nat>, guarded: bool, year: int): Option<Grid>
  {
    var g2 := EveryRowTotal(g, maxRow, maxCol, year);
    var g3 := MonthlySums2(g2, maxRow, maxCol, tr, tc, guarded, year);
    if g3.None? then None
    else Some(DeleteFrom(g3.value, DayColumns(g3.value, 2, MaxCol(g3.value) + 1), 0))
  }

  /** The passes only write data rows and columns right of max_col: the header scan sees the same row 1. */
  lemma {:induction false} NonTextStopFrame(a: Grid, b: Grid, lo: nat, hi: nat)
    requires forall c :: lo <= c < hi ==> Val(a, 1, c) == Val(b, 1, c)
    ensures NonTextStop(a, lo, hi) == NonTextStop(b, lo, hi)
    decreases hi - lo
  {
    if lo < hi {
      NonTextStopFrame(a, b, lo + 1, hi);
    }
  }

  /**
   * The previous-years program always saves; the other one, with the
   * shipped DO_CALCULATIONS = False, fails exactly when a truthy header in
   * columns 2 .. max_col is not a string.
   */
  lemma WhenFormatSaves(g: Grid, year: int)
    ensures Format2(g, true, false, year).Some?
    ensures Format2(g, false, false, year).None? <==> NonTextStop(g, 2, MaxCol(g) + 1).Some?
  {
    var maxRow, maxCol := MaxRow(g), MaxCol(g);
    var g2 := EveryRowTotal(g, maxRow, maxCol, year);
    NonTextStopFrame(g2, g, 2, maxCol + 1);
  }

  /** apply_excel_formatting_and_formulas on the file the DataFrame was written to. */
  method ApplyExcelFormatting2(file: Grid, guarded: bool, doCalc: bool, year: int) returns (saved: Option<Grid>)
    ensures saved == Format2(file, guarded, doCalc, year)
  {
    var ws := new Worksheet(file);
    var maxRow, maxCol := MaxRow(ws.grid), MaxCol(ws.grid);
    var tr, tc := FindTotalRows(ws);
    TotalRowsApart(file, maxRow);
    var ok := ApplyGroupSums(ws, tr, tc, maxCol, doCalc);
    if !ok && !guarded {
      return None;
    }
    saved := FinishFormatting2(ws, maxRow, maxCol, tr, tc, guarded, year);
  }

  /** The rest of apply_excel_formatting_and_formulas once the group sums are in. */
  method FinishFormatting2(ws: Worksheet, maxRow: nat, maxCol: nat, tr: Option<nat>, tc: Option<nat>, guarded: bool, year: int)
    returns (saved: Option<Grid>)
    modifies ws
    ensures saved == Finish2(old(ws.grid), maxRow, maxCol, tr, tc, guarded, year)
  {
    AddEveryRowTotal(ws, maxRow, maxCol, year);
    ghost var g3 := MonthlySums2(ws.grid, maxRow, maxCol, tr, tc, guarded, year);
    var ok := AddMonthlySums2(ws, maxRow, maxCol, tr, tc, guarded, year);
    if !ok {
      return None;
    }
    assert ws.grid == g3.value;
    DeleteDayColumns(ws);
    saved := Some(ws.grid);
  }

  /**
   * per_nationality_stage2_previous_years / per_nat_stage2 after loading:
   * splice the total rows, write the sheet, format it.  Without the guard
   * a table with no Camping row raises before anything is written (`None`);
   * when the formatting raises the unformatted sheet stays on disk.
   */
  function Stage2Output(header: seq<Cell>, rows: Table, guarded: bool, doCalc: bool, year: int): (out: Option<Grid>)
    requires |header| >= 1 && Shaped(rows, |header|)
    ensures out.None? <==> !guarded && CampingFirstIndex(rows).None?
  {
    var spliced := SpliceAtCamping(rows, |header|, guarded);
    if spliced.None? then None
    else
      SpliceKeepsShape(rows, CampingFirstIndex(rows), |header|);
      var file := ToSheet(header, spliced.value);
      var saved := Format2(file, guarded, doCalc, year);
      if saved.None? then Some(file) else saved
  }
}
