/**
 * First nationality stage: the per-nationality availability table is split
 * at its first "Camping" row, "Total Rooms" / blank / "Total Camping" rows are
 * spliced in, and the worksheet written from it gets group column sums, a row
 * total column, a percent-to-total column and six monthly columns.
 *
 * Two programs share this model:
 *   - per_nationality_stage1.py  (direct sums, calculations switched off,
 *     month headers "Mon 2025", errors inside the monthly pass swallowed);
 *   - per_nat_stage1_finalizer.py (formulas and calculations switched on,
 *     month headers "Mon {year}", no error handling at all).
 * Where the two files differ the passes take the difference as a parameter.
 */
module NatStage1 {
  import opened Cells
  import opened Sheets
  import opened MonthColumns

  // ---------------------------------------------------------------------
  // The DataFrame part

  /** `str(first cell).startswith("Camping")` */
  predicate IsCampingRow(row: seq<Cell>)
  {
    StartsWith(Render(Label(row)), "Camping")
  }

  /** The first index at or after `from` of a Camping row. */
  function CampingFrom(rows: Table, from: nat): (k: Option<nat>)
    requires from <= |rows|
    ensures k.None? <==> forall i :: from <= i < |rows| ==> !IsCampingRow(rows[i])
    ensures k.Some? ==> from <= k.value < |rows| && IsCampingRow(rows[k.value])
    ensures k.Some? ==> forall i :: from <= i < k.value ==> !IsCampingRow(rows[i])
    decreases |rows| - from
  {
    if from == |rows| then None
    else if IsCampingRow(rows[from]) then Some(from)
    else CampingFrom(rows, from + 1)
  }

  /**
   * find_camping_first_index: the smallest row index whose label starts with
   * "Camping", and None when no row does.
   */
  function CampingFirstIndex(rows: Table): (k: Option<nat>)
    ensures k.None? <==> forall i :: 0 <= i < |rows| ==> !IsCampingRow(rows[i])
    ensures k.Some? ==> k.value < |rows| && IsCampingRow(rows[k.value])
    ensures k.Some? ==> forall i :: 0 <= i < k.value ==> !IsCampingRow(rows[i])
  {
    CampingFrom(rows, 0)
  }

  /** A row holding `name` in its first cell and "" everywhere else. */
  function LabelRow(name: string, width: nat): (r: seq<Cell>)
    requires width >= 1
    ensures |r| == width && r[0] == Text(name)
    ensures forall j :: 1 <= j < width ==> r[j] == Text("")
  {
    [Text(name)] + seq(width - 1, _ => Text(""))
  }

  /** The spacer row: "" in every cell. */
  function SpacerRow(width: nat): (r: seq<Cell>)
    ensures |r| == width && forall j :: 0 <= j < width ==> r[j] == Text("")
  {
    seq(width, _ => Text(""))
  }

  /**
   * insert_totals_and_spacing: with no split index the table is returned as
   * it is; otherwise rows[..k] ++ [Total Rooms, blank] ++ rows[k..] ++
   * [Total Camping], where `iloc` clamps k to the table length.
   */
  function InsertTotalsAndSpacing(rows: Table, split: Option<nat>, width: nat): (r: Table)
    requires width >= 1
    ensures split.None? ==> r == rows
    ensures split.Some? ==> |r| == |rows| + 3
  {
    match split
    case None => rows
    case Some(k) =>
      var k := Min(k, |rows|);
      rows[..k] + [LabelRow("Total Rooms", width), SpacerRow(width)] + rows[k..] + [LabelRow("Total Camping", width)]
  }

  /**
   * The three rows are spliced in around the original rows, which keep
   * their order: deleting the inserted rows gives the input back, and the
   * inserted rows are Total Rooms at the split point, the spacer after it
   * and Total Camping at the very end.
   */
  lemma {:induction false} InsertedRowsAroundOriginal(rows: Table, k: nat, width: nat)
    requires width >= 1
    ensures var r := InsertTotalsAndSpacing(rows, Some(k), width);
      var s := Min(k, |rows|);
      && r[s] == LabelRow("Total Rooms", width)
      && r[s + 1] == SpacerRow(width)
      && r[|rows| + 2] == LabelRow("Total Camping", width)
      && r[..s] + r[s + 2..|rows| + 2] == rows
  {
    var r := InsertTotalsAndSpacing(rows, Some(k), width);
    var s := Min(k, |rows|);
    assert r[..s] == rows[..s];
    assert r[s + 2..|rows| + 2] == rows[s..];
    assert rows[..s] + rows[s..] == rows;
  }

  /**
   * The finalizer's splice has no guard for a table without a Camping row:
   * the split index is then NaN and slicing with it raises, which is the
   * `None` here.  With a Camping row both programs splice identically.
   */
  function SpliceAtCamping(rows: Table, width: nat, guarded: bool): (r: Option<Table>)
    requires width >= 1
    ensures r.None? <==> !guarded && CampingFirstIndex(rows).None?
    ensures r.Some? ==> r.value == InsertTotalsAndSpacing(rows, CampingFirstIndex(rows), width)
  {
    var split := CampingFirstIndex(rows);
    if split.None? && !guarded then None
    else Some(InsertTotalsAndSpacing(rows, split, width))
  }

  /**
   * What a DataFrame entry becomes once written by `to_excel` and read back
   * by `load_workbook`: NaN is written as "" and openpyxl stores an empty
   * string as no value at all, so both come back as None.
   */
  function Stored(c: Cell): (s: Cell)
    ensures s == Empty <==> c == Empty || c == Text("")
    ensures s != Empty ==> s == c
  {
    if c == Text("") then Empty else c
  }

  /**
   * `to_excel(index=False)` followed by `load_workbook`: the header in row 1,
   * the data rows from row 2, every cell stored as `Stored` says.
   */
  function ToSheet(header: seq<Cell>, rows: Table): (g: Grid)
    requires |header| >= 1 && Shaped(rows, |header|)
    ensures MaxRow(g) == |rows| + 1 && MaxCol(g) == |header|
    ensures forall j :: 1 <= j <= |header| ==> Val(g, 1, j) == Stored(header[j - 1])
    ensures forall i, j :: 2 <= i <= |rows| + 1 && 1 <= j <= |header| ==> Val(g, i, j) == Stored(rows[i - 2][j - 1])
    ensures forall i, j :: !(1 <= i <= |rows| + 1 && 1 <= j <= |header|) ==> Val(g, i, j) == Empty
    ensures forall i, j :: FillOf(g, i, j) == NoFill
  {
    var cells := map i, j | 1 <= i <= |rows| + 1 && 1 <= j <= |header| :: (i, j) := SheetSlot(header, rows, i, j);
    var g := Grid(cells, |rows| + 1, |header|);
    forall i, j ensures At(g, i, j) == SheetSlot(header, rows, i, j) {
    }
    forall i, j | 2 <= i <= |rows| + 1 && 1 <= j <= |header| ensures Val(g, i, j) == Stored(rows[i - 2][j - 1]) {
      assert |rows[i - 2]| == |header|;
    }
    g
  }

  /** What `load_workbook` finds at (i, j) of a table written by `to_excel`. */
  function SheetSlot(header: seq<Cell>, rows: Table, i: int, j: int): Slot
  {
    if 1 <= i <= |rows| + 1 && 1 <= j <= |header| && (i == 1 || j <= |rows[i - 2]|)
    then Slot(Stored(if i == 1 then header[j - 1] else rows[i - 2][j - 1]), NoFill)
    else Blank
  }

  // ---------------------------------------------------------------------
  // Finding the total rows on the sheet

  /** The last row in 2 .. n whose column-1 value is exactly `name`. */
  function LastLabelled(g: Grid, name: string, n: int): (r: Option<nat>)
    ensures r.None? <==> forall i :: 2 <= i <= n ==> Val(g, i, 1) != Text(name)
    ensures r.Some? ==> 2 <= r.value <= n && Val(g, r.value, 1) == Text(name)
    ensures r.Some? ==> forall i :: r.value < i <= n ==> Val(g, i, 1) != Text(name)
    decreases n
  {
    if n < 2 then None
    else if Val(g, n, 1) == Text(name) then Some(n)
    else LastLabelled(g, name, n - 1)
  }

  /**
   * The scan over rows 2 .. max_row in apply_excel_formatting_and_formulas:
   * the last "Total Rooms" row and the last "Total Camping" row.
   */
  method FindTotalRows(ws: Worksheet) returns (tr: Option<nat>, tc: Option<nat>)
    ensures tr == LastLabelled(ws.grid, "Total Rooms", MaxRow(ws.grid))
    ensures tc == LastLabelled(ws.grid, "Total Camping", MaxRow(ws.grid))
  {
    tr, tc := None, None;
    var row := 2;
    while row <= MaxRow(ws.grid)
      invariant 2 <= row <= MaxRow(ws.grid) + 1 || (row == 2 && MaxRow(ws.grid) < 2)
      invariant tr == LastLabelled(ws.grid, "Total Rooms", row - 1)
      invariant tc == LastLabelled(ws.grid, "Total Camping", row - 1)
    {
      var v := Val(ws.grid, row, 1);
      if v == Text("Total Rooms") {
        tr := Some(row);
      } else if v == Text("Total Camping") {
        tc := Some(row);
      }
      row := row + 1;
    }
  }

  /**
   * Straight after the splice the two scans find the spliced rows, provided
   * no nationality is itself labelled like a total row: Total Rooms sits
   * two rows below the split point (header row, 1-based rows) and Total
   * Camping on the last row.
   */
  lemma {:induction false} TotalRowsFoundAfterSplice(header: seq<Cell>, rows: Table, k: nat)
    requires |header| >= 1 && Shaped(rows, |header|)
    requires forall i :: 0 <= i < |rows| ==> Label(rows[i]) != Text("Total Rooms") && Label(rows[i]) != Text("Total Camping")
    ensures var r := InsertTotalsAndSpacing(rows, Some(k), |header|);
      Shaped(r, |header|)
      && LastLabelled(ToSheet(header, r), "Total Rooms", |r| + 1) == Some(Min(k, |rows|) + 2)
      && LastLabelled(ToSheet(header, r), "Total Camping", |r| + 1) == Some(|rows| + 4)
  {
    var w := |header|;
    var r := InsertTotalsAndSpacing(rows, Some(k), w);
    var s := Min(k, |rows|);
    SplicedRows(rows, k, w);
    var g := ToSheet(header, r);
    assert Val(g, s + 2, 1) == Text("Total Rooms");
    assert Val(g, |rows| + 4, 1) == Text("Total Camping");
    SplicedLabelsBelowRooms(rows, k, w);
    forall i | s + 2 < i <= |r| + 1
      ensures Val(g, i, 1) != Text("Total Rooms")
    {
      assert Val(g, i, 1) == Stored(Label(r[i - 2]));
    }
    LastIsUnique(g, "Total Rooms", s + 2, |r| + 1);
    LastIsUnique(g, "Total Camping", |rows| + 4, |r| + 1);
  }

  /** Below the spliced Total Rooms row no first-column entry reads "Total Rooms". */
  lemma SplicedLabelsBelowRooms(rows: Table, k: nat, width: nat)
    requires width >= 1 && Shaped(rows, width)
    requires forall i :: 0 <= i < |rows| ==> Label(rows[i]) != Text("Total Rooms")
    ensures var r := InsertTotalsAndSpacing(rows, Some(k), width);
      forall i :: Min(k, |rows|) < i < |r| ==> Label(r[i]) != Text("Total Rooms")
  {
    var r := InsertTotalsAndSpacing(rows, Some(k), width);
    var s := Min(k, |rows|);
    SplicedRows(rows, k, width);
    forall i | s < i < |r|
      ensures Label(r[i]) != Text("Total Rooms")
    {
      if i == s + 1 {
        assert r[i][0] == Text("");
      } else if i < |rows| + 2 {
        assert r[i] == rows[i - 2];
      } else {
        assert r[i][0] == Text("Total Camping");
      }
    }
  }

  /** The spliced table keeps every row `width` cells wide. */
  lemma SpliceKeepsShape(rows: Table, split: Option<nat>, width: nat)
    requires width >= 1 && Shaped(rows, width)
    ensures Shaped(InsertTotalsAndSpacing(rows, split, width), width)
  {
    if split.Some? {
      SplicedRows(rows, split.value, width);
    }
  }

  /** Where each row of the spliced table comes from. */
  lemma SplicedRows(rows: Table, k: nat, width: nat)
    requires width >= 1 && Shaped(rows, width)
    ensures var r := InsertTotalsAndSpacing(rows, Some(k), width);
      var s := Min(k, |rows|);
      && Shaped(r, width)
      && (forall i :: 0 <= i < s ==> r[i] == rows[i])
      && r[s] == LabelRow("Total Rooms", width)
      && r[s + 1] == SpacerRow(width)
      && (forall i :: s + 2 <= i < |rows| + 2 ==> r[i] == rows[i - 2])
      && r[|rows| + 2] == LabelRow("Total Camping", width)
  {
  }

  /** A labelled row with no labelled row below it is the one the scan returns. */
  lemma {:induction false} LastIsUnique(g: Grid, name: string, r: nat, n: int)
    requires 2 <= r <= n && Val(g, r, 1) == Text(name)
    requires forall i :: r < i <= n ==> Val(g, i, 1) != Text(name)
    ensures LastLabelled(g, name, n) == Some(r)
    decreases n
  {
    if n > r {
      LastIsUnique(g, name, r, n - 1);
    }
  }

  // ---------------------------------------------------------------------
  // Switches

  /** `USE_FORMULAS` and `DO_CALCULATIONS` */
  datatype Flags = Flags(useFormulas: bool, doCalculations: bool)

  /** The values the two programs ship with. */
  const STAGE1_FLAGS := Flags(false, false)
  const FINALIZER_FLAGS := Flags(true, true)

  /** Which of the two programs runs: they differ beyond their flags. */
  datatype Program = Stage1 | Finalizer

  /** A total row found by the scan is a data row (row 1 is the header). */
  predicate RowNo(r: Option<nat>) { r.Some? ==> r.value >= 2 }

  /** The two total rows are different rows. */
  predicate Apart(tr: Option<nat>, tc: Option<nat>) { tr.Some? && tc.Some? ==> tr.value != tc.value }

  function RowOr0(r: Option<nat>): nat { if r.Some? then r.value else 0 }

  // ---------------------------------------------------------------------
  // Group column sums: apply_column_sum_formulas / apply_column_sums_noform

  /** What goes into the Total Rooms cell of column c. */
  function RoomsEntry(p: Grid, tr: nat, c: nat, formulas: bool): Cell
    requires tr >= 2
  {
    if formulas then Fx(SumRange(Ref(2, c), Ref(tr - 1, c))) else Num(ColSum(p, c, 2, tr))
  }

  /**
   * The Total Camping formula as apply_column_sum_formulas writes it: its
   * range stops at row tc-2, one row above the last camping row.
   */
  function CampingFormulaAsWritten(tr: nat, tc: nat, c: nat): Formula
    requires tc >= 2
  {
    SumRange(Ref(tr + 2, c), Ref(tc - 2, c))
  }

  /**
   * The Total Camping formula with its range running to row tc-1, the last
   * camping row, as the direct sum of the same pass does.
   */
  function CampingFormulaCorrected(tr: nat, tc: nat, c: nat): Formula
    requires tc >= 2
  {
    SumRange(Ref(tr + 2, c), Ref(tc - 1, c))
  }

  /**
   * What goes into the Total Camping cell of column c: the formula as
   * written, or the direct sum over the camping rows tr+2 .. tc-1.
   */
  function CampingEntry(p: Grid, tr: nat, tc: nat, c: nat, formulas: bool): (r: Cell)
    requires tc >= 2
    ensures r.Fx? <==> formulas
    ensures formulas ==> r.f.SumRange? && r.f.first == Ref(tr + 2, c) && r.f.last == Ref(tc - 2, c)
    ensures !formulas ==> r == Num(ColSum(p, c, tr + 2, tc))
  {
    if formulas then Fx(CampingFormulaAsWritten(tr, tc, c)) else Num(ColSum(p, c, tr + 2, tc))
  }

  /** The value at (i, j) once columns 2 .. n+1 have their group sums. */
  function ColumnSumsAt(g: Grid, tr: Option<nat>, tc: Option<nat>, n: nat, formulas: bool, i: int, j: int): Cell
    requires RowNo(tr) && RowNo(tc)
  {
    if 2 <= j < n + 2 && tr.Some? && i == tr.value then RoomsEntry(g, tr.value, j, formulas)
    else if 2 <= j < n + 2 && tr.Some? && tc.Some? && i == tc.value then CampingEntry(g, tr.value, tc.value, j, formulas)
    else Val(g, i, j)
  }

  /**
   * The group sums of columns 2 .. n+1, each taken over the sheet as it was
   * before the pass (the loop reads a column before it writes into it, and
   * the camping range does not reach the Total Rooms row, so the sheet it
   * reads holds the same values).
   */
  function ColumnSumsUpTo(g: Grid, tr: Option<nat>, tc: Option<nat>, n: nat, formulas: bool): (h: Grid)
    requires RowNo(tr) && RowNo(tc) && Apart(tr, tc) && (n == 0 || tc.None? || tr.Some?)
    ensures MaxRow(h) == if n == 0 then MaxRow(g) else Max(MaxRow(g), Max(RowOr0(tr), RowOr0(tc)))
    ensures MaxCol(h) == if n == 0 || tr.None? then MaxCol(g) else Max(MaxCol(g), n + 1)
    ensures forall i, j :: Val(h, i, j) == ColumnSumsAt(g, tr, tc, n, formulas, i, j)
    ensures forall i, j :: FillOf(h, i, j) == FillOf(g, i, j)
  {
    if n == 0 then g
    else
      var p := ColumnSumsUpTo(g, tr, tc, n - 1, formulas);
      var c := n + 1;
      var p1 := if tr.Some? then SetVal(p, tr.value, c, RoomsEntry(g, tr.value, c, formulas)) else p;
      if tc.Some? then SetVal(p1, tc.value, c, CampingEntry(g, tr.value, tc.value, c, formulas)) else p1
  }

  /**
   * apply_column_sum_formulas: nothing while calculations are off; a
   * TypeError when there is a Total Camping row but no Total Rooms row
   * (`None + 2`), raised before any cell is written; otherwise the group sums
   * (formulas or direct sums) in columns 2 .. max_col+1.
   */
  function ColumnSums(g: Grid, tr: Option<nat>, tc: Option<nat>, maxCol: nat, flags: Flags): (h: Option<Grid>)
    requires RowNo(tr) && RowNo(tc) && Apart(tr, tc)
    ensures h.None? <==> flags.doCalculations && maxCol >= 1 && tr.None? && tc.Some?
    ensures h.Some? && !flags.doCalculations ==> h.value == g
  {
    if !flags.doCalculations || maxCol == 0 then Some(g)
    else if tr.None? && tc.Some? then None
    else Some(ColumnSumsUpTo(g, tr, tc, maxCol, flags.useFormulas))
  }

  /** The column-sum pass as the loop over the columns. */
  method ApplyColumnSums(ws: Worksheet, tr: Option<nat>, tc: Option<nat>, maxCol: nat, flags: Flags) returns (ok: bool)
    requires RowNo(tr) && RowNo(tc) && Apart(tr, tc)
    modifies ws
    ensures ok <==> ColumnSums(old(ws.grid), tr, tc, maxCol, flags).Some?
    ensures ok ==> ws.grid == ColumnSums(old(ws.grid), tr, tc, maxCol, flags).value
  {
    if !flags.doCalculations || maxCol == 0 {
      return true;
    }
    if tr.None? && tc.Some? {
      return false;
    }
    SumColumns(ws, tr, tc, maxCol, flags.useFormulas);
    ok := true;
  }

  /** The loop over columns 2 .. max_col+1. */
  method SumColumns(ws: Worksheet, tr: Option<nat>, tc: Option<nat>, maxCol: nat, formulas: bool)
    requires RowNo(tr) && RowNo(tc) && Apart(tr, tc) && (tc.None? || tr.Some?)
    modifies ws
    ensures ws.grid == ColumnSumsUpTo(old(ws.grid), tr, tc, maxCol, formulas)
  {
    ghost var g := ws.grid;
    var col := 2;
    while col < maxCol + 2
      invariant 2 <= col <= maxCol + 2
      invariant ws.grid == ColumnSumsUpTo(g, tr, tc, col - 2, formulas)
    {
      ColumnSumsOfColumn(ws, g, tr, tc, col, formulas);
      col := col + 1;
    }
  }

  /** One turn of the column loop: the two group sums of column `col`. */
  method ColumnSumsOfColumn(ws: Worksheet, ghost g: Grid, tr: Option<nat>, tc: Option<nat>, col: nat, formulas: bool)
    requires RowNo(tr) && RowNo(tc) && Apart(tr, tc) && (tc.None? || tr.Some?) && col >= 2
    requires ws.grid == ColumnSumsUpTo(g, tr, tc, col - 2, formulas)
    modifies ws
    ensures ws.grid == ColumnSumsUpTo(g, tr, tc, col - 1, formulas)
  {
    if tr.Some? {
      var v;
      if formulas {
        v := Fx(SumRange(Ref(2, col), Ref(tr.value - 1, col)));
      } else {
        var sum := ws.ColumnTotal(col, 2, tr.value);
        ColSumFrame(ws.grid, g, col, 2, tr.value);
        v := Num(sum);
      }
      ws.SetCell(tr.value, col, v);
    }
    if tc.Some? {
      var v;
      if formulas {
        v := Fx(SumRange(Ref(tr.value + 2, col), Ref(tc.value - 2, col)));
      } else {
        var sum := ws.ColumnTotal(col, tr.value + 2, tc.value);
        ColSumFrame(ws.grid, g, col, tr.value + 2, tc.value);
        v := Num(sum);
      }
      ws.SetCell(tc.value, col, v);
    }
  }

  // ---------------------------------------------------------------------
  // The row-total column: add_total_column / add_total_column_direct_noform

  /** One of the two total rows. */
  predicate IsTotalRow(r: int, tr: Option<nat>, tc: Option<nat>)
  {
    (tr.Some? && r == tr.value) || (tc.Some? && r == tc.value)
  }

  /** `f"Total {current_year}"` */
  function TotalHeader(year: int): string { Spelled("Total ", IntText(year), |IntText(year)|) }

  /** What row r of the total column receives: nothing for a total row. */
  function RowTotalEntry(g: Grid, maxCol: nat, tr: Option<nat>, tc: Option<nat>, formulas: bool, r: nat): Option<Cell>
  {
    if IsTotalRow(r, tr, tc) then None
    else if formulas then Some(Fx(SumRange(Ref(r, 2), Ref(r, maxCol))))
    else Some(Num(RowSum(g, r, 2, maxCol + 1)))
  }

  /**
   * The sheet after the total-column pass: the header "Total {year}" in
   * column max_col+1 and, with calculations on, every row 2 .. max_row other
   * than the two total rows holding the sum of its columns 2 .. max_col.
   */
  function TotalColumn(g: Grid, maxRow: nat, maxCol: nat, tr: Option<nat>, tc: Option<nat>, flags: Flags, year: int): (h: Grid)
    ensures Val(h, 1, maxCol + 1) == Text(TotalHeader(year))
    ensures forall i, j :: j != maxCol + 1 ==> Val(h, i, j) == Val(g, i, j)
    ensures forall i :: (i < 2 || i > maxRow || IsTotalRow(i, tr, tc) || !flags.doCalculations) && i != 1 ==>
      Val(h, i, maxCol + 1) == Val(g, i, maxCol + 1)
    ensures flags.doCalculations && !flags.useFormulas ==>
      forall i :: 2 <= i <= maxRow && !IsTotalRow(i, tr, tc) ==> Val(h, i, maxCol + 1) == Num(RowSum(g, i, 2, maxCol + 1))
    ensures flags.doCalculations && flags.useFormulas ==>
      forall i :: 2 <= i <= maxRow && !IsTotalRow(i, tr, tc) ==> Val(h, i, maxCol + 1) == Fx(SumRange(Ref(i, 2), Ref(i, maxCol)))
    ensures forall i, j :: FillOf(h, i, j) == FillOf(g, i, j)
  {
    var hd := SetVal(g, 1, maxCol + 1, Text(TotalHeader(year)));
    if flags.doCalculations then
      FillCol(hd, maxCol + 1, 2, maxRow + 1, (r: nat) => RowTotalEntry(g, maxCol, tr, tc, flags.useFormulas, r))
    else hd
  }

  /**
   * add_total_column: the header, then the loop over the rows, each row's
   * sum taken by the loop over its columns 2 .. max_col.
   */
  method AddTotalColumn(ws: Worksheet, maxRow: nat, maxCol: nat, tr: Option<nat>, tc: Option<nat>, flags: Flags, year: int)
    modifies ws
    ensures ws.grid == TotalColumn(old(ws.grid), maxRow, maxCol, tr, tc, flags, year)
  {
    ghost var g := ws.grid;
    ws.SetCell(1, maxCol + 1, Text(TotalHeader(year)));
    if !flags.doCalculations {
      return;
    }
    FillTotalColumn(ws, g, maxRow, maxCol, tr, tc, flags, year);
  }

  /** Past the header: the row loop writing each row's total. */
  method FillTotalColumn(ws: Worksheet, ghost g: Grid, maxRow: nat, maxCol: nat, tr: Option<nat>, tc: Option<nat>, flags: Flags, year: int)
    requires flags.doCalculations && ws.grid == SetVal(g, 1, maxCol + 1, Text(TotalHeader(year)))
    modifies ws
    ensures ws.grid == TotalColumn(g, maxRow, maxCol, tr, tc, flags, year)
  {
    ghost var hd := ws.grid;
    var row := 2;
    while row <= maxRow
      invariant 2 <= row <= maxRow + 1 || (row == 2 && maxRow < 2)
      invariant ws.grid == FillCol(hd, maxCol + 1, 2, row, (r: nat) => RowTotalEntry(g, maxCol, tr, tc, flags.useFormulas, r))
    {
      TotalColumnStep(ws, g, hd, row, maxCol, tr, tc, flags.useFormulas);
      row := row + 1;
    }
  }

  /** One turn of the row loop of add_total_column, for row `row`. */
  method TotalColumnStep(ws: Worksheet, ghost g: Grid, ghost hd: Grid, row: nat, maxCol: nat, tr: Option<nat>, tc: Option<nat>, formulas: bool)
    requires 2 <= row
    requires forall j :: Val(hd, row, j) == Val(g, row, j)
    requires ws.grid == FillCol(hd, maxCol + 1, 2, row, (r: nat) => RowTotalEntry(g, maxCol, tr, tc, formulas, r))
    modifies ws
    ensures ws.grid == FillCol(hd, maxCol + 1, 2, row + 1, (r: nat) => RowTotalEntry(g, maxCol, tr, tc, formulas, r))
  {
    RowSumFrame(ws.grid, g, row, 2, maxCol + 1);
    TotalColumnRow(ws, g, row, maxCol, tr, tc, formulas);
  }

  /** One row of add_total_column, on a sheet whose row still has g's data. */
  method TotalColumnRow(ws: Worksheet, ghost g: Grid, row: nat, maxCol: nat, tr: Option<nat>, tc: Option<nat>, formulas: bool)
    requires 1 <= row
    requires RowSum(ws.grid, row, 2, maxCol + 1) == RowSum(g, row, 2, maxCol + 1)
    modifies ws
    ensures var e := RowTotalEntry(g, maxCol, tr, tc, formulas, row);
      ws.grid == if e.Some? then SetVal(old(ws.grid), row, maxCol + 1, e.value) else old(ws.grid)
  {
    if !IsTotalRow(row, tr, tc) {
      if formulas {
        ws.SetCell(row, maxCol + 1, Fx(SumRange(Ref(row, 2), Ref(row, maxCol))));
      } else {
        var sum := ws.RowTotal(row, 2, maxCol + 1);
        ws.SetCell(row, maxCol + 1, Num(sum));
      }
    }
  }

  /**
   * Excel's value of a row-total formula is the direct row sum, as long as
   * the sheet has a data column (with max_col = 1 the range B:A would be
   * turned round and take in the label column and the total column itself).
   */
  lemma RowTotalFormulaMatchesDirect(g: Grid, r: nat, maxCol: nat)
    requires maxCol >= 2
    ensures RangeValue(g, Ref(r, 2), Ref(r, maxCol)) == RowSum(g, r, 2, maxCol + 1)
  {
    RectSumRow(g, r, 2, maxCol);
  }

  // ---------------------------------------------------------------------
  // Percent to total: add_percentage_column / add_percentage_column_direct_noform

  /** `f"Percent to Total {current_year}"` */
  function PercentHeader(year: int): string { Spelled("Percent to Total ", IntText(year), |IntText(year)|) }

  /** `x / d if d else 0`: a zero divisor gives 0. */
  function Ratio(x: real, d: real): (q: real)
    ensures d != 0.0 ==> q * d == x
    ensures d == 0.0 ==> q == 0.0
  {
    if d == 0.0 then 0.0 else x / d
  }

  /**
   * What row r of the percent column receives in the direct variant, given
   * the rooms divisor `dr` and the camping divisor `dc`: rows above Total
   * Rooms are shares of `dr`, rows below the spacer shares of `dc`, and the
   * spacer row gets 0 from stage 1 and nothing from the finalizer.  Total
   * rows and rows whose total is not a number get nothing.
   */
  function PercentDirectEntry(g: Grid, tcol: nat, tr: nat, tc: Option<nat>, dr: real, dc: real, spacerZero: bool, r: nat): Option<Cell>
  {
    var v := Val(g, r, tcol);
    if IsTotalRow(r, Some(tr), tc) || !v.Num? then None
    else if r < tr then Some(Num(Ratio(v.r, dr)))
    else if r > tr + 1 then Some(Num(Ratio(v.r, dc)))
    else if spacerZero then Some(Num(0.0))
    else None
  }

  /**
   * The direct percent pass.  Stage 1 runs it whatever the flags say, the
   * finalizer only with calculations on.  Once it runs, a missing Total
   * Rooms row makes `range(2, None)` raise (`None`).  The rooms divisor adds
   * the numeric totals of rows 2 .. tr-1, the camping divisor those of rows
   * tr+2 .. max_row, the Total Camping row included.
   */
  function PercentDirect(g: Grid, maxRow: nat, maxCol: nat, tr: Option<nat>, tc: Option<nat>, program: Program, flags: Flags, year: int): (h: Option<Grid>)
    ensures h.None? <==> !(program.Finalizer? && !flags.doCalculations) && tr.None?
    ensures h.Some? ==> Val(h.value, 1, maxCol + 2) == Text(PercentHeader(year))
    ensures h.Some? ==> forall i, j :: j != maxCol + 2 ==> Val(h.value, i, j) == Val(g, i, j)
    ensures h.Some? ==> forall i, j :: FillOf(h.value, i, j) == FillOf(g, i, j)
  {
    var tcol, pc := maxCol + 1, maxCol + 2;
    var hd := SetVal(g, 1, pc, Text(PercentHeader(year)));
    if program.Finalizer? && !flags.doCalculations then Some(hd)
    else if tr.None? then None
    else
      var dr := ColSum(g, tcol, 2, tr.value);
      var dc := ColSum(g, tcol, tr.value + 2, maxRow + 1);
      Some(FillCol(hd, pc, 2, maxRow + 1, (r: nat) => PercentDirectEntry(g, tcol, tr.value, tc, dr, dc, program == Stage1, r)))
  }

  /** A row in 2 .. max_row that is neither total row exists. */
  predicate HasOrdinaryRow(maxRow: nat, tr: Option<nat>, tc: Option<nat>)
  {
    exists r :: 2 <= r <= maxRow && !IsTotalRow(r, tr, tc)
  }

  /** What row r of the percent column receives in the formula variant. */
  function PercentFormulaEntry(tcol: nat, tr: Option<nat>, tc: Option<nat>, r: nat): Option<Cell>
  {
    if tr.None? || tc.None? || IsTotalRow(r, tr, tc) then None
    else if r < tr.value then Some(Fx(GuardedQuotient(Ref(r, tcol), Ref(tr.value, tcol))))
    else if r > tr.value + 1 then Some(Fx(GuardedQuotient(Ref(r, tcol), Ref(tc.value, tcol))))
    else None
  }

  /**
   * The formula percent pass: with calculations on, each ordinary row reads
   * both total rows (`ws.cell(row=None)` raises when one is missing) and
   * gets IF(T<>0, x/T, 0) against its own group's total; the spacer row gets
   * nothing.
   */
  function PercentFormulas(g: Grid, maxRow: nat, maxCol: nat, tr: Option<nat>, tc: Option<nat>, flags: Flags, year: int): (h: Option<Grid>)
    ensures h.None? <==> flags.doCalculations && HasOrdinaryRow(maxRow, tr, tc) && (tr.None? || tc.None?)
    ensures h.Some? ==> Val(h.value, 1, maxCol + 2) == Text(PercentHeader(year))
    ensures h.Some? ==> forall i, j :: j != maxCol + 2 ==> Val(h.value, i, j) == Val(g, i, j)
    ensures h.Some? ==> forall i, j :: FillOf(h.value, i, j) == FillOf(g, i, j)
  {
    var tcol, pc := maxCol + 1, maxCol + 2;
    var hd := SetVal(g, 1, pc, Text(PercentHeader(year)));
    if !flags.doCalculations then Some(hd)
    else if HasOrdinaryRow(maxRow, tr, tc) && (tr.None? || tc.None?) then None
    else Some(FillCol(hd, pc, 2, maxRow + 1, (r: nat) => PercentFormulaEntry(tcol, tr, tc, r)))
  }

  /** add_percentage_column: the formula variant or the direct one. */
  function PercentColumn(g: Grid, maxRow: nat, maxCol: nat, tr: Option<nat>, tc: Option<nat>, program: Program, flags: Flags, year: int): Option<Grid>
  {
    if flags.useFormulas then PercentFormulas(g, maxRow, maxCol, tr, tc, flags, year)
    else PercentDirect(g, maxRow, maxCol, tr, tc, program, flags, year)
  }

  /**
   * add_percentage_column.  On failure the header has been written and the
   * pass has raised; the caller then saves nothing.
   */
  method AddPercentageColumn(ws: Worksheet, maxRow: nat, maxCol: nat, tr: Option<nat>, tc: Option<nat>, program: Program, flags: Flags, year: int)
    returns (ok: bool)
    requires RowNo(tr)
    modifies ws
    ensures ok <==> PercentColumn(old(ws.grid), maxRow, maxCol, tr, tc, program, flags, year).Some?
    ensures ok ==> ws.grid == PercentColumn(old(ws.grid), maxRow, maxCol, tr, tc, program, flags, year).value
  {
    if flags.useFormulas {
      ok := AddPercentageFormulas(ws, maxRow, maxCol, tr, tc, flags, year);
    } else {
      ok := AddPercentageDirect(ws, maxRow, maxCol, tr, tc, program, flags, year);
    }
  }

  /** add_percentage_column_direct_noform */
  method AddPercentageDirect(ws: Worksheet, maxRow: nat, maxCol: nat, tr: Option<nat>, tc: Option<nat>, program: Program, flags: Flags, year: int)
    returns (ok: bool)
    requires RowNo(tr)
    modifies ws
    ensures ok <==> PercentDirect(old(ws.grid), maxRow, maxCol, tr, tc, program, flags, year).Some?
    ensures ok ==> ws.grid == PercentDirect(old(ws.grid), maxRow, maxCol, tr, tc, program, flags, year).value
  {
    ghost var g := ws.grid;
    var tcol, pc := maxCol + 1, maxCol + 2;
    ws.SetCell(1, pc, Text(PercentHeader(year)));
    if program.Finalizer? && !flags.doCalculations {
      return true;
    }
    if tr.None? {
      return false;
    }
    FillDirectPercents(ws, g, maxRow, maxCol, tr, tc, program, flags, year);
    ok := true;
  }

  /** Past the header and the two early exits: the two group totals, then the percent column. */
  method FillDirectPercents(ws: Worksheet, ghost g: Grid, maxRow: nat, maxCol: nat, tr: Option<nat>, tc: Option<nat>,
                            program: Program, flags: Flags, year: int)
    requires RowNo(tr) && tr.Some? && !(program.Finalizer? && !flags.doCalculations)
    requires ws.grid == SetVal(g, 1, maxCol + 2, Text(PercentHeader(year)))
    modifies ws
    ensures PercentDirect(g, maxRow, maxCol, tr, tc, program, flags, year).Some?
    ensures ws.grid == PercentDirect(g, maxRow, maxCol, tr, tc, program, flags, year).value
  {
    var tcol := maxCol + 1;
    var dr := ws.ColumnTotal(tcol, 2, tr.value);
    ColSumFrame(ws.grid, g, tcol, 2, tr.value);
    var dc := ws.ColumnTotal(tcol, tr.value + 2, maxRow + 1);
    ColSumFrame(ws.grid, g, tcol, tr.value + 2, maxRow + 1);
    FillPercentDirect(ws, g, maxRow, tcol, tr.value, tc, dr, dc, program == Stage1);
  }

  /** The row loop of the direct percent pass. */
  method FillPercentDirect(ws: Worksheet, ghost g: Grid, maxRow: nat, tcol: nat, tr: nat, tc: Option<nat>, dr: real, dc: real, spacerZero: bool)
    requires tcol >= 1
    requires forall i :: Val(ws.grid, i, tcol) == Val(g, i, tcol)
    modifies ws
    ensures ws.grid == FillCol(old(ws.grid), tcol + 1, 2, maxRow + 1, (r: nat) => PercentDirectEntry(g, tcol, tr, tc, dr, dc, spacerZero, r))
  {
    ghost var hd := ws.grid;
    var row := 2;
    while row <= maxRow
      invariant 2 <= row <= maxRow + 1 || (row == 2 && maxRow < 2)
      invariant ws.grid == FillCol(hd, tcol + 1, 2, row, (r: nat) => PercentDirectEntry(g, tcol, tr, tc, dr, dc, spacerZero, r))
    {
      PercentDirectRow(ws, g, hd, tcol, tr, tc, dr, dc, spacerZero, row);
      row := row + 1;
    }
  }

  /** One turn of the direct percent loop, for row `row`. */
  method PercentDirectRow(ws: Worksheet, ghost g: Grid, ghost hd: Grid, tcol: nat, tr: nat, tc: Option<nat>, dr: real, dc: real, spacerZero: bool, row: nat)
    requires 1 <= tcol && row >= 2
    requires forall i :: Val(hd, i, tcol) == Val(g, i, tcol)
    requires ws.grid == FillCol(hd, tcol + 1, 2, row, (r: nat) => PercentDirectEntry(g, tcol, tr, tc, dr, dc, spacerZero, r))
    modifies ws
    ensures ws.grid == FillCol(hd, tcol + 1, 2, row + 1, (r: nat) => PercentDirectEntry(g, tcol, tr, tc, dr, dc, spacerZero, r))
  {
    var pc := tcol + 1;
    var v := Val(ws.grid, row, tcol);
    if !IsTotalRow(row, Some(tr), tc) && v.Num? {
      if row < tr {
        ws.SetCell(row, pc, Num(Ratio(v.r, dr)));
      } else if row > tr + 1 {
        ws.SetCell(row, pc, Num(Ratio(v.r, dc)));
      } else if spacerZero {
        ws.SetCell(row, pc, Num(0.0));
      }
    }
  }

  /** add_percentage_column, formula variant */
  method AddPercentageFormulas(ws: Worksheet, maxRow: nat, maxCol: nat, tr: Option<nat>, tc: Option<nat>, flags: Flags, year: int)
    returns (ok: bool)
    modifies ws
    ensures ok <==> PercentFormulas(old(ws.grid), maxRow, maxCol, tr, tc, flags, year).Some?
    ensures ok ==> ws.grid == PercentFormulas(old(ws.grid), maxRow, maxCol, tr, tc, flags, year).value
  {
    ghost var g := ws.grid;
    ws.SetCell(1, maxCol + 2, Text(PercentHeader(year)));
    if !flags.doCalculations {
      return true;
    }
    ok := FillPercentFormulas(ws, g, maxRow, maxCol, tr, tc, flags, year);
  }

  /** Past the header: the row loop, which raises at the first ordinary row when a total row is missing. */
  method FillPercentFormulas(ws: Worksheet, ghost g: Grid, maxRow: nat, maxCol: nat, tr: Option<nat>, tc: Option<nat>, flags: Flags, year: int)
    returns (ok: bool)
    requires flags.doCalculations && ws.grid == SetVal(g, 1, maxCol + 2, Text(PercentHeader(year)))
    modifies ws
    ensures ok <==> PercentFormulas(g, maxRow, maxCol, tr, tc, flags, year).Some?
    ensures ok ==> ws.grid == PercentFormulas(g, maxRow, maxCol, tr, tc, flags, year).value
  {
    var tcol, pc := maxCol + 1, maxCol + 2;
    ghost var hd := ws.grid;
    var row := 2;
    while row <= maxRow
      invariant 2 <= row <= maxRow + 1 || (row == 2 && maxRow < 2)
      invariant tr.None? || tc.None? ==> forall r :: 2 <= r < row ==> IsTotalRow(r, tr, tc)
      invariant ws.grid == FillCol(hd, pc, 2, row, (r: nat) => PercentFormulaEntry(tcol, tr, tc, r))
    {
      if !IsTotalRow(row, tr, tc) {
        if tr.None? || tc.None? {
          return false;
        }
        if row < tr.value {
          ws.SetCell(row, pc, Fx(GuardedQuotient(Ref(row, tcol), Ref(tr.value, tcol))));
        } else if row > tr.value + 1 {
          ws.SetCell(row, pc, Fx(GuardedQuotient(Ref(row, tcol), Ref(tc.value, tcol))));
        }
      }
      row := row + 1;
    }
    ok := true;
  }

  // ---------------------------------------------------------------------
  // Monthly sums: add_monthly_sums / add_monthly_sums_direct_noform

  /** Stage 1 heads its month columns "{Mon} 2025", the finalizer "{Mon} {current_year}". */
  function MonthHeaders(program: Program, year: int): (hs: seq<string>)
    ensures |hs| == |SPRING_TO_AUTUMN|
    ensures forall i :: 0 <= i < |hs| ==>
      hs[i] == SPRING_TO_AUTUMN[i] + " " + (if program.Stage1? then "2025" else IntText(year))
  {
    var y := if program.Stage1? then "2025" else IntText(year);
    seq(|SPRING_TO_AUTUMN|, i requires 0 <= i < |SPRING_TO_AUTUMN| => SPRING_TO_AUTUMN[i] + " " + y)
  }

  /** The month sum of row r over the day columns of `sp`. */
  function MonthCell(g: Grid, sp: Span, formulas: bool, r: nat): Cell
  {
    if formulas then Fx(SumRange(Ref(r, sp.first), Ref(r, sp.last)))
    else Num(RowSum(g, r, sp.first, sp.last + 1))
  }

  /** What row r of a month column receives: nothing for a total row. */
  function MonthEntry(g: Grid, sp: Span, tr: Option<nat>, tc: Option<nat>, formulas: bool, r: nat): Option<Cell>
  {
    if IsTotalRow(r, tr, tc) then None else Some(MonthCell(g, sp, formulas, r))
  }

  /** The value at (i, j) once the first k month columns after column pc are written. */
  function MonthlyAt(g: Grid, ranges: Ranges, headers: seq<string>, k: nat, pc: nat, maxRow: nat,
                     tr: Option<nat>, tc: Option<nat>, flags: Flags, i: int, j: int): Cell
    requires k <= |ranges| && k <= |headers|
  {
    if pc < j <= pc + k then
      var m := j - pc - 1;
      if i == 1 then Text(headers[m])
      else if flags.doCalculations && ranges[m].Some? && 2 <= i <= maxRow && !IsTotalRow(i, tr, tc)
      then MonthCell(g, ranges[m].value, flags.useFormulas, i)
      else Val(g, i, j)
    else Val(g, i, j)
  }

  /** Month column `col`: its header and, with calculations on and a range found, its sums. */
  function MonthColumn(p: Grid, g: Grid, col: nat, header: string, span: Option<Span>, maxRow: nat,
                       tr: Option<nat>, tc: Option<nat>, flags: Flags): Grid
    requires col >= 1
  {
    var hd := SetVal(p, 1, col, Text(header));
    if flags.doCalculations && span.Some?
    then FillCol(hd, col, 2, maxRow + 1, (r: nat) => MonthEntry(g, span.value, tr, tc, flags.useFormulas, r))
    else hd
  }

  /** Cell by cell, one month column on top of the sheet p. */
  lemma MonthColumnCells(p: Grid, g: Grid, col: nat, header: string, span: Option<Span>, maxRow: nat,
                         tr: Option<nat>, tc: Option<nat>, flags: Flags)
    requires col >= 1
    ensures var h := MonthColumn(p, g, col, header, span, maxRow, tr, tc, flags);
      && (forall i, j :: Val(h, i, j) ==
            if j != col then Val(p, i, j)
            else if i == 1 then Text(header)
            else if flags.doCalculations && span.Some? && 2 <= i <= maxRow && !IsTotalRow(i, tr, tc)
            then MonthCell(g, span.value, flags.useFormulas, i)
            else Val(p, i, j))
      && (forall i, j :: FillOf(h, i, j) == FillOf(p, i, j))
  {
  }

  /**
   * The month loop after k months: month m goes to column pc+1+m, the sums
   * read from the sheet as it was before the loop.
   */
  function MonthsUpTo(g: Grid, ranges: Ranges, headers: seq<string>, k: nat, pc: nat, maxRow: nat,
                      tr: Option<nat>, tc: Option<nat>, flags: Flags): Grid
    requires k <= |ranges| && k <= |headers|
  {
    if k == 0 then g
    else MonthColumn(MonthsUpTo(g, ranges, headers, k - 1, pc, maxRow, tr, tc, flags), g, pc + k, headers[k - 1], ranges[k - 1], maxRow, tr, tc, flags)
  }

  /** Month k changes only its own column, and there exactly as MonthColumn writes it. */
  lemma MonthlyAtStep(g: Grid, ranges: Ranges, headers: seq<string>, k: nat, pc: nat, maxRow: nat,
                      tr: Option<nat>, tc: Option<nat>, flags: Flags, i: int, j: int)
    requires 1 <= k <= |ranges| && k <= |headers|
    ensures MonthlyAt(g, ranges, headers, k, pc, maxRow, tr, tc, flags, i, j) ==
      if j != pc + k then MonthlyAt(g, ranges, headers, k - 1, pc, maxRow, tr, tc, flags, i, j)
      else if i == 1 then Text(headers[k - 1])
      else if flags.doCalculations && ranges[k - 1].Some? && 2 <= i <= maxRow && !IsTotalRow(i, tr, tc)
      then MonthCell(g, ranges[k - 1].value, flags.useFormulas, i)
      else MonthlyAt(g, ranges, headers, k - 1, pc, maxRow, tr, tc, flags, i, j)
  {
  }

  /** Cell by cell, the month loop after k months writes what MonthlyAt says and no fill. */
  lemma {:induction false} MonthsUpToCells(g: Grid, ranges: Ranges, headers: seq<string>, k: nat, pc: nat, maxRow: nat,
                                           tr: Option<nat>, tc: Option<nat>, flags: Flags)
    requires k <= |ranges| && k <= |headers|
    ensures var h := MonthsUpTo(g, ranges, headers, k, pc, maxRow, tr, tc, flags);
      && (forall i, j :: Val(h, i, j) == MonthlyAt(g, ranges, headers, k, pc, maxRow, tr, tc, flags, i, j))
      && (forall i, j :: FillOf(h, i, j) == FillOf(g, i, j))
  {
    if k > 0 {
      MonthsUpToCells(g, ranges, headers, k - 1, pc, maxRow, tr, tc, flags);
      var p := MonthsUpTo(g, ranges, headers, k - 1, pc, maxRow, tr, tc, flags);
      var h := MonthColumn(p, g, pc + k, headers[k - 1], ranges[k - 1], maxRow, tr, tc, flags);
      MonthColumnCells(p, g, pc + k, headers[k - 1], ranges[k - 1], maxRow, tr, tc, flags);
      forall i, j ensures Val(h, i, j) == MonthlyAt(g, ranges, headers, k, pc, maxRow, tr, tc, flags, i, j) {
        assert Val(p, i, j) == MonthlyAt(g, ranges, headers, k - 1, pc, maxRow, tr, tc, flags, i, j);
        MonthlyAtStep(g, ranges, headers, k, pc, maxRow, tr, tc, flags, i, j);
      }
    }
  }

  /**
   * The monthly pass over the sheet g, month columns starting after the
   * percent column max_col+2.  The ranges come from the header scan over
   * columns 2 .. max_col.  A truthy header that is not a string stops the
   * scan: stage 1 swallows the error and keeps the months found before it,
   * the finalizer raises (`None`).
   */
  function MonthlySums(g: Grid, maxRow: nat, maxCol: nat, tr: Option<nat>, tc: Option<nat>, program: Program, flags: Flags, year: int): (h: Option<Grid>)
    ensures h.None? <==> program.Finalizer? && NonTextStop(g, 2, maxCol + 1).Some?
    ensures h.Some? ==> forall j :: 0 <= j < 6 ==>
      Val(h.value, 1, maxCol + 3 + j) == Text(SPRING_TO_AUTUMN[j] + " " + (if program.Stage1? then "2025" else IntText(year)))
    ensures h.Some? ==> forall i, j :: j <= maxCol + 2 || j > maxCol + 8 ==> Val(h.value, i, j) == Val(g, i, j)
    ensures h.Some? && !flags.doCalculations ==> forall i, j :: i != 1 ==> Val(h.value, i, j) == Val(g, i, j)
  {
    var stop := NonTextStop(g, 2, maxCol + 1);
    if program.Finalizer? && stop.Some? then None
    else
      var ranges := RangesUpTo(6, g, 2, if stop.Some? then stop.value else maxCol + 1, HeaderInMonth);
      var headers := MonthHeaders(program, year);
      MonthsUpToCells(g, ranges, headers, 6, maxCol + 2, maxRow, tr, tc, flags);
      Some(MonthsUpTo(g, ranges, headers, 6, maxCol + 2, maxRow, tr, tc, flags))
  }

  /**
   * add_monthly_sums: the scan for the month ranges, then one column per
   * month with its header and, with calculations on, its row sums.
   */
  method AddMonthlySums(ws: Worksheet, maxRow: nat, maxCol: nat, tr: Option<nat>, tc: Option<nat>, program: Program, flags: Flags, year: int)
    returns (ok: bool)
    modifies ws
    ensures ok <==> MonthlySums(old(ws.grid), maxRow, maxCol, tr, tc, program, flags, year).Some?
    ensures ok ==> ws.grid == MonthlySums(old(ws.grid), maxRow, maxCol, tr, tc, program, flags, year).value
  {
    ghost var g := ws.grid;
    var tcol, pc := maxCol + 1, maxCol + 2;
    var ranges, failed := ScanMonthRanges(ws, 6, 2, tcol, false);
    if failed && program.Finalizer? {
      return false;
    }
    ghost var hi := if failed then NonTextStop(g, 2, tcol).value else tcol;
    RangesWithin(6, g, 2, hi, HeaderInMonth);
    assert forall m :: 0 <= m < 6 ==> Within(ranges[m], 2, tcol);
    var headers := MonthHeaders(program, year);
    AddMonthColumns(ws, ranges, headers, tcol, maxRow, tr, tc, flags);
    MonthlySumsFound(g, maxRow, maxCol, tr, tc, program, flags, year, hi);
    ok := true;
  }

  /** Past the failure exit, the pass is the month loop over the ranges found left of `hi`. */
  lemma MonthlySumsFound(g: Grid, maxRow: nat, maxCol: nat, tr: Option<nat>, tc: Option<nat>, program: Program, flags: Flags, year: int, hi: nat)
    requires var stop := NonTextStop(g, 2, maxCol + 1);
      !(program.Finalizer? && stop.Some?) && hi == if stop.Some? then stop.value else maxCol + 1
    ensures MonthlySums(g, maxRow, maxCol, tr, tc, program, flags, year) ==
      Some(MonthsUpTo(g, RangesUpTo(6, g, 2, hi, HeaderInMonth), MonthHeaders(program, year), 6, maxCol + 2, maxRow, tr, tc, flags))
  {
  }

  /** The loop over the months, month m going to column max_col+3+m. */
  method AddMonthColumns(ws: Worksheet, ranges: Ranges, headers: seq<string>, tcol: nat, maxRow: nat,
                         tr: Option<nat>, tc: Option<nat>, flags: Flags)
    requires |ranges| == |headers| && tcol >= 1
    requires forall m :: 0 <= m < |ranges| ==> Within(ranges[m], 2, tcol)
    modifies ws
    ensures ws.grid == MonthsUpTo(old(ws.grid), ranges, headers, |ranges|, tcol + 1, maxRow, tr, tc, flags)
  {
    ghost var g := ws.grid;
    var pc := tcol + 1;
    var k := 0;
    while k < |ranges|
      invariant 0 <= k <= |ranges|
      invariant ws.grid == MonthsUpTo(g, ranges, headers, k, pc, maxRow, tr, tc, flags)
    {
      AddNextMonthColumn(ws, g, ranges, headers, k, tcol, maxRow, tr, tc, flags);
      k := k + 1;
    }
  }

  /** One turn of the month loop: month k goes to column max_col+3+k. */
  method AddNextMonthColumn(ws: Worksheet, ghost g: Grid, ranges: Ranges, headers: seq<string>, k: nat, tcol: nat, maxRow: nat,
                            tr: Option<nat>, tc: Option<nat>, flags: Flags)
    requires k < |ranges| && k < |headers| && tcol >= 1 && Within(ranges[k], 2, tcol)
    requires ws.grid == MonthsUpTo(g, ranges, headers, k, tcol + 1, maxRow, tr, tc, flags)
    modifies ws
    ensures ws.grid == MonthsUpTo(g, ranges, headers, k + 1, tcol + 1, maxRow, tr, tc, flags)
  {
    var pc := tcol + 1;
    MonthsUpToKeepsLeft(g, ranges, headers, k, pc, maxRow, tr, tc, flags);
    AddMonthColumn(ws, g, pc + k + 1, headers[k], ranges[k], tcol, maxRow, tr, tc, flags);
    assert ws.grid == MonthsUpTo(g, ranges, headers, k + 1, tcol + 1, maxRow, tr, tc, flags) by {
      MonthsUpToStep(g, ranges, headers, k, pc, maxRow, tr, tc, flags);
    }
  }

  /** The sheets a and b agree on every column before c. */
  ghost predicate SameLeftOf(a: Grid, b: Grid, c: int)
  {
    forall i, j :: j < c ==> Val(a, i, j) == Val(b, i, j)
  }

  /** The month loop leaves every column up to pc alone. */
  lemma MonthsUpToKeepsLeft(g: Grid, ranges: Ranges, headers: seq<string>, k: nat, pc: nat, maxRow: nat,
                            tr: Option<nat>, tc: Option<nat>, flags: Flags)
    requires k <= |ranges| && k <= |headers|
    ensures SameLeftOf(MonthsUpTo(g, ranges, headers, k, pc, maxRow, tr, tc, flags), g, pc)
  {
    MonthsUpToCells(g, ranges, headers, k, pc, maxRow, tr, tc, flags);
  }

  /** One more month column on top of the first k. */
  lemma MonthsUpToStep(g: Grid, ranges: Ranges, headers: seq<string>, k: nat, pc: nat, maxRow: nat,
                       tr: Option<nat>, tc: Option<nat>, flags: Flags)
    requires k < |ranges| && k < |headers|
    ensures MonthsUpTo(g, ranges, headers, k + 1, pc, maxRow, tr, tc, flags)
      == MonthColumn(MonthsUpTo(g, ranges, headers, k, pc, maxRow, tr, tc, flags), g, pc + k + 1, headers[k], ranges[k], maxRow, tr, tc, flags)
  {
  }

  /** One month of the loop: the header, then the rows. */
  method AddMonthColumn(ws: Worksheet, ghost g: Grid, col: nat, header: string, span: Option<Span>, tcol: nat, maxRow: nat,
                        tr: Option<nat>, tc: Option<nat>, flags: Flags)
    requires 1 <= tcol < col && Within(span, 2, tcol)
    requires SameLeftOf(ws.grid, g, tcol)
    modifies ws
    ensures ws.grid == MonthColumn(old(ws.grid), g, col, header, span, maxRow, tr, tc, flags)
  {
    ws.SetCell(1, col, Text(header));
    if flags.doCalculations && span.Some? {
      ghost var hd := ws.grid;
      var row := 2;
      while row <= maxRow
        invariant 2 <= row <= maxRow + 1 || (row == 2 && maxRow < 2)
        invariant ws.grid == FillCol(hd, col, 2, row, (r: nat) => MonthEntry(g, span.value, tr, tc, flags.useFormulas, r))
      {
        MonthRow(ws, g, hd, col, span.value, tcol, tr, tc, flags.useFormulas, row);
        row := row + 1;
      }
    }
  }

  /** One row of a month column. */
  method MonthRow(ws: Worksheet, ghost g: Grid, ghost hd: Grid, col: nat, sp: Span, tcol: nat,
                  tr: Option<nat>, tc: Option<nat>, formulas: bool, row: nat)
    requires 1 <= tcol < col && 2 <= sp.first && sp.last < tcol && row >= 2
    requires SameLeftOf(hd, g, tcol)
    requires ws.grid == FillCol(hd, col, 2, row, (r: nat) => MonthEntry(g, sp, tr, tc, formulas, r))
    modifies ws
    ensures ws.grid == FillCol(hd, col, 2, row + 1, (r: nat) => MonthEntry(g, sp, tr, tc, formulas, r))
  {
    RowSumFrame(ws.grid, g, row, sp.first, sp.last + 1);
    WriteMonthCell(ws, g, col, sp, tr, tc, formulas, row);
  }

  /** The cell of one row of a month column, on a sheet whose row still has g's sums. */
  method WriteMonthCell(ws: Worksheet, ghost g: Grid, col: nat, sp: Span, tr: Option<nat>, tc: Option<nat>, formulas: bool, row: nat)
    requires 1 <= row && 1 <= col
    requires RowSum(ws.grid, row, sp.first, sp.last + 1) == RowSum(g, row, sp.first, sp.last + 1)
    modifies ws
    ensures var e := MonthEntry(g, sp, tr, tc, formulas, row);
      ws.grid == if e.Some? then SetVal(old(ws.grid), row, col, e.value) else old(ws.grid)
  {
    if !IsTotalRow(row, tr, tc) {
      if formulas {
        ws.SetCell(row, col, Fx(SumRange(Ref(row, sp.first), Ref(row, sp.last))));
      } else {
        var sum := ws.RowTotal(row, sp.first, sp.last + 1);
        ws.SetCell(row, col, Num(sum));
      }
    }
  }

  // ---------------------------------------------------------------------
  // The whole pass: apply_excel_formatting_and_formulas

  /** The two scans never pick the same row: the labels differ. */
  lemma TotalRowsApart(g: Grid, n: int)
    ensures Apart(LastLabelled(g, "Total Rooms", n), LastLabelled(g, "Total Camping", n))
  {
  }

  /**
   * The sheet saved by apply_excel_formatting_and_formulas for the sheet
   * loaded from the file, or `None` when a pass raises and nothing is
   * saved.  max_row and max_column are taken once, at load; the styling
   * of apply_formatting changes no value.
   */
  function Finalize(g: Grid, program: Program, flags: Flags, year: int): (r: Option<Grid>)
    ensures var tr := LastLabelled(g, "Total Rooms", MaxRow(g));
      var tc := LastLabelled(g, "Total Camping", MaxRow(g));
      flags.doCalculations && MaxCol(g) >= 1 && tr.None? && tc.Some? ==> r.None?
  {
    var maxRow, maxCol := MaxRow(g), MaxCol(g);
    var tr := LastLabelled(g, "Total Rooms", maxRow);
    var tc := LastLabelled(g, "Total Camping", maxRow);
    TotalRowsApart(g, maxRow);
    var g1 := ColumnSums(g, tr, tc, maxCol, flags);
    if g1.None? then None
    else RowSumPasses(g1.value, maxRow, maxCol, tr, tc, program, flags, year)
  }

  /**
   * The table the pass was given survives it: outside the two total rows,
   * every cell of columns up to max_col keeps its value; the total and
   * percent headers follow it.
   */
  lemma FinalizeKeepsTable(g: Grid, program: Program, flags: Flags, year: int)
    ensures var r := Finalize(g, program, flags, year);
      var tr := LastLabelled(g, "Total Rooms", MaxRow(g));
      var tc := LastLabelled(g, "Total Camping", MaxRow(g));
      && (r.Some? ==> forall i, j :: j <= MaxCol(g) && tr != Some(i) && tc != Some(i) ==> Val(r.value, i, j) == Val(g, i, j))
      && (r.Some? ==> Val(r.value, 1, MaxCol(g) + 1) == Text(TotalHeader(year)))
      && (r.Some? ==> Val(r.value, 1, MaxCol(g) + 2) == Text(PercentHeader(year)))
  {
    var tr := LastLabelled(g, "Total Rooms", MaxRow(g));
    var tc := LastLabelled(g, "Total Camping", MaxRow(g));
    TotalRowsApart(g, MaxRow(g));
    PassesKeepTable(g, MaxRow(g), MaxCol(g), tr, tc, program, flags, year);
  }

  /** FinalizeKeepsTable for any pair of total rows. */
  lemma PassesKeepTable(g: Grid, maxRow: nat, maxCol: nat, tr: Option<nat>, tc: Option<nat>, program: Program, flags: Flags, year: int)
    requires RowNo(tr) && RowNo(tc) && Apart(tr, tc)
    ensures var g1 := ColumnSums(g, tr, tc, maxCol, flags);
      g1.Some? ==> var r := RowSumPasses(g1.value, maxRow, maxCol, tr, tc, program, flags, year);
        && (r.Some? ==> forall i, j :: j <= maxCol && tr != Some(i) && tc != Some(i) ==> Val(r.value, i, j) == Val(g, i, j))
        && (r.Some? ==> Val(r.value, 1, maxCol + 1) == Text(TotalHeader(year)))
        && (r.Some? ==> Val(r.value, 1, maxCol + 2) == Text(PercentHeader(year)))
  {
    var g1 := ColumnSums(g, tr, tc, maxCol, flags);
    if g1.Some? {
      forall i, j | j <= maxCol && tr != Some(i) && tc != Some(i)
        ensures Val(g1.value, i, j) == Val(g, i, j)
      {
      }
    }
  }

  /**
   * apply_row_sum_formulas: the total column at max_col+1, the percent
   * column at max_col+2 and the month columns after it.
   */
  function RowSumPasses(g: Grid, maxRow: nat, maxCol: nat, tr: Option<nat>, tc: Option<nat>, program: Program, flags: Flags, year: int): (h: Option<Grid>)
    ensures h.Some? ==> Val(h.value, 1, maxCol + 1) == Text(TotalHeader(year)) && Val(h.value, 1, maxCol + 2) == Text(PercentHeader(year))
    ensures h.Some? ==> forall i, j :: j <= maxCol ==> Val(h.value, i, j) == Val(g, i, j)
  {
    var g2 := TotalColumn(g, maxRow, maxCol, tr, tc, flags, year);
    var g3 := PercentColumn(g2, maxRow, maxCol, tr, tc, program, flags, year);
    if g3.None? then None
    else MonthlySums(g3.value, maxRow, maxCol, tr, tc, program, flags, year)
  }

  /** apply_row_sum_formulas */
  method ApplyRowSumFormulas(ws: Worksheet, maxRow: nat, maxCol: nat, tr: Option<nat>, tc: Option<nat>, program: Program, flags: Flags, year: int)
    returns (ok: bool)
    requires RowNo(tr)
    modifies ws
    ensures ok <==> RowSumPasses(old(ws.grid), maxRow, maxCol, tr, tc, program, flags, year).Some?
    ensures ok ==> ws.grid == RowSumPasses(old(ws.grid), maxRow, maxCol, tr, tc, program, flags, year).value
  {
    AddTotalColumn(ws, maxRow, maxCol, tr, tc, flags, year);
    ok := AddPercentageColumn(ws, maxRow, maxCol, tr, tc, program, flags, year);
    if !ok {
      return;
    }
    ok := AddMonthlySums(ws, maxRow, maxCol, tr, tc, program, flags, year);
  }

  /**
   * apply_excel_formatting_and_formulas: load, find the total rows, run the
   * column sums, the total, percent and monthly columns, and save.
   */
  method ApplyExcelFormattingAndFormulas(file: Grid, program: Program, flags: Flags, year: int) returns (saved: Option<Grid>)
    ensures saved == Finalize(file, program, flags, year)
  {
    var ws := new Worksheet(file);
    var maxCol, maxRow := MaxCol(ws.grid), MaxRow(ws.grid);
    var tr, tc := FindTotalRows(ws);
    TotalRowsApart(file, maxRow);
    var ok := ApplyColumnSums(ws, tr, tc, maxCol, flags);
    if !ok {
      return None;
    }
    ok := ApplyRowSumFormulas(ws, maxRow, maxCol, tr, tc, program, flags, year);
    if !ok {
      return None;
    }
    saved := Some(ws.grid);
  }

  /**
   * per_nationality_stage1 / per_nat_stage1_finalizer from the loaded table
   * on: split at the first Camping row, splice the total rows in, write the
   * sheet and finish it.  When finishing fails, stage 1 has logged the error
   * and left the sheet as `to_excel` wrote it; the finalizer raises
   * (`None`), as it does for a table without a Camping row.
   */
  function NatStage1Output(header: seq<Cell>, rows: Table, program: Program, flags: Flags, year: int): (out: Option<Grid>)
    requires |header| >= 1 && Shaped(rows, |header|)
    ensures program.Stage1? ==> out.Some?
  {
    var spliced := SpliceAtCamping(rows, |header|, program.Stage1?);
    if spliced.None? then None
    else
      SpliceKeepsShape(rows, CampingFirstIndex(rows), |header|);
      var file := ToSheet(header, spliced.value);
      var fin := Finalize(file, program, flags, year);
      if program.Stage1? && fin.None? then Some(file) else fin
  }

  // ---------------------------------------------------------------------
  // What the passes compute

  /**
   * Excel's value of the Total Rooms formula is the direct rooms sum once
   * there is a rooms row (with Total Rooms on row 2 the range 2:1 would be
   * turned round and take in the header and the total row itself).
   */
  lemma RoomsFormulaMatchesDirect(g: Grid, tr: nat, c: nat)
    requires tr >= 3
    ensures RangeValue(g, Ref(2, c), Ref(tr - 1, c)) == ColSum(g, c, 2, tr)
  {
    RectSumColumn(g, 2, tr - 1, c);
  }

  /**
   * The corrected Total Camping formula: with at least one camping row, its
   * value is the direct camping sum over rows tr+2 .. tc-1, the spacer row
   * left out.
   */
  lemma CampingFormulaMatchesDirect(g: Grid, tr: nat, tc: nat, c: nat)
    requires tr + 3 <= tc
    ensures var f := CampingFormulaCorrected(tr, tc, c);
      RangeValue(g, f.first, f.last) == NumOr0(CampingEntry(g, tr, tc, c, false))
  {
    RectSumColumn(g, tr + 2, tc - 1, c);
  }

  /**
   * The formula as written leaves out the last camping row: with two or
   * more camping rows its value falls short of the direct sum by row tc-1.
   */
  lemma CampingFormulaMissesLastRow(g: Grid, tr: nat, tc: nat, c: nat)
    requires tr + 4 <= tc
    ensures var f := CampingFormulaAsWritten(tr, tc, c);
      RangeValue(g, f.first, f.last) == ColSum(g, c, tr + 2, tc) - NumOr0(Val(g, tc - 1, c))
    ensures CampingEntry(g, tr, tc, c, true).Fx?
    ensures RangeValue(g, CampingEntry(g, tr, tc, c, true).f.first, CampingEntry(g, tr, tc, c, true).f.last)
      == NumOr0(CampingEntry(g, tr, tc, c, false)) - NumOr0(Val(g, tc - 1, c))
  {
    RectSumColumn(g, tr + 2, tc - 2, c);
  }

  /**
   * A sheet that shows it: Total Rooms on row 2, camping rows 4 and 5, Total
   * Camping on row 6, and 1 on row 5 of column B.  The formula as written
   * gives 0, the direct sum 1.
   */
  lemma CampingFormulaCounterexample()
    ensures var g := SetVal(Grid(map[], 0, 0), 5, 2, Num(1.0));
      var f := CampingFormulaAsWritten(2, 6, 2);
      RangeValue(g, f.first, f.last) == 0.0 && ColSum(g, 2, 4, 6) == 1.0
  {
    var g := SetVal(Grid(map[], 0, 0), 5, 2, Num(1.0));
    CampingFormulaMissesLastRow(g, 2, 6, 2);
    assert ColSum(g, 2, 4, 5) == 0.0;
  }

  /** A month formula's value is the direct month sum. */
  lemma MonthFormulaMatchesDirect(g: Grid, sp: Span, r: nat)
    requires sp.first <= sp.last
    ensures MonthCell(g, sp, true, r).Fx?
    ensures RangeValue(g, MonthCell(g, sp, true, r).f.first, MonthCell(g, sp, true, r).f.last) == NumOr0(MonthCell(g, sp, false, r))
  {
    RectSumRow(g, r, sp.first, sp.last);
  }

  /** Row i of the direct percent column, read off PercentDirectEntry. */
  lemma PercentDirectCell(g: Grid, maxRow: nat, maxCol: nat, tr: nat, tc: Option<nat>, program: Program, flags: Flags, year: int, i: int)
    requires 2 <= i <= maxRow && (program.Stage1? || flags.doCalculations)
    ensures var e := PercentDirectEntry(g, maxCol + 1, tr, tc, ColSum(g, maxCol + 1, 2, tr), ColSum(g, maxCol + 1, tr + 2, maxRow + 1), program == Stage1, i);
      Val(PercentDirect(g, maxRow, maxCol, Some(tr), tc, program, flags, year).value, i, maxCol + 2)
      == if e.Some? then e.value else Val(g, i, maxCol + 2)
  {
  }

  /** Shares of one divisor add up: the share of a sum is the sum of the shares. */
  lemma RatioAdd(a: real, b: real, d: real)
    ensures Ratio(a + b, d) == Ratio(a, d) + Ratio(b, d)
  {
    if d != 0.0 {
      assert (Ratio(a, d) + Ratio(b, d)) * d == a + b;
    }
  }

  /** A non-zero divisor's share of itself is the whole. */
  lemma RatioSelf(d: real)
    requires d != 0.0
    ensures Ratio(d, d) == 1.0
  {
  }

  /** No cell of column c in rows lo .. hi-1 holds a number. */
  predicate NoNumbers(g: Grid, c: int, lo: int, hi: int)
  {
    forall i :: lo <= i < hi ==> !Val(g, i, c).Num?
  }

  /**
   * Every row of lo .. hi-1 either holds its numeric total's share of d in
   * column pc of h, or has a total worth 0 and nothing numeric there.
   */
  ghost predicate SharesOf(g: Grid, h: Grid, tcol: int, pc: int, lo: int, hi: int, d: real)
  {
    forall i :: lo <= i < hi ==>
      (Val(g, i, tcol).Num? && Val(h, i, pc) == Num(Ratio(Val(g, i, tcol).r, d)))
      || (!Val(h, i, pc).Num? && NumOr0(Val(g, i, tcol)) == 0.0)
  }

  /**
   * Shares of a divisor d add up: when every row of lo .. hi-1 either holds
   * its numeric total's share of d in column pc, or has a total worth 0 and
   * nothing numeric in column pc, the shares sum to the totals' sum's share.
   */
  lemma {:induction false} SharesSum(g: Grid, h: Grid, tcol: int, pc: int, lo: int, hi: int, d: real)
    requires SharesOf(g, h, tcol, pc, lo, hi, d)
    ensures ColSum(h, pc, lo, hi) == Ratio(ColSum(g, tcol, lo, hi), d)
    decreases hi - lo
  {
    if lo < hi {
      SharesSum(g, h, tcol, pc, lo, hi - 1, d);
      RatioAdd(ColSum(g, tcol, lo, hi - 1), NumOr0(Val(g, hi - 1, tcol)), d);
      assert NumOr0(Val(h, hi - 1, pc)) == Ratio(NumOr0(Val(g, hi - 1, tcol)), d);
    }
  }

  /** Shares of the column's own sum add up to 1. */
  lemma SharesAddUp(g: Grid, h: Grid, tcol: int, pc: int, lo: int, hi: int)
    requires ColSum(g, tcol, lo, hi) != 0.0
    requires SharesOf(g, h, tcol, pc, lo, hi, ColSum(g, tcol, lo, hi))
    ensures ColSum(h, pc, lo, hi) == 1.0
  {
    SharesSum(g, h, tcol, pc, lo, hi, ColSum(g, tcol, lo, hi));
    RatioSelf(ColSum(g, tcol, lo, hi));
  }

  /**
   * The direct percent column of the rooms rows adds up to 100% whenever
   * the rooms divisor is not zero and the percent column held no numbers
   * before.
   */
  lemma RoomsSharesSumToOne(g: Grid, maxRow: nat, maxCol: nat, tr: nat, tc: Option<nat>, program: Program, flags: Flags, year: int)
    requires 2 <= tr <= maxRow + 1 && (program.Stage1? || flags.doCalculations)
    requires !(tc.Some? && tc.value < tr)
    requires NoNumbers(g, maxCol + 2, 2, tr)
    requires ColSum(g, maxCol + 1, 2, tr) != 0.0
    ensures PercentDirect(g, maxRow, maxCol, Some(tr), tc, program, flags, year).Some?
    ensures ColSum(PercentDirect(g, maxRow, maxCol, Some(tr), tc, program, flags, year).value, maxCol + 2, 2, tr) == 1.0
  {
    var tcol, pc := maxCol + 1, maxCol + 2;
    var h := PercentDirect(g, maxRow, maxCol, Some(tr), tc, program, flags, year).value;
    var d := ColSum(g, tcol, 2, tr);
    forall i | 2 <= i < tr
      ensures (Val(g, i, tcol).Num? && Val(h, i, pc) == Num(Ratio(Val(g, i, tcol).r, d)))
        || (!Val(h, i, pc).Num? && NumOr0(Val(g, i, tcol)) == 0.0)
    {
      PercentDirectCell(g, maxRow, maxCol, tr, tc, program, flags, year, i);
    }
    SharesAddUp(g, h, tcol, pc, 2, tr);
  }

  /** One camping row's share: a share of the camping divisor, or nothing worth counting. */
  lemma CampingShare(g: Grid, maxRow: nat, maxCol: nat, tr: nat, tc: Option<nat>, program: Program, flags: Flags, year: int, i: int)
    requires 2 <= tr && (program.Stage1? || flags.doCalculations)
    requires tc.Some? ==> tr < tc.value && NumOr0(Val(g, tc.value, maxCol + 1)) == 0.0
    requires tr + 2 <= i <= maxRow && !Val(g, i, maxCol + 2).Num?
    ensures var h := PercentDirect(g, maxRow, maxCol, Some(tr), tc, program, flags, year).value;
      var v := Val(g, i, maxCol + 1);
      (v.Num? && Val(h, i, maxCol + 2) == Num(Ratio(v.r, ColSum(g, maxCol + 1, tr + 2, maxRow + 1))))
      || (!Val(h, i, maxCol + 2).Num? && NumOr0(v) == 0.0)
  {
    PercentDirectCell(g, maxRow, maxCol, tr, tc, program, flags, year, i);
  }

  /** Every camping row's share, at once. */
  lemma CampingRowShares(g: Grid, maxRow: nat, maxCol: nat, tr: nat, tc: Option<nat>, program: Program, flags: Flags, year: int)
    requires 2 <= tr && (program.Stage1? || flags.doCalculations)
    requires tc.Some? ==> tr < tc.value && NumOr0(Val(g, tc.value, maxCol + 1)) == 0.0
    requires NoNumbers(g, maxCol + 2, tr + 2, maxRow + 1)
    ensures PercentDirect(g, maxRow, maxCol, Some(tr), tc, program, flags, year).Some?
    ensures SharesOf(g, PercentDirect(g, maxRow, maxCol, Some(tr), tc, program, flags, year).value,
      maxCol + 1, maxCol + 2, tr + 2, maxRow + 1, ColSum(g, maxCol + 1, tr + 2, maxRow + 1))
  {
    var h := PercentDirect(g, maxRow, maxCol, Some(tr), tc, program, flags, year).value;
    var tcol, pc, d := maxCol + 1, maxCol + 2, ColSum(g, maxCol + 1, tr + 2, maxRow + 1);
    forall i | tr + 2 <= i < maxRow + 1
      ensures (Val(g, i, tcol).Num? && Val(h, i, pc) == Num(Ratio(Val(g, i, tcol).r, d)))
        || (!Val(h, i, pc).Num? && NumOr0(Val(g, i, tcol)) == 0.0)
    {
      CampingShare(g, maxRow, maxCol, tr, tc, program, flags, year, i);
    }
  }

  /**
   * The camping shares add up to 100% as well, provided the Total Camping
   * row's own total is worth 0 (the camping divisor runs over it) and the
   * percent column held no numbers before.
   */
  lemma CampingSharesSumToOne(g: Grid, maxRow: nat, maxCol: nat, tr: nat, tc: Option<nat>, program: Program, flags: Flags, year: int)
    requires 2 <= tr && (program.Stage1? || flags.doCalculations)
    requires tc.Some? ==> tr < tc.value && NumOr0(Val(g, tc.value, maxCol + 1)) == 0.0
    requires NoNumbers(g, maxCol + 2, tr + 2, maxRow + 1)
    requires ColSum(g, maxCol + 1, tr + 2, maxRow + 1) != 0.0
    ensures PercentDirect(g, maxRow, maxCol, Some(tr), tc, program, flags, year).Some?
    ensures ColSum(PercentDirect(g, maxRow, maxCol, Some(tr), tc, program, flags, year).value, maxCol + 2, tr + 2, maxRow + 1) == 1.0
  {
    CampingRowShares(g, maxRow, maxCol, tr, tc, program, flags, year);
    SharesAddUp(g, PercentDirect(g, maxRow, maxCol, Some(tr), tc, program, flags, year).value, maxCol + 1, maxCol + 2, tr + 2, maxRow + 1);
  }

  /** Column c is empty outside the header row. */
  ghost predicate EmptyBelowHeader(g: Grid, c: int)
  {
    forall i :: i != 1 ==> Val(g, i, c) == Empty
  }

  /**
   * With an empty total column the direct percent pass finds nothing to
   * divide: it writes its header and no other cell.
   */
  lemma PercentOfEmptyTotals(g: Grid, maxRow: nat, maxCol: nat, tr: nat, tc: Option<nat>, program: Program, flags: Flags, year: int)
    requires EmptyBelowHeader(g, maxCol + 1)
    ensures PercentDirect(g, maxRow, maxCol, Some(tr), tc, program, flags, year).Some?
    ensures forall i, j :: i != 1 ==> Val(PercentDirect(g, maxRow, maxCol, Some(tr), tc, program, flags, year).value, i, j) == Val(g, i, j)
  {
    var h := PercentDirect(g, maxRow, maxCol, Some(tr), tc, program, flags, year).value;
    var pc := maxCol + 2;
    forall i | i != 1
      ensures Val(h, i, pc) == Val(g, i, pc)
    {
      assert Val(g, i, maxCol + 1) == Empty;
    }
  }

  /**
   * With the flags stage 1 ships (no formulas, no calculations) the pass
   * saves a sheet exactly when a Total Rooms row exists, and then writes
   * the eight headers in row 1, columns max_col+1 .. max_col+8, and nothing
   * else: the percent pass runs but finds no numeric total to divide.
   */
  lemma Stage1ShippedWritesOnlyHeaders(g: Grid, year: int)
    requires Bounded(g)
    ensures var out := Finalize(g, Stage1, STAGE1_FLAGS, year);
      && (out.None? <==> LastLabelled(g, "Total Rooms", MaxRow(g)).None?)
      && (out.Some? ==> forall i, j :: (i != 1 || j <= MaxCol(g) || j > MaxCol(g) + 8) ==> Val(out.value, i, j) == Val(g, i, j))
      && (out.Some? ==> Val(out.value, 1, MaxCol(g) + 1) == Text(TotalHeader(year)))
      && (out.Some? ==> Val(out.value, 1, MaxCol(g) + 2) == Text(PercentHeader(year)))
  {
    var maxRow, maxCol := MaxRow(g), MaxCol(g);
    var tr := LastLabelled(g, "Total Rooms", maxRow);
    var tc := LastLabelled(g, "Total Camping", maxRow);
    var g2 := TotalColumn(g, maxRow, maxCol, tr, tc, STAGE1_FLAGS, year);
    assert Finalize(g, Stage1, STAGE1_FLAGS, year) == RowSumPasses(g, maxRow, maxCol, tr, tc, Stage1, STAGE1_FLAGS, year);
    assert PercentColumn(g2, maxRow, maxCol, tr, tc, Stage1, STAGE1_FLAGS, year) == PercentDirect(g2, maxRow, maxCol, tr, tc, Stage1, STAGE1_FLAGS, year);
    if tr.Some? {
      var tcol := maxCol + 1;
      assert EmptyBelowHeader(g2, tcol) by {
        forall i | i != 1
          ensures Val(g2, i, tcol) == Empty
        {
          OutsideIsBlank(g, i, tcol);
        }
      }
      PercentOfEmptyTotals(g2, maxRow, maxCol, tr.value, tc, Stage1, STAGE1_FLAGS, year);
    }
  }
}
