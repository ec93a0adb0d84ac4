/**
 * An openpyxl worksheet as the passes see it.  Like openpyxl itself, the
 * model keeps the cells that exist in a dictionary keyed by (row, column),
 * both numbered from 1, together with `max_row` and `max_column`.  A cell
 * holds a value and its fill, as far as the passes tell fills apart: none,
 * solid black, or some other solid colour.  Reading a cell that does not
 * exist gives an empty, unfilled cell; writing one creates it and grows
 * `max_row` / `max_column`.
 */
module Sheets {
  import opened Cells

  /**
   * A cell's fill.  openpyxl gives an unfilled cell a PatternFill whose start
   * colour has rgb "00000000", and `PatternFill(start_color="000000")` stores
   * the same rgb; the yellow and blue fills store another one.
   */
  datatype Fill =
    | NoFill
    | SolidBlack
    | SolidColour

  datatype Slot = Slot(value: Cell, fill: Fill)

  const Blank := Slot(Empty, NoFill)

  /** `ws._cells`, `ws.max_row` and `ws.max_column` */
  datatype Grid = Grid(cells: map<(int, int), Slot>, rows: nat, cols: nat)

  function Max(a: int, b: int): int { if a < b then b else a }

  function Min(a: int, b: int): int { if a < b then a else b }

  /** `ws.max_row` */
  function MaxRow(g: Grid): nat { g.rows }

  /** `ws.max_column` */
  function MaxCol(g: Grid): nat { g.cols }

  function At(g: Grid, r: int, c: int): Slot
  {
    if (r, c) in g.cells then g.cells[(r, c)] else Blank
  }

  /** `ws.cell(row=r, column=c).value` */
  function Val(g: Grid, r: int, c: int): Cell { At(g, r, c).value }

  /** `ws.cell(row=r, column=c).fill` */
  function FillOf(g: Grid, r: int, c: int): Fill { At(g, r, c).fill }

  /** The cell at (r, c) has been given a solid black fill. */
  predicate Black(g: Grid, r: int, c: int) { At(g, r, c).fill == SolidBlack }

  /**
   * `fill.start_color.rgb == "00000000"`: true of a black cell and of an
   * unfilled one alike, false only of a cell filled with another colour.
   */
  predicate RgbZero(g: Grid, r: int, c: int) { At(g, r, c).fill != SolidColour }

  /** Replace the cell at (r, c), growing the sheet to reach it. */
  function Put(g: Grid, r: nat, c: nat, s: Slot): (h: Grid)
    requires 1 <= r && 1 <= c
    ensures h.rows == Max(g.rows, r) && h.cols == Max(g.cols, c)
    ensures forall i, j :: At(h, i, j) == if i == r && j == c then s else At(g, i, j)
  {
    Grid(g.cells[(r, c) := s], Max(g.rows, r), Max(g.cols, c))
  }

  /** `ws.cell(row=r, column=c).value = v`; the fill is kept. */
  function SetVal(g: Grid, r: nat, c: nat, v: Cell): (h: Grid)
    requires 1 <= r && 1 <= c
    ensures h.rows == Max(g.rows, r) && h.cols == Max(g.cols, c)
    ensures forall i, j :: Val(h, i, j) == if i == r && j == c then v else Val(g, i, j)
    ensures forall i, j :: FillOf(h, i, j) == FillOf(g, i, j)
  {
    Put(g, r, c, Slot(v, At(g, r, c).fill))
  }

  /** `ws.cell(row=r, column=c).fill = <solid black>`; the value is kept. */
  function Paint(g: Grid, r: nat, c: nat): (h: Grid)
    requires 1 <= r && 1 <= c
    ensures h.rows == Max(g.rows, r) && h.cols == Max(g.cols, c)
    ensures forall i, j :: Val(h, i, j) == Val(g, i, j)
    ensures forall i, j :: FillOf(h, i, j) == if i == r && j == c then SolidBlack else FillOf(g, i, j)
  {
    Put(g, r, c, Slot(At(g, r, c).value, SolidBlack))
  }

  /**
   * `cell.value = v` together with `cell.fill = <a colour other than black>`.
   */
  function Highlight(g: Grid, r: nat, c: nat, v: Cell): (h: Grid)
    requires 1 <= r && 1 <= c
    ensures h.rows == Max(g.rows, r) && h.cols == Max(g.cols, c)
    ensures forall i, j :: Val(h, i, j) == if i == r && j == c then v else Val(g, i, j)
    ensures forall i, j :: FillOf(h, i, j) == if i == r && j == c then SolidColour else FillOf(g, i, j)
  {
    Put(g, r, c, Slot(v, SolidColour))
  }

  /** What `ws.insert_rows(at, n)` leaves at (i, j). */
  function RowsOpenedAt(g: Grid, at: int, n: nat, i: int, j: int): Slot
  {
    if i < at then At(g, i, j) else if i < at + n then Blank else At(g, i - n, j)
  }

  /** What `ws.insert_cols(at, n)` leaves at (i, j). */
  function ColsOpenedAt(g: Grid, at: int, n: nat, i: int, j: int): Slot
  {
    if j < at then At(g, i, j) else if j < at + n then Blank else At(g, i, j - n)
  }

  /** What `ws.delete_cols(at, n)` leaves at (i, j). */
  function ColsClosedAt(g: Grid, at: int, n: nat, i: int, j: int): Slot
  {
    if j < at then At(g, i, j) else At(g, i, j + n)
  }

  /**
   * `ws.insert_rows(at, n)`: every cell from row `at` down moves `n` rows
   * lower, so the `n` rows opened at `at` are empty.  When no row lies at or
   * below `at` nothing moves and the sheet keeps its height.
   */
  function InsertRows(g: Grid, at: nat, n: nat): (h: Grid)
    requires 1 <= at
    ensures h.cols == g.cols
    ensures h.rows == if at <= g.rows then g.rows + n else g.rows
    ensures forall i, j :: At(h, i, j) == RowsOpenedAt(g, at, n, i, j)
  {
    RowsInserted(g, at, n, at)
  }

  /**
   * The construction behind InsertRows.  `steps` only counts down to it, so
   * that proofs using InsertRows reason from the contract alone.
   */
  function RowsInserted(g: Grid, at: nat, n: nat, steps: nat): (h: Grid)
    requires 1 <= at
    ensures h.cols == g.cols
    ensures h.rows == if at <= g.rows then g.rows + n else g.rows
    ensures forall i, j :: At(h, i, j) == RowsOpenedAt(g, at, n, i, j)
    decreases steps
  {
    if steps > 0 then RowsInserted(g, at, n, steps - 1)
    else
      var cells := map k | k in g.cells :: (if k.0 >= at then (k.0 + n, k.1) else k) := g.cells[k];
      var h := Grid(cells, if at <= g.rows then g.rows + n else g.rows, g.cols);
      assert forall i, j :: At(h, i, j) == RowsOpenedAt(g, at, n, i, j) by {
        forall i, j ensures At(h, i, j) == RowsOpenedAt(g, at, n, i, j) {
          if i < at {
            assert (i, j) in cells <==> (i, j) in g.cells;
          } else if i >= at + n {
            assert (i, j) in cells <==> (i - n, j) in g.cells;
          } else {
            assert (i, j) !in cells;
          }
        }
      }
      h
  }

  /**
   * `ws.insert_cols(at, n)`: every cell from column `at` rightwards moves `n`
   * columns right and the opened columns are empty.
   */
  function InsertCols(g: Grid, at: nat, n: nat): (h: Grid)
    requires 1 <= at
    ensures h.rows == g.rows
    ensures h.cols == if at <= g.cols then g.cols + n else g.cols
    ensures forall i, j :: At(h, i, j) == ColsOpenedAt(g, at, n, i, j)
  {
    ColsInserted(g, at, n, at)
  }

  /**
   * The construction behind InsertCols.  `steps` only counts down to it, so
   * that proofs using InsertCols reason from the contract alone.
   */
  function ColsInserted(g: Grid, at: nat, n: nat, steps: nat): (h: Grid)
    requires 1 <= at
    ensures h.rows == g.rows
    ensures h.cols == if at <= g.cols then g.cols + n else g.cols
    ensures forall i, j :: At(h, i, j) == ColsOpenedAt(g, at, n, i, j)
    decreases steps
  {
    if steps > 0 then ColsInserted(g, at, n, steps - 1)
    else
      var cells := map k | k in g.cells :: (if k.1 >= at then (k.0, k.1 + n) else k) := g.cells[k];
      var h := Grid(cells, g.rows, if at <= g.cols then g.cols + n else g.cols);
      assert forall i, j :: At(h, i, j) == ColsOpenedAt(g, at, n, i, j) by {
        forall i, j ensures At(h, i, j) == ColsOpenedAt(g, at, n, i, j) {
          if j < at {
            assert (i, j) in cells <==> (i, j) in g.cells;
          } else if j >= at + n {
            assert (i, j) in cells <==> (i, j - n) in g.cells;
          } else {
            assert (i, j) !in cells;
          }
        }
      }
      h
  }

  /**
   * `ws.delete_cols(at, n)`: the cells of columns `at .. at+n-1` disappear and
   * the cells right of them move `n` places left.
   */
  function DeleteCols(g: Grid, at: nat, n: nat): (h: Grid)
    requires 1 <= at
    ensures h.rows == g.rows
    ensures h.cols == if at <= g.cols then Max(at - 1, g.cols - n) else g.cols
    ensures forall i, j :: At(h, i, j) == ColsClosedAt(g, at, n, i, j)
  {
    ColsDeleted(g, at, n, at)
  }

  /**
   * The construction behind DeleteCols.  `steps` only counts down to it, so
   * that proofs using DeleteCols reason from the contract alone.
   */
  function ColsDeleted(g: Grid, at: nat, n: nat, steps: nat): (h: Grid)
    requires 1 <= at
    ensures h.rows == g.rows
    ensures h.cols == if at <= g.cols then Max(at - 1, g.cols - n) else g.cols
    ensures forall i, j :: At(h, i, j) == ColsClosedAt(g, at, n, i, j)
    decreases steps
  {
    if steps > 0 then ColsDeleted(g, at, n, steps - 1)
    else
      var cells := map k | k in g.cells && (k.1 < at || k.1 >= at + n) :: (if k.1 < at then k else (k.0, k.1 - n)) := g.cells[k];
      var h := Grid(cells, g.rows, if at <= g.cols then Max(at - 1, g.cols - n) else g.cols);
      assert forall i, j :: At(h, i, j) == ColsClosedAt(g, at, n, i, j) by {
        forall i, j ensures At(h, i, j) == ColsClosedAt(g, at, n, i, j) {
          if j < at {
            assert (i, j) in cells <==> (i, j) in g.cells;
          } else {
            assert (i, j) in cells <==> (i, j + n) in g.cells;
          }
        }
      }
      h
  }

  /**
   * What `ws.move_range` of column `from`, rows 1 .. max_row, by `to - from`
   * columns leaves at (i, j): the moved cells replace those at `to` and the
   * source cells are gone.  A move by zero columns does nothing.
   */
  function ColMovedAt(g: Grid, from: int, to: int, i: int, j: int): Slot
  {
    if from == to || !(1 <= i <= Max(g.rows, 1)) then At(g, i, j)
    else if j == to then At(g, i, from)
    else if j == from then Blank
    else At(g, i, j)
  }

  /**
   * `ws.move_range(f"{L}1:{L}{ws.max_row}", cols=to - from)` for the column
   * letter L of `from`.  openpyxl creates each source cell before moving it,
   * so the target column holds cells down to `max_row` afterwards.
   */
  function MoveCol(g: Grid, from: nat, to: nat): (h: Grid)
    requires 1 <= from && 1 <= to
    ensures h.rows == if from == to then g.rows else Max(g.rows, 1)
    ensures h.cols == if from == to then g.cols else Max(g.cols, to)
    ensures forall i, j :: At(h, i, j) == ColMovedAt(g, from, to, i, j)
  {
    ColMoved(g, from, to, from)
  }

  /**
   * The construction behind MoveCol.  `steps` only counts down to it, so
   * that proofs using MoveCol reason from the contract alone.
   */
  function ColMoved(g: Grid, from: nat, to: nat, steps: nat): (h: Grid)
    requires 1 <= from && 1 <= to
    ensures h.rows == if from == to then g.rows else Max(g.rows, 1)
    ensures h.cols == if from == to then g.cols else Max(g.cols, to)
    ensures forall i, j :: At(h, i, j) == ColMovedAt(g, from, to, i, j)
    decreases steps
  {
    if steps > 0 then ColMoved(g, from, to, steps - 1)
    else
      if from == to then g
      else
        var r := Max(g.rows, 1);
        var kept := set k | k in g.cells && !(1 <= k.0 <= r && (k.1 == from || k.1 == to));
        var moved := set i | 1 <= i <= r :: (i, to);
        var cells := map k | k in kept + moved :: if k.1 == to && 1 <= k.0 <= r then At(g, k.0, from) else g.cells[k];
        var h := Grid(cells, r, Max(g.cols, to));
        assert forall i, j :: At(h, i, j) == ColMovedAt(g, from, to, i, j) by {
          forall i, j ensures At(h, i, j) == ColMovedAt(g, from, to, i, j) {
            if 1 <= i <= r && j == to {
              assert (i, j) in moved;
            } else if 1 <= i <= r && j == from {
              assert (i, j) !in cells;
            } else {
              assert (i, j) !in moved;
              assert (i, j) in cells <==> (i, j) in g.cells;
            }
          }
        }
        h
  }

  /**
   * A loop writing down column `c` over rows lo .. hi-1: row i receives
   * `e(i)` when that is `Some`, and is left alone when it is `None`.
   */
  function FillCol(g: Grid, c: nat, lo: nat, hi: int, e: nat -> Option<Cell>): (h: Grid)
    requires 1 <= c && 1 <= lo
    ensures forall i, j :: Val(h, i, j) == if j == c && lo <= i < hi && e(i).Some? then e(i).value else Val(g, i, j)
    ensures forall i, j :: FillOf(h, i, j) == FillOf(g, i, j)
    ensures g.rows <= h.rows && g.cols <= h.cols
    decreases hi - lo
  {
    if hi <= lo then g
    else
      var p := FillCol(g, c, lo, hi - 1, e);
      if e(hi - 1).Some? then SetVal(p, hi - 1, c, e(hi - 1).value) else p
  }

  /** A FillCol that writes nothing returns the sheet as it was. */
  lemma {:induction false} FillColNone(g: Grid, c: nat, lo: nat, hi: int, e: nat -> Option<Cell>)
    requires 1 <= c && 1 <= lo
    requires forall i: nat :: lo <= i < hi ==> e(i).None?
    ensures FillCol(g, c, lo, hi, e) == g
    decreases hi - lo
  {
    if lo < hi {
      FillColNone(g, c, lo, hi - 1, e);
    }
  }

  /** A FillCol inside the sheet leaves `max_row` and `max_column` as they were. */
  lemma {:induction false} FillColSize(g: Grid, c: nat, lo: nat, hi: int, e: nat -> Option<Cell>)
    requires 1 <= c <= g.cols && 1 <= lo && hi <= g.rows + 1
    ensures FillCol(g, c, lo, hi, e).rows == g.rows && FillCol(g, c, lo, hi, e).cols == g.cols
    decreases hi - lo
  {
    if lo < hi {
      FillColSize(g, c, lo, hi - 1, e);
    }
  }

  /**
   * A loop writing along row `r` over columns lo .. hi-1: column j
   * receives `e(j)`.
   */
  function FillRow(g: Grid, r: nat, lo: nat, hi: int, e: nat -> Cell): (h: Grid)
    requires 1 <= r && 1 <= lo
    ensures forall i, j :: Val(h, i, j) == if i == r && lo <= j < hi then e(j) else Val(g, i, j)
    ensures forall i, j :: FillOf(h, i, j) == FillOf(g, i, j)
    ensures g.rows <= h.rows && g.cols <= h.cols
    decreases hi - lo
  {
    if hi <= lo then g else SetVal(FillRow(g, r, lo, hi - 1, e), r, hi - 1, e(hi - 1))
  }

  /** FillCol where every written cell also gets a yellow fill. */
  function MarkCol(g: Grid, c: nat, lo: nat, hi: int, e: nat -> Option<Cell>): (h: Grid)
    requires 1 <= c && 1 <= lo
    ensures forall i, j :: Val(h, i, j) == if j == c && lo <= i < hi && e(i).Some? then e(i).value else Val(g, i, j)
    ensures forall i, j :: FillOf(h, i, j) == if j == c && lo <= i < hi && e(i).Some? then SolidColour else FillOf(g, i, j)
    ensures g.rows <= h.rows && g.cols <= h.cols
    decreases hi - lo
  {
    if hi <= lo then g
    else
      var p := MarkCol(g, c, lo, hi - 1, e);
      if e(hi - 1).Some? then Highlight(p, hi - 1, c, e(hi - 1).value) else p
  }

  /** Every stored cell lies inside `max_row` x `max_column`, as openpyxl keeps it. */
  predicate Bounded(g: Grid)
  {
    forall k :: k in g.cells ==> 1 <= k.0 <= g.rows && 1 <= k.1 <= g.cols
  }

  /** Outside a bounded sheet every cell is empty. */
  lemma OutsideIsBlank(g: Grid, i: int, j: int)
    requires Bounded(g) && !(1 <= i <= g.rows && 1 <= j <= g.cols)
    ensures At(g, i, j) == Blank
  {
  }

  // ---------------------------------------------------------------------
  // Sums that add the numeric cells of a range and skip everything else

  /** Numeric values in column `c`, rows `lo .. hi-1`. */
  function ColSum(g: Grid, c: int, lo: int, hi: int): real
    decreases hi - lo
  {
    if hi <= lo then 0.0 else ColSum(g, c, lo, hi - 1) + NumOr0(Val(g, hi - 1, c))
  }

  /** Numeric values in row `r`, columns `lo .. hi-1`. */
  function RowSum(g: Grid, r: int, lo: int, hi: int): real
    decreases hi - lo
  {
    if hi <= lo then 0.0 else RowSum(g, r, lo, hi - 1) + NumOr0(Val(g, r, hi - 1))
  }

  /** A column sum reads only its own range. */
  lemma {:induction false} ColSumFrame(g: Grid, h: Grid, c: int, lo: int, hi: int)
    requires forall i :: lo <= i < hi ==> Val(g, i, c) == Val(h, i, c)
    ensures ColSum(g, c, lo, hi) == ColSum(h, c, lo, hi)
    decreases hi - lo
  {
    if lo < hi {
      ColSumFrame(g, h, c, lo, hi - 1);
    }
  }

  /** A row sum reads only its own range. */
  lemma {:induction false} RowSumFrame(g: Grid, h: Grid, r: int, lo: int, hi: int)
    requires forall j :: lo <= j < hi ==> Val(g, r, j) == Val(h, r, j)
    ensures RowSum(g, r, lo, hi) == RowSum(h, r, lo, hi)
    decreases hi - lo
  {
    if lo < hi {
      RowSumFrame(g, h, r, lo, hi - 1);
    }
  }

  /**
   * Excel's value of `=SUM(a:b)` over plain values: the numeric cells of the
   * rectangle spanned by the two corners, whichever way round they are given.
   */
  function RangeValue(g: Grid, a: Ref, b: Ref): real
  {
    RectSum(g, Min(a.row, b.row), Max(a.row, b.row), Min(a.col, b.col), Max(a.col, b.col))
  }

  /** Numeric cells of rows `r1 .. r2`, columns `c1 .. c2`, bounds included. */
  function RectSum(g: Grid, r1: int, r2: int, c1: int, c2: int): real
    decreases r2 - r1
  {
    if r2 < r1 then 0.0 else RectSum(g, r1, r2 - 1, c1, c2) + RowSum(g, r2, c1, c2 + 1)
  }

  /** A one-column rectangle sums like the column. */
  lemma {:induction false} RectSumColumn(g: Grid, r1: int, r2: int, c: int)
    requires r1 <= r2 + 1
    ensures RectSum(g, r1, r2, c, c) == ColSum(g, c, r1, r2 + 1)
    decreases r2 - r1
  {
    if r1 <= r2 {
      RectSumColumn(g, r1, r2 - 1, c);
      assert RowSum(g, r2, c, c + 1) == NumOr0(Val(g, r2, c));
    }
  }

  /** A one-row rectangle sums like the row. */
  lemma RectSumRow(g: Grid, r: int, c1: int, c2: int)
    ensures RectSum(g, r, r, c1, c2) == RowSum(g, r, c1, c2 + 1)
  {
    assert RectSum(g, r, r - 1, c1, c2) == 0.0;
  }

  // ---------------------------------------------------------------------
  // What Excel shows for a formula whose references hold plain values

  /**
   * A referenced cell as an arithmetic operand: a number, 0 for an empty
   * cell, and `#VALUE!` (`None`) for text.  A formula cell is not evaluated
   * here, so it counts as no value either.
   */
  function Operand(g: Grid, a: Ref): Option<real>
  {
    match Val(g, a.row, a.col)
    case Num(x) => Some(x)
    case Empty => Some(0.0)
    case _ => None
  }

  /** `SUM(r1, r2, ...)` adds the numeric cells among the references. */
  function RefsSum(g: Grid, refs: seq<Ref>): real
  {
    if refs == [] then 0.0 else RefsSum(g, refs[..|refs| - 1]) + NumOr0(Val(g, refs[|refs| - 1].row, refs[|refs| - 1].col))
  }

  /**
   * The value Excel shows for a formula, or `None` for an error: `#DIV/0!`
   * for a division by zero, `#VALUE!` for arithmetic on text.  `IF` only
   * evaluates the branch it takes.
   */
  function FormulaValue(g: Grid, f: Formula): Option<real>
  {
    match f
    case SumRange(a, b) => Some(RangeValue(g, a, b))
    case SumOf(refs) => Some(RefsSum(g, refs))
    case Quotient(n, d) =>
      var x, y := Operand(g, n), Operand(g, d);
      if x.None? || y.None? || y.value == 0.0 then None else Some(x.value / y.value)
    case GuardedQuotient(n, d) =>
      var x, y := Operand(g, n), Operand(g, d);
      if y.None? then None else if y.value == 0.0 then Some(0.0)
      else if x.None? then None else Some(x.value / y.value)
    case GuardedChange(c, p) =>
      var x, y := Operand(g, c), Operand(g, p);
      if y.None? then None else if y.value == 0.0 then Some(0.0)
      else if x.None? then None else Some((x.value - y.value) / y.value)
  }

  // ---------------------------------------------------------------------
  // Finding a column by its header

  /**
   * How a header is matched: `value == s` (find_column_by_header), or a
   * string whose stripped text is s (find_total_current_year_column).
   */
  datatype HeaderTest = Exactly(s: string) | Stripped(s: string)

  predicate Passes(t: HeaderTest, h: Cell)
  {
    match t
    case Exactly(s) => h == Text(s)
    case Stripped(s) => IsStr(h) && Strip(Render(h)) == s
  }

  /** The test as a function on header cells. */
  function Test(t: HeaderTest): Cell -> bool
  {
    h => Passes(t, h)
  }

  /** The first column in lo .. hi-1 whose header passes the test. */
  function FirstHeader(g: Grid, ok: Cell -> bool, lo: nat, hi: nat): (c: Option<nat>)
    ensures c.None? <==> forall j :: lo <= j < hi ==> !ok(Val(g, 1, j))
    ensures c.Some? ==> lo <= c.value < hi && ok(Val(g, 1, c.value))
    ensures c.Some? ==> forall j :: lo <= j < c.value ==> !ok(Val(g, 1, j))
    decreases hi - lo
  {
    if hi <= lo then None
    else if ok(Val(g, 1, lo)) then Some(lo)
    else FirstHeader(g, ok, lo + 1, hi)
  }

  /** The scan over the header row, returning at the first match. */
  method FindHeader(ws: Worksheet, t: HeaderTest, lo: nat, hi: nat) returns (c: Option<nat>)
    ensures c == FirstHeader(ws.grid, Test(t), lo, hi)
  {
    var col := lo;
    while col < hi
      invariant lo <= col
      invariant FirstHeader(ws.grid, Test(t), lo, hi) == FirstHeader(ws.grid, Test(t), col, hi)
    {
      if Passes(t, Val(ws.grid, 1, col)) {
        return Some(col);
      }
      col := col + 1;
    }
    return None;
  }

  /** find_column_by_header: columns 1 .. max_column, exact equality. */
  function ColumnHeaded(g: Grid, s: string): Option<nat>
  {
    FirstHeader(g, Test(Exactly(s)), 1, MaxCol(g) + 1)
  }

  /** The column `s` heads, found by the scan, is q: q is headed `s` and no column before it is. */
  lemma FirstHeadedAt(g: Grid, s: string, q: nat)
    requires 1 <= q <= MaxCol(g) && Val(g, 1, q) == Text(s)
    requires forall j :: 1 <= j < q ==> Val(g, 1, j) != Text(s)
    ensures ColumnHeaded(g, s) == Some(q)
  {
    assert Test(Exactly(s))(Val(g, 1, q));
  }

  /** The scan finds nothing exactly when no column is headed `s`. */
  lemma NotHeaded(g: Grid, s: string)
    ensures ColumnHeaded(g, s).None? <==> forall j :: 1 <= j <= MaxCol(g) ==> Val(g, 1, j) != Text(s)
  {
    if ColumnHeaded(g, s).None? {
      forall j | 1 <= j <= MaxCol(g) ensures Val(g, 1, j) != Text(s) {
        assert !Test(Exactly(s))(Val(g, 1, j));
      }
    } else {
      var c := ColumnHeaded(g, s).value;
      assert Test(Exactly(s))(Val(g, 1, c));
    }
  }

  /** find_column_by_header on the sheet. */
  method FindColumn(ws: Worksheet, s: string) returns (c: Option<nat>)
    ensures c == ColumnHeaded(ws.grid, s)
  {
    c := FindHeader(ws, Exactly(s), 1, MaxCol(ws.grid) + 1);
  }

  /** The first row in lo .. hi-1 whose column-1 cell passes the test. */
  function FirstRow(g: Grid, ok: Cell -> bool, lo: nat, hi: nat): (r: Option<nat>)
    ensures r.None? <==> forall i :: lo <= i < hi ==> !ok(Val(g, i, 1))
    ensures r.Some? ==> lo <= r.value < hi && ok(Val(g, r.value, 1))
    ensures r.Some? ==> forall i :: lo <= i < r.value ==> !ok(Val(g, i, 1))
    decreases hi - lo
  {
    if hi <= lo then None
    else if ok(Val(g, lo, 1)) then Some(lo)
    else FirstRow(g, ok, lo + 1, hi)
  }

  /** The loop painting column c black in rows lo .. hi-1. */
  function PaintColumn(g: Grid, c: nat, lo: nat, hi: int): (h: Grid)
    requires 1 <= c && 1 <= lo
    ensures forall i, j :: Val(h, i, j) == Val(g, i, j)
    ensures forall i, j :: FillOf(h, i, j) == if j == c && lo <= i < hi then SolidBlack else FillOf(g, i, j)
    ensures hi <= g.rows + 1 ==> h.rows == g.rows
    ensures h.cols == if lo < hi then Max(g.cols, c) else g.cols
    decreases hi - lo
  {
    if hi <= lo then g else Paint(PaintColumn(g, c, lo, hi - 1), hi - 1, c)
  }

  /** Row 1 over columns 1 .. max_column: `get_headers`, and the column labels pandas reads. */
  function Headers(g: Grid): seq<Cell>
  {
    seq(MaxCol(g), j requires 0 <= j < MaxCol(g) => Val(g, 1, j + 1))
  }

  /** The sheet as a pass that may raise part-way leaves it, and whether it finished. */
  datatype Pass = Pass(grid: Grid, ok: bool)

  /**
   * The sheet an openpyxl pass works on.  Its one field is the sheet value;
   * what a pass does to it is stated as a function of the sheet before.
   */
  class Worksheet {
    var grid: Grid

    constructor (g: Grid)
      ensures grid == g
    {
      grid := g;
    }

    /** `ws.cell(row=r, column=c).value = v` */
    method SetCell(r: nat, c: nat, v: Cell)
      requires 1 <= r && 1 <= c
      modifies this
      ensures grid == SetVal(old(grid), r, c, v)
    {
      grid := SetVal(grid, r, c, v);
    }

    /** A value written together with a yellow fill. */
    method HighlightCell(r: nat, c: nat, v: Cell)
      requires 1 <= r && 1 <= c
      modifies this
      ensures grid == Highlight(old(grid), r, c, v)
    {
      grid := Highlight(grid, r, c, v);
    }

    /** `ws.cell(row=r, column=c).fill = <solid black>` */
    method PaintCell(r: nat, c: nat)
      requires 1 <= r && 1 <= c
      modifies this
      ensures grid == Paint(old(grid), r, c)
    {
      grid := Paint(grid, r, c);
    }

    /** `ws.insert_rows(at, n)` */
    method InsertRowsAt(at: nat, n: nat)
      requires 1 <= at
      modifies this
      ensures grid == InsertRows(old(grid), at, n)
    {
      grid := InsertRows(grid, at, n);
    }

    /** `ws.insert_cols(at, n)` */
    method InsertColsAt(at: nat, n: nat)
      requires 1 <= at
      modifies this
      ensures grid == InsertCols(old(grid), at, n)
    {
      grid := InsertCols(grid, at, n);
    }

    /** `ws.delete_cols(at, n)` */
    method DeleteColsAt(at: nat, n: nat)
      requires 1 <= at
      modifies this
      ensures grid == DeleteCols(old(grid), at, n)
    {
      grid := DeleteCols(grid, at, n);
    }

    /** Moving column `from`, rows 1 .. max_row, onto column `to`. */
    method MoveColumn(from: nat, to: nat)
      requires 1 <= from && 1 <= to
      modifies this
      ensures grid == MoveCol(old(grid), from, to)
    {
      grid := MoveCol(grid, from, to);
    }

    /** The loop that adds up the numeric cells of column `c` over rows `lo .. hi-1`. */
    method ColumnTotal(c: int, lo: int, hi: int) returns (s: real)
      ensures s == ColSum(grid, c, lo, hi)
    {
      s := 0.0;
      if hi <= lo {
        return;
      }
      var r := lo;
      while r < hi
        invariant lo <= r <= hi
        invariant s == ColSum(grid, c, lo, r)
      {
        var v := Val(grid, r, c);
        if v.Num? {
          s := s + v.r;
        }
        r := r + 1;
      }
    }

    /** The loop that adds up the numeric cells of row `r` over columns `lo .. hi-1`. */
    method RowTotal(r: int, lo: int, hi: int) returns (s: real)
      ensures s == RowSum(grid, r, lo, hi)
    {
      s := 0.0;
      if hi <= lo {
        return;
      }
      var c := lo;
      while c < hi
        invariant lo <= c <= hi
        invariant s == RowSum(grid, r, lo, c)
      {
        var v := Val(grid, r, c);
        if v.Num? {
          s := s + v.r;
        }
        c := c + 1;
      }
    }
  }
}
