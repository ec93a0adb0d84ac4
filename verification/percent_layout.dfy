/**
 * Stage 5 of the per-nationality pipeline (per_nationality_stage5.py, with
 * stage9.py as the same pass without its exception handlers): the column
 * layout for the percentages.  After the existing columns come one
 * "Percent to Total {year}" column per year (the current year first), a
 * black separator, one "Percent difference {current} - {previous}" column
 * per earlier year, and a second separator; then the first column headed
 * "Percent to Total {current}" is blanked and turned into a separator too.
 */
module PercentLayout {
  import opened Cells
  import opened Sheets

  // ---------------------------------------------------------------------
  // The Category column (defined in both files, called by neither)

  /** find_last_category_column: the last 1-based position headed "Category". */
  function LastCategory(headers: seq<Cell>): (c: Option<nat>)
    ensures c.None? <==> forall k :: 0 <= k < |headers| ==> headers[k] != Text("Category")
    ensures c.Some? ==> 1 <= c.value <= |headers| && headers[c.value - 1] == Text("Category")
    ensures c.Some? ==> forall k :: c.value <= k < |headers| ==> headers[k] != Text("Category")
  {
    if headers == [] then None
    else if headers[|headers| - 1] == Text("Category") then Some(|headers|)
    else LastCategory(headers[..|headers| - 1])
  }

  /** The downward loop of find_last_category_column. */
  method FindLastCategoryColumn(headers: seq<Cell>) returns (c: Option<nat>)
    ensures c == LastCategory(headers)
  {
    var col := |headers|;
    while col > 0
      invariant 0 <= col <= |headers|
      invariant LastCategory(headers) == LastCategory(headers[..col])
    {
      assert headers[..col][..col - 1] == headers[..col - 1];
      if headers[col - 1] == Text("Category") {
        return Some(col);
      }
      col := col - 1;
    }
    return None;
  }

  /** delete_columns_after_category: everything right of the index goes. */
  function AfterCategoryDeleted(g: Grid, last: Option<nat>): (h: Grid)
    requires last.Some? ==> 1 <= last.value <= MaxCol(g)
    ensures last.Some? ==> MaxCol(h) == last.value
    ensures last.None? ==> h == g
  {
    if last.Some? then DeleteCols(g, last.value + 1, MaxCol(g) - last.value) else g
  }

  /** Columns up to the last Category column keep their cells. */
  lemma CategoryColumnsKept(g: Grid, last: nat)
    requires 1 <= last <= MaxCol(g)
    ensures forall i, j :: j <= last ==> At(AfterCategoryDeleted(g, Some(last)), i, j) == At(g, i, j)
  {
  }

  method DeleteColumnsAfterCategory(ws: Worksheet, last: Option<nat>)
    requires last.Some? ==> 1 <= last.value <= MaxCol(ws.grid)
    modifies ws
    ensures ws.grid == AfterCategoryDeleted(old(ws.grid), last)
  {
    if last.Some? {
      var n := MaxCol(ws.grid) - last.value;
      ws.DeleteColsAt(last.value + 1, n);
    }
  }

  // ---------------------------------------------------------------------
  // Headed columns and separators at the right edge

  function PercentHeader(year: int): string
  {
    Spelled("Percent to Total ", IntText(year), |IntText(year)|)
  }

  function DifferenceHeader(current: int, previous: int): string
  {
    Spelled("Percent difference ", IntText(current) + " - " + IntText(previous), |IntText(previous)|)
  }

  /** `[current_year] + previous_years`: the years of the percent block, the current one first. */
  function AllYears(current: int, previous: seq<int>): seq<int>
  {
    [current] + previous
  }

  /** The headers of the percent block. */
  function PercentHeaders(current: int, previous: seq<int>): (hs: seq<string>)
    ensures |hs| == |previous| + 1
    ensures forall k :: 0 <= k < |hs| ==> hs[k] == PercentHeader(AllYears(current, previous)[k])
  {
    var years := AllYears(current, previous);
    seq(|years|, k requires 0 <= k < |years| => PercentHeader(years[k]))
  }

  function DifferenceHeaders(current: int, previous: seq<int>): (hs: seq<string>)
    ensures |hs| == |previous|
    ensures forall k :: 0 <= k < |previous| ==> hs[k] == DifferenceHeader(current, previous[k])
  {
    seq(|previous|, k requires 0 <= k < |previous| => DifferenceHeader(current, previous[k]))
  }

  /** A cell of a freshly opened column once its header is written into row 1. */
  function HeaderSlot(header: string, i: int): Slot
  {
    if i == 1 then Slot(Text(header), NoFill) else Blank
  }

  /**
   * What the header loop leaves at (i, j): the columns from `at` on move
   * n places right, and the opened ones hold the first n headers in row 1.
   */
  function HeadedAt(g: Grid, at: int, hs: seq<string>, n: nat, i: int, j: int): Slot
    requires n <= |hs|
  {
    if j < at then At(g, i, j)
    else if j < at + n then HeaderSlot(hs[j - at], i)
    else At(g, i, j - n)
  }

  /** `max_column` after the header loop. */
  function HeadedWidth(g: Grid, at: int, n: nat): nat
  {
    if at <= MaxCol(g) then MaxCol(g) + n else if n == 0 then MaxCol(g) else Max(at + n - 1, 0)
  }

  /**
   * The loop shared by add_percentage_columns and
   * add_percent_difference_columns: for each header, `insert_cols(at + k)`
   * and the header written into row 1 of the new column.
   */
  method InsertHeadedColumns(ws: Worksheet, at: nat, hs: seq<string>)
    requires 1 <= at
    modifies ws
    ensures forall i, j :: At(ws.grid, i, j) == HeadedAt(old(ws.grid), at, hs, |hs|, i, j)
    ensures MaxRow(ws.grid) == if hs == [] then MaxRow(old(ws.grid)) else Max(MaxRow(old(ws.grid)), 1)
    ensures MaxCol(ws.grid) == HeadedWidth(old(ws.grid), at, |hs|)
  {
    ghost var g := ws.grid;
    for k := 0 to |hs|
      invariant forall i, j :: At(ws.grid, i, j) == HeadedAt(g, at, hs, k, i, j)
      invariant MaxRow(ws.grid) == if k == 0 then MaxRow(g) else Max(MaxRow(g), 1)
      invariant MaxCol(ws.grid) == HeadedWidth(g, at, k)
    {
      ghost var p := ws.grid;
      ws.InsertColsAt(at + k, 1);
      ws.SetCell(1, at + k, Text(hs[k]));
      forall i, j ensures At(ws.grid, i, j) == HeadedAt(g, at, hs, k + 1, i, j) {
        HeadedStep(g, p, ws.grid, at, hs, k, i, j);
      }
    }
  }

  /** One more pass of the header loop, at one cell. */
  lemma HeadedStep(g: Grid, p: Grid, h: Grid, at: nat, hs: seq<string>, k: nat, i: int, j: int)
    requires 1 <= at && k < |hs|
    requires forall i, j :: At(p, i, j) == HeadedAt(g, at, hs, k, i, j)
    requires h == SetVal(InsertCols(p, at + k, 1), 1, at + k, Text(hs[k]))
    ensures At(h, i, j) == HeadedAt(g, at, hs, k + 1, i, j)
  {
    var o := InsertCols(p, at + k, 1);
    assert At(o, i, j) == ColsOpenedAt(p, at + k, 1, i, j);
    assert At(o, 1, at + k) == Blank;
    if j < at + k {
      assert At(p, i, j) == HeadedAt(g, at, hs, k, i, j);
    } else if j > at + k {
      assert At(p, i, j - 1) == HeadedAt(g, at, hs, k, i, j - 1);
    }
  }

  /** add_separator_column: a new column with an empty header, black in every row. */
  function Separator(g: Grid, at: nat): (h: Grid)
    requires 1 <= at
    ensures MaxRow(h) == Max(MaxRow(g), 1)
    ensures MaxCol(h) == if at <= MaxCol(g) then MaxCol(g) + 1 else at
  {
    var h := SetVal(InsertCols(g, at, 1), 1, at, Text(""));
    PaintColumn(h, at, 1, MaxRow(h) + 1)
  }

  /** A cell of a separator column: the empty header, and black down to `max_row`. */
  function SeparatorSlot(g: Grid, i: int): Slot
  {
    Slot(if i == 1 then Text("") else Empty, if 1 <= i <= Max(MaxRow(g), 1) then SolidBlack else NoFill)
  }

  /** What add_separator_column leaves at (i, j). */
  function SeparatedAt(g: Grid, at: int, i: int, j: int): Slot
  {
    if j == at then SeparatorSlot(g, i) else At(g, i, if j < at then j else j - 1)
  }

  /** The separator opens column `at`, fills it as a separator and moves the rest right. */
  lemma SeparatorCells(g: Grid, at: nat)
    requires 1 <= at
    ensures forall i, j :: At(Separator(g, at), i, j) == SeparatedAt(g, at, i, j)
  {
    var o := InsertCols(g, at, 1);
    var h := SetVal(o, 1, at, Text(""));
    var l := Separator(g, at);
    forall i, j ensures At(l, i, j) == SeparatedAt(g, at, i, j) {
      assert At(o, i, j) == ColsOpenedAt(g, at, 1, i, j);
      assert Val(l, i, j) == Val(h, i, j) && FillOf(l, i, j) == (if j == at && 1 <= i <= MaxRow(h) then SolidBlack else FillOf(h, i, j));
    }
  }

  method AddPercentageColumns(ws: Worksheet, current: int, previous: seq<int>) returns (next: nat)
    modifies ws
    ensures next == MaxCol(old(ws.grid)) + |previous| + 2
    ensures forall i, j :: At(ws.grid, i, j) == HeadedAt(old(ws.grid), MaxCol(old(ws.grid)) + 1, PercentHeaders(current, previous), |previous| + 1, i, j)
    ensures MaxRow(ws.grid) == Max(MaxRow(old(ws.grid)), 1)
    ensures MaxCol(ws.grid) == MaxCol(old(ws.grid)) + |previous| + 1
  {
    var hs := PercentHeaders(current, previous);
    var last := MaxCol(ws.grid) + 1;
    InsertHeadedColumns(ws, last, hs);
    next := last + |hs|;
  }

  method AddSeparatorColumn(ws: Worksheet, at: nat) returns (next: nat)
    requires 1 <= at
    modifies ws
    ensures next == at + 1
    ensures forall i, j :: At(ws.grid, i, j) == SeparatedAt(old(ws.grid), at, i, j)
    ensures MaxRow(ws.grid) == Max(MaxRow(old(ws.grid)), 1)
    ensures MaxCol(ws.grid) == if at <= MaxCol(old(ws.grid)) then MaxCol(old(ws.grid)) + 1 else at
  {
    ghost var g := ws.grid;
    ws.InsertColsAt(at, 1);
    ws.SetCell(1, at, Text(""));
    ghost var h := ws.grid;
    var n := MaxRow(ws.grid);
    for r := 1 to n + 1
      invariant ws.grid == PaintColumn(h, at, 1, r)
    {
      ws.PaintCell(r, at);
    }
    assert ws.grid == Separator(g, at);
    SeparatorCells(g, at);
    next := at + 1;
  }

  method AddPercentDifferenceColumns(ws: Worksheet, at: nat, current: int, previous: seq<int>) returns (next: nat)
    requires 1 <= at
    modifies ws
    ensures next == at + |previous|
    ensures forall i, j :: At(ws.grid, i, j) == HeadedAt(old(ws.grid), at, DifferenceHeaders(current, previous), |previous|, i, j)
    ensures MaxRow(ws.grid) == if previous == [] then MaxRow(old(ws.grid)) else Max(MaxRow(old(ws.grid)), 1)
    ensures MaxCol(ws.grid) == HeadedWidth(old(ws.grid), at, |previous|)
  {
    var hs := DifferenceHeaders(current, previous);
    InsertHeadedColumns(ws, at, hs);
    next := at + |hs|;
  }

  // ---------------------------------------------------------------------
  // find_and_replace_percent_to_total_column

  /** The first column headed "Percent to Total {current}", blanked and black in every row. */
  function PercentBlanked(g: Grid, current: int): (r: (Grid, Option<nat>))
    ensures ColumnHeaded(g, PercentHeader(current)).None? ==> r == (g, None)
  {
    match ColumnHeaded(g, PercentHeader(current))
    case None => (g, None)
    case Some(c) =>
      var h := SetVal(g, 1, c, Text(""));
      (PaintColumn(h, c, 1, MaxRow(h) + 1), Some(c + 1))
  }

  method FindAndReplacePercentToTotalColumn(ws: Worksheet, current: int) returns (next: Option<nat>)
    modifies ws
    ensures (ws.grid, next) == PercentBlanked(old(ws.grid), current)
  {
    var c := FindColumn(ws, PercentHeader(current));
    if c.None? {
      return None;
    }
    ws.SetCell(1, c.value, Text(""));
    ghost var h := ws.grid;
    var n := MaxRow(ws.grid);
    for r := 1 to n + 1
      invariant ws.grid == PaintColumn(h, c.value, 1, r)
    {
      ws.PaintCell(r, c.value);
    }
    return Some(c.value + 1);
  }

  // ---------------------------------------------------------------------
  // process_stage9

  /**
   * A block of headed columns opened at `at`, followed by a separator column:
   * what each of the two halves of process_stage9 leaves at (i, j).
   */
  function BlockAt(g: Grid, at: int, hs: seq<string>, i: int, j: int): Slot
  {
    var s := at + |hs|;
    if j == s then SeparatorSlot(g, i)
    else HeadedAt(g, at, hs, |hs|, i, if j < s then j else j - 1)
  }

  /** `b` is `g` with the block `hs` opened at `at` and a separator after it. */
  ghost predicate HasBlock(b: Grid, g: Grid, at: int, hs: seq<string>)
  {
    forall i, j {:trigger BlockAt(g, at, hs, i, j)} :: At(b, i, j) == BlockAt(g, at, hs, i, j)
  }

  /** The first half of process_stage9: the percent block and a separator after it. */
  method AddPercentPart(ws: Worksheet, current: int, previous: seq<int>) returns (next: nat)
    modifies ws
    ensures next == MaxCol(old(ws.grid)) + |previous| + 3
    ensures HasBlock(ws.grid, old(ws.grid), MaxCol(old(ws.grid)) + 1, PercentHeaders(current, previous))
    ensures MaxRow(ws.grid) == Max(MaxRow(old(ws.grid)), 1)
    ensures MaxCol(ws.grid) == MaxCol(old(ws.grid)) + |previous| + 2
  {
    ghost var g := ws.grid;
    ghost var hs := PercentHeaders(current, previous);
    next := AddPercentageColumns(ws, current, previous);
    ghost var a := ws.grid;
    next := AddSeparatorColumn(ws, next);
    BlockGrid(g, a, ws.grid, MaxCol(g) + 1, hs, |previous| + 1);
  }

  /** The second half of process_stage9: the difference block and a separator after it. */
  method AddDifferencePart(ws: Worksheet, at: nat, current: int, previous: seq<int>) returns (next: nat)
    requires 1 <= at
    modifies ws
    ensures next == at + |previous| + 1
    ensures HasBlock(ws.grid, old(ws.grid), at, DifferenceHeaders(current, previous))
    ensures MaxRow(ws.grid) == Max(MaxRow(old(ws.grid)), 1)
    ensures MaxCol(ws.grid) == Max(MaxCol(old(ws.grid)), at - 1) + |previous| + 1
  {
    ghost var g := ws.grid;
    ghost var hs := DifferenceHeaders(current, previous);
    next := AddPercentDifferenceColumns(ws, at, current, previous);
    ghost var a := ws.grid;
    next := AddSeparatorColumn(ws, next);
    BlockGrid(g, a, ws.grid, at, hs, |previous|);
  }

  /** The separator on top of the headed block, on the whole sheet. */
  lemma BlockGrid(g: Grid, a: Grid, b: Grid, at: int, hs: seq<string>, n: int)
    requires n == |hs|
    requires Max(MaxRow(a), 1) == Max(MaxRow(g), 1)
    requires forall i, j :: At(a, i, j) == HeadedAt(g, at, hs, n, i, j)
    requires forall i, j :: At(b, i, j) == SeparatedAt(a, at + n, i, j)
    ensures HasBlock(b, g, at, hs)
  {
    forall i, j ensures At(b, i, j) == BlockAt(g, at, hs, i, j) {
      BlockCell(g, a, b, at, hs, i, j);
    }
  }

  /** The separator on top of the headed block, at one cell. */
  lemma BlockCell(g: Grid, a: Grid, b: Grid, at: int, hs: seq<string>, i: int, j: int)
    requires Max(MaxRow(a), 1) == Max(MaxRow(g), 1)
    requires At(b, i, j) == SeparatedAt(a, at + |hs|, i, j)
    requires var x := if j < at + |hs| then j else j - 1;
      At(a, i, x) == HeadedAt(g, at, hs, |hs|, i, x)
    ensures At(b, i, j) == BlockAt(g, at, hs, i, j)
  {
  }

  /** The sheet after the percent block `ps` and its separator, cell by cell. */
  function PercentPartAt(g: Grid, ps: seq<string>, i: int, j: int): Slot
  {
    BlockAt(g, MaxCol(g) + 1, ps, i, j)
  }

  /**
   * The sheet before the blanking, cell by cell, for the percent headers ps
   * and the difference headers ds: the existing columns, the percent block,
   * a separator, the difference block and a second separator; whatever lay
   * right of `max_column` ends up right of all of them.
   */
  function LayoutAt(g: Grid, ps: seq<string>, ds: seq<string>, i: int, j: int): Slot
  {
    var at := MaxCol(g) + |ps| + 2;
    var t := at + |ds|;
    if j == t then SeparatorSlot(g, i)
    else
      var x := if j < t then j else j - 1;
      if x < at then PercentPartAt(g, ps, i, x)
      else if x < t then HeaderSlot(ds[x - at], i)
      else PercentPartAt(g, ps, i, x - |ds|)
  }

  /** `l` is `g` laid out with the percent headers `ps` and the difference headers `ds`. */
  ghost predicate LaidOut(l: Grid, g: Grid, ps: seq<string>, ds: seq<string>)
  {
    forall i, j {:trigger LayoutAt(g, ps, ds, i, j)} :: At(l, i, j) == LayoutAt(g, ps, ds, i, j)
  }

  /** The difference block and its separator on top of the percent part, on the whole sheet. */
  lemma LayoutGrid(g: Grid, b: Grid, l: Grid, ps: seq<string>, ds: seq<string>, at: int)
    requires MaxRow(b) == Max(MaxRow(g), 1)
    requires at == MaxCol(g) + |ps| + 2
    requires HasBlock(b, g, MaxCol(g) + 1, ps)
    requires HasBlock(l, b, at, ds)
    ensures LaidOut(l, g, ps, ds)
  {
    forall i, j ensures At(l, i, j) == LayoutAt(g, ps, ds, i, j) {
      var x := if j < MaxCol(g) + |ps| + |ds| + 2 then j else j - 1;
      assert At(b, i, x) == PercentPartAt(g, ps, i, x);
      assert At(b, i, x - |ds|) == PercentPartAt(g, ps, i, x - |ds|);
      LayoutCell(g, b, l, ps, ds, i, j);
    }
  }

  /** The difference block and its separator on top of the percent part, at one cell. */
  lemma LayoutCell(g: Grid, b: Grid, l: Grid, ps: seq<string>, ds: seq<string>, i: int, j: int)
    requires MaxRow(b) == Max(MaxRow(g), 1)
    requires At(l, i, j) == BlockAt(b, MaxCol(g) + |ps| + 2, ds, i, j)
    requires var x := if j < MaxCol(g) + |ps| + |ds| + 2 then j else j - 1;
      At(b, i, x) == PercentPartAt(g, ps, i, x) &&
      At(b, i, x - |ds|) == PercentPartAt(g, ps, i, x - |ds|)
    ensures At(l, i, j) == LayoutAt(g, ps, ds, i, j)
  {
    var at := MaxCol(g) + |ps| + 2;
    var t := at + |ds|;
    var x := if j < t then j else j - 1;
    if j == t {
      LayoutSeparatorCell(g, b, l, ps, ds, i, j);
    } else if x < at {
      LayoutPercentCell(g, b, l, ps, ds, i, j, x);
    } else if x < t {
      LayoutDifferenceCell(g, b, l, ps, ds, i, j, x);
    } else {
      LayoutPercentCell(g, b, l, ps, ds, i, j, x - |ds|);
    }
  }

  lemma LayoutSeparatorCell(g: Grid, b: Grid, l: Grid, ps: seq<string>, ds: seq<string>, i: int, j: int)
    requires MaxRow(b) == Max(MaxRow(g), 1)
    requires At(l, i, j) == BlockAt(b, MaxCol(g) + |ps| + 2, ds, i, j)
    requires j == MaxCol(g) + |ps| + |ds| + 2
    ensures At(l, i, j) == LayoutAt(g, ps, ds, i, j)
  {
  }

  lemma LayoutPercentCell(g: Grid, b: Grid, l: Grid, ps: seq<string>, ds: seq<string>, i: int, j: int, y: int)
    requires At(l, i, j) == BlockAt(b, MaxCol(g) + |ps| + 2, ds, i, j)
    requires At(b, i, y) == PercentPartAt(g, ps, i, y)
    requires var t := MaxCol(g) + |ps| + |ds| + 2;
      var x := if j < t then j else j - 1;
      j != t && (y == x < MaxCol(g) + |ps| + 2 || (t <= x && y == x - |ds|))
    ensures At(l, i, j) == LayoutAt(g, ps, ds, i, j)
  {
  }

  lemma LayoutDifferenceCell(g: Grid, b: Grid, l: Grid, ps: seq<string>, ds: seq<string>, i: int, j: int, x: int)
    requires At(l, i, j) == BlockAt(b, MaxCol(g) + |ps| + 2, ds, i, j)
    requires x == j < MaxCol(g) + |ps| + |ds| + 2 && MaxCol(g) + |ps| + 2 <= x
    ensures At(l, i, j) == LayoutAt(g, ps, ds, i, j)
  {
  }

  /** The columns that were there keep their cells. */
  lemma LayoutKeepsOldColumns(g: Grid, ps: seq<string>, ds: seq<string>, i: int, j: int)
    requires j <= MaxCol(g)
    ensures LayoutAt(g, ps, ds, i, j) == At(g, i, j)
  {
  }

  /** The header row of the new columns, for any headers. */
  lemma LayoutHeaders(g: Grid, ps: seq<string>, ds: seq<string>, j: int)
    requires MaxCol(g) < j <= MaxCol(g) + |ps| + |ds| + 2
    ensures var m := MaxCol(g);
      LayoutAt(g, ps, ds, 1, j) ==
        if j <= m + |ps| then Slot(Text(ps[j - m - 1]), NoFill)
        else if j == m + |ps| + 1 || j == m + |ps| + |ds| + 2 then Slot(Text(""), SolidBlack)
        else Slot(Text(ds[j - m - |ps| - 2]), NoFill)
  {
    var m := MaxCol(g);
    if j <= m + |ps| + 1 {
      assert LayoutAt(g, ps, ds, 1, j) == PercentPartAt(g, ps, 1, j);
    }
  }

  /** Row 1 of the percent block: "Percent to Total {year}" for the current year, then each previous one. */
  lemma LayoutPercentHeader(g: Grid, current: int, previous: seq<int>, k: int)
    requires 0 <= k <= |previous|
    ensures LayoutAt(g, PercentHeaders(current, previous), DifferenceHeaders(current, previous), 1, MaxCol(g) + 1 + k) ==
      Slot(Text(PercentHeader(AllYears(current, previous)[k])), NoFill)
  {
    var ps, ds := PercentHeaders(current, previous), DifferenceHeaders(current, previous);
    LayoutHeaders(g, ps, ds, MaxCol(g) + 1 + k);
  }

  /** Row 1 of the two separators: blank and black, after each block. */
  lemma LayoutSeparatorHeaders(g: Grid, current: int, previous: seq<int>)
    ensures var m, d := MaxCol(g), |previous|;
      var ps, ds := PercentHeaders(current, previous), DifferenceHeaders(current, previous);
      LayoutAt(g, ps, ds, 1, m + d + 2) == Slot(Text(""), SolidBlack) &&
      LayoutAt(g, ps, ds, 1, m + 2 * d + 3) == Slot(Text(""), SolidBlack)
  {
    var m, ps, ds := MaxCol(g), PercentHeaders(current, previous), DifferenceHeaders(current, previous);
    LayoutHeaders(g, ps, ds, m + |ps| + 1);
    LayoutHeaders(g, ps, ds, m + |ps| + |ds| + 2);
  }

  /** Row 1 of the difference block: "Percent difference {current} - {year}" for each previous year. */
  lemma LayoutDifferenceHeader(g: Grid, current: int, previous: seq<int>, k: int)
    requires 0 <= k < |previous|
    ensures LayoutAt(g, PercentHeaders(current, previous), DifferenceHeaders(current, previous), 1, MaxCol(g) + |previous| + 3 + k) ==
      Slot(Text(DifferenceHeader(current, previous[k])), NoFill)
  {
    var ps, ds := PercentHeaders(current, previous), DifferenceHeaders(current, previous);
    assert |ps| == |previous| + 1;
    LayoutDifferenceSlot(g, ps, ds, k);
  }

  /** The k-th difference header sits `|ps| + 2` columns right of the old ones. */
  lemma LayoutDifferenceSlot(g: Grid, ps: seq<string>, ds: seq<string>, k: int)
    requires 0 <= k < |ds|
    ensures LayoutAt(g, ps, ds, 1, MaxCol(g) + |ps| + 2 + k) == Slot(Text(ds[k]), NoFill)
  {
    LayoutHeaders(g, ps, ds, MaxCol(g) + |ps| + 2 + k);
  }

  /** The two halves of process_stage9, before the blanking. */
  method LayOut(ws: Worksheet, current: int, previous: seq<int>)
    modifies ws
    ensures LaidOut(ws.grid, old(ws.grid), PercentHeaders(current, previous), DifferenceHeaders(current, previous))
    ensures MaxRow(ws.grid) == Max(MaxRow(old(ws.grid)), 1)
    ensures MaxCol(ws.grid) == MaxCol(old(ws.grid)) + 2 * |previous| + 3
  {
    ghost var g := ws.grid;
    ghost var ps, ds := PercentHeaders(current, previous), DifferenceHeaders(current, previous);
    var at := AddPercentPart(ws, current, previous);
    ghost var b := ws.grid;
    var _ := AddDifferencePart(ws, at, current, previous);
    LayoutGrid(g, b, ws.grid, ps, ds, at);
  }

  /** process_stage9 on the sheet; `laid` is the sheet just before the blanking. */
  method ProcessStage9(ws: Worksheet, current: int, previous: seq<int>) returns (ghost laid: Grid)
    modifies ws
    ensures LaidOut(laid, old(ws.grid), PercentHeaders(current, previous), DifferenceHeaders(current, previous))
    ensures MaxRow(laid) == Max(MaxRow(old(ws.grid)), 1)
    ensures MaxCol(laid) == MaxCol(old(ws.grid)) + 2 * |previous| + 3
    ensures ws.grid == PercentBlanked(laid, current).0
  {
    LayOut(ws, current, previous);
    laid := ws.grid;
    var _ := FindAndReplacePercentToTotalColumn(ws, current);
  }

  /**
   * On a sheet without a "Percent to Total {current}" column, the column
   * turned into a separator is the first new one, right of the old columns.
   */
  lemma BlanksNewPercentColumn(g: Grid, l: Grid, current: int, previous: seq<int>)
    requires LaidOut(l, g, PercentHeaders(current, previous), DifferenceHeaders(current, previous))
    requires MaxCol(l) == MaxCol(g) + 2 * |previous| + 3
    requires ColumnHeaded(g, PercentHeader(current)).None?
    ensures ColumnHeaded(l, PercentHeader(current)) == Some(MaxCol(g) + 1)
    ensures PercentBlanked(l, current).1 == Some(MaxCol(g) + 2)
  {
    var ps := PercentHeaders(current, previous);
    assert ps[0] == PercentHeader(current);
    NewPercentHeaded(g, l, ps, DifferenceHeaders(current, previous), PercentHeader(current));
  }

  /** The first new column is the first one headed `s`, the first percent header, when no old column is. */
  lemma NewPercentHeaded(g: Grid, l: Grid, ps: seq<string>, ds: seq<string>, s: string)
    requires |ps| >= 1 && ps[0] == s
    requires LaidOut(l, g, ps, ds)
    requires MaxCol(l) == MaxCol(g) + |ps| + |ds| + 2
    requires ColumnHeaded(g, s).None?
    ensures ColumnHeaded(l, s) == Some(MaxCol(g) + 1)
  {
    var m := MaxCol(g);
    NotHeaded(g, s);
    LayoutHeaders(g, ps, ds, m + 1);
    forall j | 1 <= j < m + 1 ensures Val(l, 1, j) != Text(s) {
      assert At(l, 1, j) == LayoutAt(g, ps, ds, 1, j);
      LayoutKeepsOldColumns(g, ps, ds, 1, j);
      assert Val(g, 1, j) != Text(s);
    }
    FirstHeadedAt(l, s, m + 1);
  }

  /**
   * On a sheet that already has a "Percent to Total {current}" column, that
   * old column is the one blanked, and the new percent block keeps its header.
   */
  lemma BlanksOldPercentColumn(g: Grid, l: Grid, current: int, previous: seq<int>, c: nat)
    requires LaidOut(l, g, PercentHeaders(current, previous), DifferenceHeaders(current, previous))
    requires MaxCol(l) == MaxCol(g) + 2 * |previous| + 3
    requires ColumnHeaded(g, PercentHeader(current)) == Some(c)
    ensures ColumnHeaded(l, PercentHeader(current)) == Some(c)
    ensures Val(PercentBlanked(l, current).0, 1, MaxCol(g) + 1) == Text(PercentHeader(current))
  {
    var ps := PercentHeaders(current, previous);
    assert ps[0] == PercentHeader(current);
    OldPercentHeaded(g, l, ps, DifferenceHeaders(current, previous), PercentHeader(current), c);
  }

  /** An old column headed `s` stays the first one so headed; the first new column is headed `ps[0]`. */
  lemma OldPercentHeaded(g: Grid, l: Grid, ps: seq<string>, ds: seq<string>, s: string, c: nat)
    requires |ps| >= 1
    requires LaidOut(l, g, ps, ds)
    requires MaxCol(l) == MaxCol(g) + |ps| + |ds| + 2
    requires ColumnHeaded(g, s) == Some(c)
    ensures c <= MaxCol(g) && ColumnHeaded(l, s) == Some(c)
    ensures Val(l, 1, MaxCol(g) + 1) == Text(ps[0])
  {
    var ok := Test(Exactly(s));
    assert ColumnHeaded(g, s) == FirstHeader(g, ok, 1, MaxCol(g) + 1);
    assert At(l, 1, c) == LayoutAt(g, ps, ds, 1, c);
    LayoutKeepsOldColumns(g, ps, ds, 1, c);
    forall j | 1 <= j < c ensures Val(l, 1, j) != Text(s) {
      assert At(l, 1, j) == LayoutAt(g, ps, ds, 1, j);
      LayoutKeepsOldColumns(g, ps, ds, 1, j);
      assert !ok(Val(g, 1, j));
    }
    FirstHeadedAt(l, s, c);
    assert At(l, 1, MaxCol(g) + 1) == LayoutAt(g, ps, ds, 1, MaxCol(g) + 1);
    LayoutHeaders(g, ps, ds, MaxCol(g) + 1);
  }
}
