/**
 * Sixth nationality stage (per_nationality_stage6.py) and its copy
 * stage10.py.  Both fill a sheet laid out by the earlier stages:
 *   - the twelve "{Mon} {year}" columns get the sum of their day columns,
 *     and "Total {year}" the sum of the month columns;
 *   - the Total Rooms and Total Camping rows get the sum of their group,
 *     passing over black cells;
 *   - "Percent to Total {y}" and "Percent difference {cur} - {y}" columns get
 *     their ratios.
 * per_nationality_stage6.py catches every error inside the pass that raised
 * it and goes on (`guarded`); stage10.py has no error handling, so an error
 * ends the program before anything is saved.  That is their only difference.
 */
module NatStage6 {
  import opened Cells
  import opened Sheets
  import opened Dicts
  import opened MonthColumns
  import opened NatStage1

  /** find_total_current_year_column: columns 2 .. total_column. */
  function TotalYearColumn(g: Grid, tcol: nat, year: int): Option<nat>
  {
    FirstHeader(g, Test(Stripped(TotalHeader(year))), 2, tcol + 1)
  }

  // ---------------------------------------------------------------------
  // The month columns of the current year: find_existing_monthly_columns

  /** `f"{month} {current_year}"` for month m of April .. March */
  function MonthTitle(m: nat, year: int): (s: string)
    requires m < 12
    ensures |s| > 4 && s[..3] == APRIL_TO_MARCH[m]
  {
    APRIL_TO_MARCH[m] + " " + IntText(year)
  }

  /** `[f"{month} {current_year}" for month in MONTHS]` */
  function MonthTitles(year: int): (ts: seq<string>)
    ensures |ts| == 12 && forall m :: 0 <= m < 12 ==> ts[m] == MonthTitle(m, year)
  {
    seq(12, m requires 0 <= m < 12 => MonthTitle(m, year))
  }

  /** Two different months never share a title. */
  lemma MonthTitlesDiffer(m: nat, n: nat, year: int)
    requires m < 12 && n < 12 && m != n
    ensures MonthTitle(m, year) != MonthTitle(n, year)
  {
    assert MonthTitle(m, year)[..3] == APRIL_TO_MARCH[m];
    assert MonthTitle(n, year)[..3] == APRIL_TO_MARCH[n];
  }

  /** A string header that is one of `titles`. */
  predicate Titled(h: Cell, titles: seq<string>)
  {
    IsStr(h) && Render(h) in titles
  }

  /** A string header that is a month title. */
  predicate TitledMonth(h: Cell, year: int)
  {
    Titled(h, MonthTitles(year))
  }

  /** Only text can be a month title: a formula renders as "=". */
  lemma TitledMonthIsText(h: Cell, year: int)
    requires TitledMonth(h, year)
    ensures h == Text(Render(h))
  {
  }

  /**
   * The dictionary built over columns lo .. hi-1: every header among
   * `titles` is stored with its column, a later column overwriting an
   * earlier one with the same title.
   */
  function TitledColumns(g: Grid, lo: nat, hi: nat, titles: seq<string>): Dict<nat>
    decreases hi - lo
  {
    if hi <= lo then []
    else
      var d := TitledColumns(g, lo, hi - 1, titles);
      var h := Val(g, 1, hi - 1);
      if Titled(h, titles) then Store(d, Render(h), hi - 1) else d
  }

  /** The dictionary of the month titles of the year. */
  function MonthlyColumns(g: Grid, lo: nat, hi: nat, year: int): Dict<nat>
  {
    TitledColumns(g, lo, hi, MonthTitles(year))
  }

  /** The last column in lo .. hi-1 headed exactly `s`. */
  function LastHeaded(g: Grid, s: string, lo: nat, hi: nat): (c: Option<nat>)
    ensures c.None? <==> forall j :: lo <= j < hi ==> Val(g, 1, j) != Text(s)
    ensures c.Some? ==> lo <= c.value < hi && Val(g, 1, c.value) == Text(s)
    ensures c.Some? ==> forall j :: c.value < j < hi ==> Val(g, 1, j) != Text(s)
    decreases hi - lo
  {
    if hi <= lo then None
    else if Val(g, 1, hi - 1) == Text(s) then Some(hi - 1)
    else LastHeaded(g, s, lo, hi - 1)
  }

  /**
   * What the dictionary holds: a month title finds the last column headed
   * by it, any other key finds nothing, and no key is stored twice.
   */
  lemma MonthlyColumnsLookup(g: Grid, lo: nat, hi: nat, year: int, k: string)
    ensures Lookup(MonthlyColumns(g, lo, hi, year), k) == if k in MonthTitles(year) then LastHeaded(g, k, lo, hi) else None
  {
    forall h | TitledMonth(h, year)
      ensures h == Text(Render(h))
    {
      TitledMonthIsText(h, year);
    }
    TitledColumnsLookup(g, lo, hi, MonthTitles(year), k);
  }

  /** MonthlyColumnsLookup for any titles that only text can carry. */
  lemma {:induction false} TitledColumnsLookup(g: Grid, lo: nat, hi: nat, titles: seq<string>, k: string)
    requires forall h :: Titled(h, titles) ==> h == Text(Render(h))
    ensures Lookup(TitledColumns(g, lo, hi, titles), k) == if k in titles then LastHeaded(g, k, lo, hi) else None
    decreases hi - lo
  {
    if hi > lo {
      TitledColumnsLookup(g, lo, hi - 1, titles, k);
      TitleStored(TitledColumns(g, lo, hi - 1, titles), TitledColumns(g, lo, hi, titles), Val(g, 1, hi - 1), hi - 1, titles, k,
                  LastHeaded(g, k, lo, hi - 1), LastHeaded(g, k, lo, hi));
    }
  }

  /** One column of the scan, for the key k. */
  lemma TitleStored(d: Dict<nat>, e: Dict<nat>, h: Cell, c: nat, titles: seq<string>, k: string, prev: Option<nat>, now: Option<nat>)
    requires Titled(h, titles) ==> h == Text(Render(h))
    requires Lookup(d, k) == if k in titles then prev else None
    requires e == if Titled(h, titles) then Store(d, Render(h), c) else d
    requires now == if h == Text(k) then Some(c) else prev
    ensures Lookup(e, k) == if k in titles then now else None
  {
    if Titled(h, titles) {
      StoreLookupAt(d, Render(h), c, k);
    } else if k in titles {
      assert h != Text(k);
    }
  }

  /** No title is stored twice. */
  lemma MonthlyColumnsUnique(g: Grid, lo: nat, hi: nat, year: int)
    ensures UniqueKeys(MonthlyColumns(g, lo, hi, year))
  {
    TitledColumnsUnique(g, lo, hi, MonthTitles(year));
  }

  lemma {:induction false} TitledColumnsUnique(g: Grid, lo: nat, hi: nat, titles: seq<string>)
    ensures UniqueKeys(TitledColumns(g, lo, hi, titles))
    decreases hi - lo
  {
    if hi > lo {
      TitledColumnsUnique(g, lo, hi - 1, titles);
      var h := Val(g, 1, hi - 1);
      if Titled(h, titles) {
        StoreUnique(TitledColumns(g, lo, hi - 1, titles), Render(h), hi - 1);
      }
    }
  }

  /** Every column the dictionary finds is headed by the title that finds it. */
  ghost predicate HeadedBy(g: Grid, cols: Dict<nat>)
  {
    forall k :: Lookup(cols, k).Some? ==> Lookup(cols, k).value >= 2 && Val(g, 1, Lookup(cols, k).value) == Text(k)
  }

  lemma MonthlyColumnsHeaded(g: Grid, hi: nat, year: int)
    ensures HeadedBy(g, MonthlyColumns(g, 2, hi, year))
  {
    forall k | Lookup(MonthlyColumns(g, 2, hi, year), k).Some?
      ensures Val(g, 1, Lookup(MonthlyColumns(g, 2, hi, year), k).value) == Text(k)
      ensures Lookup(MonthlyColumns(g, 2, hi, year), k).value >= 2
    {
      MonthlyColumnsLookup(g, 2, hi, year, k);
    }
  }

  /** Column c is the last one in lo .. hi-1 carrying its month title. */
  predicate LastMonthColumn(g: Grid, lo: nat, hi: nat, year: int, c: nat)
  {
    && lo <= c < hi && Val(g, 1, c).Text? && Val(g, 1, c).s in MonthTitles(year)
    && forall j :: c < j < hi ==> Val(g, 1, j) != Val(g, 1, c)
  }

  /**
   * The columns `monthly_columns.values()` lists, which insert_total_sums
   * adds up: exactly the last column of each month title present, each once.
   */
  lemma MonthlyColumnsValues(g: Grid, lo: nat, hi: nat, year: int)
    ensures var vs := Values(MonthlyColumns(g, lo, hi, year));
      && (forall t :: 0 <= t < |vs| ==> LastMonthColumn(g, lo, hi, year, vs[t]))
      && (forall c :: LastMonthColumn(g, lo, hi, year, c) ==> c in vs)
      && (forall s, t :: 0 <= s < t < |vs| ==> vs[s] != vs[t])
  {
    var d := MonthlyColumns(g, lo, hi, year);
    var vs := Values(d);
    MonthlyColumnsUnique(g, lo, hi, year);
    forall t | 0 <= t < |vs|
      ensures LastMonthColumn(g, lo, hi, year, vs[t])
    {
      LookupUnique(d, t);
      MonthlyColumnsLookup(g, lo, hi, year, d[t].0);
    }
    forall c: nat | LastMonthColumn(g, lo, hi, year, c)
      ensures c in vs
    {
      var k := Val(g, 1, c).s;
      MonthlyColumnsLookup(g, lo, hi, year, k);
      LookupEntry(d, k);
      var t :| 0 <= t < |d| && d[t] == (k, Lookup(d, k).value);
      assert vs[t] == c;
    }
    forall s, t | 0 <= s < t < |vs|
      ensures vs[s] != vs[t]
    {
      LookupUnique(d, s);
      LookupUnique(d, t);
      MonthlyColumnsLookup(g, lo, hi, year, d[s].0);
      MonthlyColumnsLookup(g, lo, hi, year, d[t].0);
    }
  }

  /** The scan of find_existing_monthly_columns, storing into the dictionary. */
  method FindMonthlyColumns(ws: Worksheet, lo: nat, hi: nat, year: int) returns (d: Dict<nat>)
    ensures d == MonthlyColumns(ws.grid, lo, hi, year)
  {
    d := [];
    var titles := MonthTitles(year);
    var col := lo;
    while col < hi
      invariant lo <= col && (col <= hi || col == lo)
      invariant d == MonthlyColumns(ws.grid, lo, col, year)
    {
      var h := Val(ws.grid, 1, col);
      if IsStr(h) && Render(h) in titles {
        d := Store(d, Render(h), col);
      }
      col := col + 1;
    }
  }

  // ---------------------------------------------------------------------
  // Month sums: insert_monthly_sums

  /** should_skip_row / should_stop_summing: a "pan_pan" or "sep_row" row. */
  predicate Separator(g: Grid, r: int)
  {
    Val(g, r, 1) == Text("pan_pan") || Val(g, r, 1) == Text("sep_row")
  }

  /** A row the month and total columns are filled in. */
  predicate SumRow(g: Grid, r: int, tr: Option<nat>, tc: Option<nat>)
  {
    !IsTotalRow(r, tr, tc) && !Separator(g, r)
  }

  /** Row r of a month column: `=SUM(first:last)` of the same row. */
  function MonthSumEntry(g: Grid, sp: Span, tr: Option<nat>, tc: Option<nat>, r: nat): Option<Cell>
  {
    if SumRow(g, r, tr, tc) then Some(Fx(SumRange(Ref(r, sp.first), Ref(r, sp.last)))) else None
  }

  /** One month's column filled in over rows 2 .. max_row. */
  function MonthColumnFill(h: Grid, c: nat, sp: Span, maxRow: nat, tr: Option<nat>, tc: Option<nat>): (e: Grid)
    requires c >= 1
    ensures forall i, j :: Val(e, i, j) ==
                           if j == c && 2 <= i <= maxRow && SumRow(h, i, tr, tc) then Fx(SumRange(Ref(i, sp.first), Ref(i, sp.last)))
                           else Val(h, i, j)
    ensures forall i, j :: FillOf(e, i, j) == FillOf(h, i, j)
    ensures h.rows <= e.rows
  {
    FillCol(h, c, 2, maxRow + 1, (r: nat) => MonthSumEntry(h, sp, tr, tc, r))
  }

  /** The column month m's sums go to: a month needs both a range and a column. */
  function Target(ranges: Ranges, cols: Dict<nat>, m: nat, year: int): Option<nat>
    requires m < |ranges| && m < 12
  {
    var c := Lookup(cols, MonthTitle(m, year));
    if ranges[m].Some? && c.Some? && c.value != 0 then c else None
  }

  /** The sheet after the first k months of the loop. */
  function MonthSumsUpTo(g: Grid, ranges: Ranges, cols: Dict<nat>, k: nat, maxRow: nat,
                         tr: Option<nat>, tc: Option<nat>, year: int): (out: Grid)
    requires k <= |ranges| && k <= 12
    ensures g.rows <= out.rows
  {
    if k == 0 then g
    else
      var h := MonthSumsUpTo(g, ranges, cols, k - 1, maxRow, tr, tc, year);
      var c := Target(ranges, cols, k - 1, year);
      if c.Some? then MonthColumnFill(h, c.value, ranges[k - 1].value, maxRow, tr, tc) else h
  }

  /** Column j is where one of the first k months puts its sums. */
  ghost predicate IsTarget(ranges: Ranges, cols: Dict<nat>, k: nat, year: int, j: int)
    requires k <= |ranges| && k <= 12
  {
    exists m :: 0 <= m < k && Target(ranges, cols, m, year) == Some(j)
  }

  /** A month's target column is headed by its title, so it is not column 1. */
  lemma TargetHeaded(g: Grid, ranges: Ranges, cols: Dict<nat>, m: nat, year: int)
    requires m < |ranges| && m < 12 && HeadedBy(g, cols)
    ensures Target(ranges, cols, m, year).Some? ==>
      Target(ranges, cols, m, year).value >= 2 && Val(g, 1, Target(ranges, cols, m, year).value) == Text(MonthTitle(m, year))
  {
  }

  /** Two months never write to the same column. */
  lemma TargetsDiffer(g: Grid, ranges: Ranges, cols: Dict<nat>, m: nat, n: nat, year: int)
    requires m < |ranges| && n < |ranges| && m < 12 && n < 12 && m != n && HeadedBy(g, cols)
    requires Target(ranges, cols, m, year).Some? && Target(ranges, cols, n, year).Some?
    ensures Target(ranges, cols, m, year) != Target(ranges, cols, n, year)
  {
    TargetHeaded(g, ranges, cols, m, year);
    TargetHeaded(g, ranges, cols, n, year);
    MonthTitlesDiffer(m, n, year);
  }

  /** Every eligible row of the first k months' columns holds that month's sum. */
  ghost predicate MonthsWritten(h: Grid, g: Grid, ranges: Ranges, cols: Dict<nat>, k: nat, maxRow: nat,
                                tr: Option<nat>, tc: Option<nat>, year: int)
    requires k <= |ranges| && k <= 12
  {
    forall m, i :: 0 <= m < k && Target(ranges, cols, m, year).Some? && 2 <= i <= maxRow && SumRow(g, i, tr, tc) ==>
      Val(h, i, Target(ranges, cols, m, year).value) == Fx(SumRange(Ref(i, ranges[m].value.first), Ref(i, ranges[m].value.last)))
  }

  /** Every other cell holds what it held, and no fill changed. */
  ghost predicate OthersKept(h: Grid, g: Grid, ranges: Ranges, cols: Dict<nat>, k: nat, maxRow: nat,
                             tr: Option<nat>, tc: Option<nat>, year: int)
    requires k <= |ranges| && k <= 12
  {
    && (forall i, j :: !(2 <= i <= maxRow && SumRow(g, i, tr, tc) && IsTarget(ranges, cols, k, year, j)) ==> Val(h, i, j) == Val(g, i, j))
    && (forall i, j :: FillOf(h, i, j) == FillOf(g, i, j))
  }

  /**
   * The month loop, cell by cell: every eligible row of a month's column
   * holds the sum over that month's day range, and nothing else changes.
   * The months write to different columns, so the order they are visited
   * in does not matter.
   */
  lemma {:induction false} MonthSumsCells(g: Grid, ranges: Ranges, cols: Dict<nat>, k: nat, maxRow: nat,
                                          tr: Option<nat>, tc: Option<nat>, year: int)
    requires k <= |ranges| && k <= 12 && HeadedBy(g, cols)
    ensures MonthsWritten(MonthSumsUpTo(g, ranges, cols, k, maxRow, tr, tc, year), g, ranges, cols, k, maxRow, tr, tc, year)
    ensures OthersKept(MonthSumsUpTo(g, ranges, cols, k, maxRow, tr, tc, year), g, ranges, cols, k, maxRow, tr, tc, year)
  {
    if k > 0 {
      MonthSumsCells(g, ranges, cols, k - 1, maxRow, tr, tc, year);
      MonthSumsKept(g, ranges, cols, k, maxRow, tr, tc, year);
      MonthSumsWritten(g, ranges, cols, k, maxRow, tr, tc, year);
    }
  }

  /** The k-th month leaves alone what is not its own column. */
  lemma MonthSumsKept(g: Grid, ranges: Ranges, cols: Dict<nat>, k: nat, maxRow: nat,
                      tr: Option<nat>, tc: Option<nat>, year: int)
    requires 0 < k <= |ranges| && k <= 12 && HeadedBy(g, cols)
    requires OthersKept(MonthSumsUpTo(g, ranges, cols, k - 1, maxRow, tr, tc, year), g, ranges, cols, k - 1, maxRow, tr, tc, year)
    ensures OthersKept(MonthSumsUpTo(g, ranges, cols, k, maxRow, tr, tc, year), g, ranges, cols, k, maxRow, tr, tc, year)
  {
    var p := MonthSumsUpTo(g, ranges, cols, k - 1, maxRow, tr, tc, year);
    var h := MonthSumsUpTo(g, ranges, cols, k, maxRow, tr, tc, year);
    var c := Target(ranges, cols, k - 1, year);
    forall i, j | !(2 <= i <= maxRow && SumRow(g, i, tr, tc) && IsTarget(ranges, cols, k, year, j))
      ensures Val(h, i, j) == Val(g, i, j)
    {
      if IsTarget(ranges, cols, k - 1, year, j) {
        var m :| 0 <= m < k - 1 && Target(ranges, cols, m, year) == Some(j);
        assert IsTarget(ranges, cols, k, year, j);
      }
      if c.Some? && j == c.value {
        assert IsTarget(ranges, cols, k, year, j);
      }
    }
  }

  /** The k-th month writes its column and keeps what the earlier ones wrote. */
  lemma MonthSumsWritten(g: Grid, ranges: Ranges, cols: Dict<nat>, k: nat, maxRow: nat,
                         tr: Option<nat>, tc: Option<nat>, year: int)
    requires 0 < k <= |ranges| && k <= 12 && HeadedBy(g, cols)
    requires MonthsWritten(MonthSumsUpTo(g, ranges, cols, k - 1, maxRow, tr, tc, year), g, ranges, cols, k - 1, maxRow, tr, tc, year)
    requires OthersKept(MonthSumsUpTo(g, ranges, cols, k - 1, maxRow, tr, tc, year), g, ranges, cols, k - 1, maxRow, tr, tc, year)
    ensures MonthsWritten(MonthSumsUpTo(g, ranges, cols, k, maxRow, tr, tc, year), g, ranges, cols, k, maxRow, tr, tc, year)
  {
    var p := MonthSumsUpTo(g, ranges, cols, k - 1, maxRow, tr, tc, year);
    var h := MonthSumsUpTo(g, ranges, cols, k, maxRow, tr, tc, year);
    forall m, i | 0 <= m < k && Target(ranges, cols, m, year).Some? && 2 <= i <= maxRow && SumRow(g, i, tr, tc)
      ensures Val(h, i, Target(ranges, cols, m, year).value) == Fx(SumRange(Ref(i, ranges[m].value.first), Ref(i, ranges[m].value.last)))
    {
      if m < k - 1 {
        EarlierMonthStays(g, ranges, cols, k, maxRow, tr, tc, year, m, i);
      } else {
        ColumnOneKept(g, ranges, cols, k - 1, maxRow, tr, tc, year, i);
        NewMonthWritten(g, ranges, cols, k, maxRow, tr, tc, year, i);
      }
    }
  }

  /** Month k-1 writes only its own column, which is no earlier month's. */
  lemma EarlierMonthStays(g: Grid, ranges: Ranges, cols: Dict<nat>, k: nat, maxRow: nat,
                          tr: Option<nat>, tc: Option<nat>, year: int, m: nat, i: int)
    requires 0 < k <= |ranges| && k <= 12 && HeadedBy(g, cols) && m < k - 1 && Target(ranges, cols, m, year).Some?
    ensures var c := Target(ranges, cols, m, year).value;
      Val(MonthSumsUpTo(g, ranges, cols, k, maxRow, tr, tc, year), i, c) == Val(MonthSumsUpTo(g, ranges, cols, k - 1, maxRow, tr, tc, year), i, c)
  {
    if Target(ranges, cols, k - 1, year).Some? {
      TargetsDiffer(g, ranges, cols, m, k - 1, year);
    }
  }

  /** Month k-1 fills every eligible row of its column. */
  lemma NewMonthWritten(g: Grid, ranges: Ranges, cols: Dict<nat>, k: nat, maxRow: nat,
                        tr: Option<nat>, tc: Option<nat>, year: int, i: int)
    requires 0 < k <= |ranges| && k <= 12 && Target(ranges, cols, k - 1, year).Some?
    requires 2 <= i <= maxRow && SumRow(g, i, tr, tc)
    requires Val(MonthSumsUpTo(g, ranges, cols, k - 1, maxRow, tr, tc, year), i, 1) == Val(g, i, 1)
    ensures Val(MonthSumsUpTo(g, ranges, cols, k, maxRow, tr, tc, year), i, Target(ranges, cols, k - 1, year).value)
      == Fx(SumRange(Ref(i, ranges[k - 1].value.first), Ref(i, ranges[k - 1].value.last)))
  {
  }

  /** The month loop never writes column 1, so the row labels stay. */
  lemma ColumnOneKept(g: Grid, ranges: Ranges, cols: Dict<nat>, k: nat, maxRow: nat,
                      tr: Option<nat>, tc: Option<nat>, year: int, i: int)
    requires k <= |ranges| && k <= 12 && HeadedBy(g, cols)
    requires OthersKept(MonthSumsUpTo(g, ranges, cols, k, maxRow, tr, tc, year), g, ranges, cols, k, maxRow, tr, tc, year)
    ensures Val(MonthSumsUpTo(g, ranges, cols, k, maxRow, tr, tc, year), i, 1) == Val(g, i, 1)
  {
    if IsTarget(ranges, cols, k, year, 1) {
      var m :| 0 <= m < k && Target(ranges, cols, m, year) == Some(1);
      TargetHeaded(g, ranges, cols, m, year);
    }
  }

  /** The loop over the months of `month_ranges`. */
  method InsertMonthlySums(ws: Worksheet, maxRow: nat, ranges: Ranges, cols: Dict<nat>,
                           tr: Option<nat>, tc: Option<nat>, year: int)
    requires |ranges| == 12
    modifies ws
    ensures ws.grid == MonthSumsUpTo(old(ws.grid), ranges, cols, 12, maxRow, tr, tc, year)
  {
    ghost var g := ws.grid;
    var m := 0;
    while m < 12
      invariant 0 <= m <= 12
      invariant ws.grid == MonthSumsUpTo(g, ranges, cols, m, maxRow, tr, tc, year)
    {
      var c := Lookup(cols, MonthTitle(m, year));
      if ranges[m].Some? && c.Some? && c.value != 0 {
        FillMonthColumn(ws, c.value, ranges[m].value, maxRow, tr, tc);
      }
      m := m + 1;
    }
  }

  /** One month: every eligible row 2 .. max_row of its column gets its sum. */
  method FillMonthColumn(ws: Worksheet, col: nat, sp: Span, maxRow: nat, tr: Option<nat>, tc: Option<nat>)
    requires col >= 1
    modifies ws
    ensures ws.grid == MonthColumnFill(old(ws.grid), col, sp, maxRow, tr, tc)
  {
    ghost var g := ws.grid;
    var row := 2;
    while row <= maxRow
      invariant 2 <= row <= maxRow + 1 || (row == 2 && maxRow < 2)
      invariant ws.grid == FillCol(g, col, 2, row, (r: nat) => MonthSumEntry(g, sp, tr, tc, r))
    {
      assert Val(ws.grid, row, 1) == Val(g, row, 1);
      if SumRow(ws.grid, row, tr, tc) {
        ws.SetCell(row, col, Fx(SumRange(Ref(row, sp.first), Ref(row, sp.last))));
      }
      row := row + 1;
    }
  }

  // ---------------------------------------------------------------------
  // The year's total column: insert_total_sums

  /** `[f'{col}{row}' for col in sum_range_letters]`: row r of each column in cs. */
  function RowRefs(r: nat, cs: seq<nat>): (refs: seq<Ref>)
    ensures |refs| == |cs| && forall t :: 0 <= t < |cs| ==> refs[t] == Ref(r, cs[t])
  {
    seq(|cs|, t requires 0 <= t < |cs| => Ref(r, cs[t]))
  }

  /** Row r of the total column: `=SUM(` of the row's month cells. */
  function TotalSumEntry(g: Grid, cs: seq<nat>, tr: Option<nat>, tc: Option<nat>, r: nat): Option<Cell>
  {
    if SumRow(g, r, tr, tc) then Some(Fx(SumOf(RowRefs(r, cs)))) else None
  }

  /** The total column `total` is found and nonzero, and row i is one it fills. */
  predicate TotalCell(g: Grid, maxRow: nat, total: Option<nat>, tr: Option<nat>, tc: Option<nat>, i: int, j: int)
  {
    total.Some? && total.value != 0 && j == total.value && 2 <= i <= maxRow && SumRow(g, i, tr, tc)
  }

  /**
   * insert_total_sums: without a total column nothing changes; otherwise
   * every eligible row of it gets the sum of the row's month columns, in
   * yellow.
   */
  function TotalSums(g: Grid, maxRow: nat, cs: seq<nat>, total: Option<nat>, tr: Option<nat>, tc: Option<nat>): (h: Grid)
    ensures forall i, j :: Val(h, i, j) == if TotalCell(g, maxRow, total, tr, tc, i, j) then Fx(SumOf(RowRefs(i, cs))) else Val(g, i, j)
    ensures forall i, j :: FillOf(h, i, j) == if TotalCell(g, maxRow, total, tr, tc, i, j) then SolidColour else FillOf(g, i, j)
    ensures g.rows <= h.rows
  {
    if total.None? || total.value == 0 then g
    else MarkCol(g, total.value, 2, maxRow + 1, (r: nat) => TotalSumEntry(g, cs, tr, tc, r))
  }

  /** The row loop of insert_total_sums. */
  method InsertTotalSums(ws: Worksheet, maxRow: nat, cols: Dict<nat>, total: Option<nat>, tr: Option<nat>, tc: Option<nat>)
    modifies ws
    ensures ws.grid == TotalSums(old(ws.grid), maxRow, Values(cols), total, tr, tc)
  {
    if total.None? || total.value == 0 {
      return;
    }
    var cs := Values(cols);
    ghost var g := ws.grid;
    var row := 2;
    while row <= maxRow
      invariant 2 <= row <= maxRow + 1 || (row == 2 && maxRow < 2)
      invariant ws.grid == MarkCol(g, total.value, 2, row, (r: nat) => TotalSumEntry(g, cs, tr, tc, r))
    {
      assert Val(ws.grid, row, 1) == Val(g, row, 1);
      if SumRow(ws.grid, row, tr, tc) {
        ws.HighlightCell(row, total.value, Fx(SumOf(RowRefs(row, cs))));
      }
      row := row + 1;
    }
  }

  /** A month column is never taken for the year's total column. */
  lemma MonthIsNotTotal(m: nat, year: int)
    requires m < 12
    ensures !Passes(Stripped(TotalHeader(year)), Text(MonthTitle(m, year)))
  {
    var s := MonthTitle(m, year);
    var y := IntText(year);
    assert s == APRIL_TO_MARCH[m] + " " + y;
    assert s[|s| - 1] == y[|y| - 1];
    if year < 0 {
      assert y == "-" + NatText(-year);
    }
    StripKeeps(s);
    assert s[0] == APRIL_TO_MARCH[m][0];
    Spelling("Total ", y, |y|);
    assert TotalHeader(year)[0] == 'T';
  }

  // ---------------------------------------------------------------------
  // add_monthly_sums

  /**
   * add_monthly_sums over columns 2 .. total_column: the month ranges of the
   * day headers, the current year's month columns and its total column are
   * found on the sheet as it comes in; then the month columns and the total
   * column are filled.
   */
  function MonthlySums(g: Grid, maxRow: nat, tcol: nat, tr: Option<nat>, tc: Option<nat>, year: int): (h: Grid)
    ensures g.rows <= h.rows
  {
    var cols := MonthlyColumns(g, 2, tcol + 1, year);
    var months := MonthSumsUpTo(g, RangesUpTo(12, g, 2, tcol + 1, HeaderInMonth), cols, 12, maxRow, tr, tc, year);
    TotalSums(months, maxRow, Values(cols), TotalYearColumn(g, tcol, year), tr, tc)
  }

  /** The total column of every eligible row holds the sum of the month columns. */
  ghost predicate TotalWritten(h: Grid, g: Grid, maxRow: nat, cs: seq<nat>, total: Option<nat>, tr: Option<nat>, tc: Option<nat>)
  {
    total.Some? ==> forall i :: TotalCell(g, maxRow, total, tr, tc, i, total.value) ==> Val(h, i, total.value) == Fx(SumOf(RowRefs(i, cs)))
  }

  /** Cells outside the month and total columns' eligible rows keep their values. */
  ghost predicate RestKept(h: Grid, g: Grid, ranges: Ranges, cols: Dict<nat>, maxRow: nat, total: Option<nat>,
                           tr: Option<nat>, tc: Option<nat>, year: int)
    requires |ranges| == 12
  {
    forall i, j :: !(2 <= i <= maxRow && SumRow(g, i, tr, tc) && (IsTarget(ranges, cols, 12, year, j) || total == Some(j)))
      ==> Val(h, i, j) == Val(g, i, j)
  }

  /**
   * What add_monthly_sums does to the sheet: every eligible row of a month
   * column with a day range holds the sum over that range, every eligible
   * row of the total column holds the sum of the month columns, and every
   * other cell keeps its value.
   */
  lemma MonthlySumsCells(g: Grid, maxRow: nat, tcol: nat, tr: Option<nat>, tc: Option<nat>, year: int)
    ensures var ranges := RangesUpTo(12, g, 2, tcol + 1, HeaderInMonth);
      var cols := MonthlyColumns(g, 2, tcol + 1, year);
      var total := TotalYearColumn(g, tcol, year);
      var h := MonthlySums(g, maxRow, tcol, tr, tc, year);
      && MonthsWritten(h, g, ranges, cols, 12, maxRow, tr, tc, year)
      && TotalWritten(h, g, maxRow, Values(cols), total, tr, tc)
      && RestKept(h, g, ranges, cols, maxRow, total, tr, tc, year)
  {
    var ranges := RangesUpTo(12, g, 2, tcol + 1, HeaderInMonth);
    var cols := MonthlyColumns(g, 2, tcol + 1, year);
    MonthlyColumnsHeaded(g, tcol + 1, year);
    MonthSumsCells(g, ranges, cols, 12, maxRow, tr, tc, year);
    MonthlySumsMonths(g, maxRow, tcol, tr, tc, year);
    MonthlySumsTotal(g, maxRow, tcol, tr, tc, year);
  }

  /** The labels in column 1 survive the month loop. */
  lemma MonthLoopLabels(g: Grid, ranges: Ranges, cols: Dict<nat>, maxRow: nat, tr: Option<nat>, tc: Option<nat>, year: int)
    requires |ranges| == 12 && HeadedBy(g, cols)
    requires OthersKept(MonthSumsUpTo(g, ranges, cols, 12, maxRow, tr, tc, year), g, ranges, cols, 12, maxRow, tr, tc, year)
    ensures forall i :: Val(MonthSumsUpTo(g, ranges, cols, 12, maxRow, tr, tc, year), i, 1) == Val(g, i, 1)
  {
    forall i ensures Val(MonthSumsUpTo(g, ranges, cols, 12, maxRow, tr, tc, year), i, 1) == Val(g, i, 1) {
      ColumnOneKept(g, ranges, cols, 12, maxRow, tr, tc, year, i);
    }
  }

  /** The total column is filled after the month columns and never overwrites one. */
  lemma MonthlySumsMonths(g: Grid, maxRow: nat, tcol: nat, tr: Option<nat>, tc: Option<nat>, year: int)
    requires HeadedBy(g, MonthlyColumns(g, 2, tcol + 1, year))
    requires var ranges := RangesUpTo(12, g, 2, tcol + 1, HeaderInMonth);
      var months := MonthSumsUpTo(g, ranges, MonthlyColumns(g, 2, tcol + 1, year), 12, maxRow, tr, tc, year);
      MonthsWritten(months, g, ranges, MonthlyColumns(g, 2, tcol + 1, year), 12, maxRow, tr, tc, year)
    ensures MonthsWritten(MonthlySums(g, maxRow, tcol, tr, tc, year), g, RangesUpTo(12, g, 2, tcol + 1, HeaderInMonth),
                          MonthlyColumns(g, 2, tcol + 1, year), 12, maxRow, tr, tc, year)
  {
    var ranges := RangesUpTo(12, g, 2, tcol + 1, HeaderInMonth);
    var cols := MonthlyColumns(g, 2, tcol + 1, year);
    var h := MonthlySums(g, maxRow, tcol, tr, tc, year);
    forall m, i | 0 <= m < 12 && Target(ranges, cols, m, year).Some? && 2 <= i <= maxRow && SumRow(g, i, tr, tc)
      ensures Val(h, i, Target(ranges, cols, m, year).value) == Fx(SumRange(Ref(i, ranges[m].value.first), Ref(i, ranges[m].value.last)))
    {
      TargetHeaded(g, ranges, cols, m, year);
      MonthIsNotTotal(m, year);
    }
  }

  /** The total column holds the month sums, and the cells outside both keep their values. */
  lemma MonthlySumsTotal(g: Grid, maxRow: nat, tcol: nat, tr: Option<nat>, tc: Option<nat>, year: int)
    requires HeadedBy(g, MonthlyColumns(g, 2, tcol + 1, year))
    requires var ranges := RangesUpTo(12, g, 2, tcol + 1, HeaderInMonth);
      var months := MonthSumsUpTo(g, ranges, MonthlyColumns(g, 2, tcol + 1, year), 12, maxRow, tr, tc, year);
      OthersKept(months, g, ranges, MonthlyColumns(g, 2, tcol + 1, year), 12, maxRow, tr, tc, year)
    ensures var ranges := RangesUpTo(12, g, 2, tcol + 1, HeaderInMonth);
      var cols := MonthlyColumns(g, 2, tcol + 1, year);
      var total := TotalYearColumn(g, tcol, year);
      var h := MonthlySums(g, maxRow, tcol, tr, tc, year);
      && TotalWritten(h, g, maxRow, Values(cols), total, tr, tc)
      && RestKept(h, g, ranges, cols, maxRow, total, tr, tc, year)
  {
    var ranges := RangesUpTo(12, g, 2, tcol + 1, HeaderInMonth);
    var cols := MonthlyColumns(g, 2, tcol + 1, year);
    MonthLoopLabels(g, ranges, cols, maxRow, tr, tc, year);
  }

  /** add_monthly_sums: the three scans, then the two fills. */
  method AddMonthlySums(ws: Worksheet, maxRow: nat, tcol: nat, tr: Option<nat>, tc: Option<nat>, year: int)
    modifies ws
    ensures ws.grid == MonthlySums(old(ws.grid), maxRow, tcol, tr, tc, year)
  {
    var ranges, failed := ScanMonthRanges(ws, 12, 2, tcol + 1, true);
    var cols := FindMonthlyColumns(ws, 2, tcol + 1, year);
    var total := FindHeader(ws, Stripped(TotalHeader(year)), 2, tcol + 1);
    InsertMonthlySums(ws, maxRow, ranges, cols, tr, tc, year);
    InsertTotalSums(ws, maxRow, cols, total, tr, tc);
  }

  // ---------------------------------------------------------------------
  // The group total rows: insert_total_room_camping_sums

  /**
   * The walk up from row s: the nearest separator row at or above s, or
   * row 1 when there is none (should_stop_summing).
   */
  function StopRow(g: Grid, s: nat): (r: nat)
    ensures s <= 1 ==> r == s
    ensures s > 1 ==> 1 <= r <= s && (r == 1 || Separator(g, r))
    ensures forall i :: r < i <= s ==> !Separator(g, i)
    decreases s
  {
    if s <= 1 || Separator(g, s) then s else StopRow(g, s - 1)
  }

  /** The `while start_row > 1` loop. */
  method FindStopRow(ws: Worksheet, s: nat) returns (r: nat)
    ensures r == StopRow(ws.grid, s)
  {
    r := s;
    while r > 1
      invariant r <= s
      invariant StopRow(ws.grid, s) == StopRow(ws.grid, r)
    {
      if Separator(ws.grid, r) {
        return;
      }
      r := r - 1;
    }
  }

  /**
   * The scan treats row r of column c as black: check_fill holds for it, or
   * for the row above or below.  check_fill compares the start colour's rgb
   * with "00000000", which an unfilled cell has as well as a black one.
   */
  predicate Hit(g: Grid, c: nat, r: nat)
  {
    RgbZero(g, r, c) || (r > 1 && RgbZero(g, r - 1, c)) || (r < MaxRow(g) && RgbZero(g, r + 1, c))
  }

  /** What is_black_filled answers, and the sheet after it. */
  datatype Check = Check(grid: Grid, black: bool)

  /**
   * is_black_filled: a cell check_fill calls black answers yes and is left
   * alone; a cell under or over one is painted black and answers yes; any
   * other answers no.
   */
  function BlackCheck(g: Grid, r: nat, c: nat): (k: Check)
    requires r >= 1 && c >= 1
    ensures k.black == Hit(g, c, r)
    ensures forall i, j :: Val(k.grid, i, j) == Val(g, i, j)
    ensures forall i, j :: FillOf(k.grid, i, j) ==
                           if i == r && j == c && k.black && !RgbZero(g, r, c) then SolidBlack else FillOf(g, i, j)
    ensures r <= MaxRow(g) ==> k.grid.rows == g.rows
  {
    if RgbZero(g, r, c) then Check(g, true)
    else if r > 1 && RgbZero(g, r - 1, c) then Check(Paint(g, r, c), true)
    else if r < MaxRow(g) && RgbZero(g, r + 1, c) then Check(Paint(g, r, c), true)
    else Check(g, false)
  }

  method IsBlackFilled(ws: Worksheet, r: nat, c: nat) returns (b: bool)
    requires r >= 1 && c >= 1
    modifies ws
    ensures b == BlackCheck(old(ws.grid), r, c).black && ws.grid == BlackCheck(old(ws.grid), r, c).grid
  {
    if RgbZero(ws.grid, r, c) {
      return true;
    }
    if r > 1 && RgbZero(ws.grid, r - 1, c) {
      ws.PaintCell(r, c);
      return true;
    }
    if r < MaxRow(ws.grid) && RgbZero(ws.grid, r + 1, c) {
      ws.PaintCell(r, c);
      return true;
    }
    return false;
  }

  /** The rows kept for the sum, and the sheet after the scan. */
  datatype Scan = Scan(grid: Grid, kept: seq<nat>)

  /** The scan of column c over rows lo .. r-1, keeping the rows that are not black. */
  function ScanUpTo(g: Grid, c: nat, lo: nat, r: nat): Scan
    requires 1 <= lo && 1 <= c
    decreases r - lo
  {
    if r <= lo then Scan(g, [])
    else
      var p := ScanUpTo(g, c, lo, r - 1);
      var k := BlackCheck(p.grid, r - 1, c);
      Scan(k.grid, if k.black then p.kept else p.kept + [r - 1])
  }

  /** The first row in lo .. hi-1 the scan treats as black, or hi. */
  function FirstHit(g: Grid, c: nat, lo: nat, hi: nat): (f: nat)
    requires lo <= hi
    ensures lo <= f <= hi
    ensures f < hi ==> Hit(g, c, f)
    ensures forall i :: lo <= i < f ==> !Hit(g, c, i)
    decreases hi - lo
  {
    if hi == lo then hi
    else
      var f := FirstHit(g, c, lo, hi - 1);
      if f < hi - 1 || Hit(g, c, hi - 1) then f else hi
  }

  /** The rows lo .. hi-1 in order. */
  function Rows(lo: nat, hi: nat): (rs: seq<nat>)
    ensures |rs| == if lo <= hi then hi - lo else 0
    ensures forall t :: 0 <= t < |rs| ==> rs[t] == lo + t
  {
    if hi <= lo then [] else seq(hi - lo, t requires 0 <= t < hi - lo => lo + t)
  }

  /**
   * After the scan: values kept, and the rows from `from` to r-1 of column c
   * that check_fill did not already call black painted black; nothing else.
   */
  ghost predicate PaintedFrom(h: Grid, g: Grid, c: nat, from: int, r: int)
  {
    && (forall i, j :: Val(h, i, j) == Val(g, i, j))
    && (forall i, j :: FillOf(h, i, j) == if j == c && from <= i < r && !RgbZero(g, i, j) then SolidBlack else FillOf(g, i, j))
    && h.rows == g.rows
  }

  /**
   * The scan in closed form.  A row painted because of the row above makes
   * the next row look black too, so once the scan meets a black row, every
   * row after it in the group is painted and dropped: the sum keeps the rows
   * from the top of the group down to the first one the scan treats as black.
   */
  lemma {:induction false} ScanClosed(g: Grid, c: nat, lo: nat, r: nat)
    requires 1 <= lo <= r <= MaxRow(g) + 1 && 1 <= c
    ensures ScanUpTo(g, c, lo, r).kept == Rows(lo, FirstHit(g, c, lo, r))
    ensures PaintedFrom(ScanUpTo(g, c, lo, r).grid, g, c, FirstHit(g, c, lo, r), r)
    decreases r - lo
  {
    if r > lo {
      ScanClosed(g, c, lo, r - 1);
      ScanStep(g, c, lo, r);
    }
  }

  /** One more row of the scan. */
  lemma ScanStep(g: Grid, c: nat, lo: nat, r: nat)
    requires 1 <= lo < r <= MaxRow(g) + 1 && 1 <= c
    requires ScanUpTo(g, c, lo, r - 1).kept == Rows(lo, FirstHit(g, c, lo, r - 1))
    requires PaintedFrom(ScanUpTo(g, c, lo, r - 1).grid, g, c, FirstHit(g, c, lo, r - 1), r - 1)
    ensures ScanUpTo(g, c, lo, r).kept == Rows(lo, FirstHit(g, c, lo, r))
    ensures PaintedFrom(ScanUpTo(g, c, lo, r).grid, g, c, FirstHit(g, c, lo, r), r)
  {
    var p := ScanUpTo(g, c, lo, r - 1);
    var f := FirstHit(g, c, lo, r - 1);
    var k := BlackCheck(p.grid, r - 1, c);
    if f < r - 1 {
      assert FillOf(p.grid, r - 2, c) == if !RgbZero(g, r - 2, c) then SolidBlack else FillOf(g, r - 2, c);
      assert RgbZero(p.grid, r - 2, c);
      assert k.black;
    } else {
      assert Hit(p.grid, c, r - 1) == Hit(g, c, r - 1);
      if !k.black {
        assert Rows(lo, r) == Rows(lo, r - 1) + [r - 1];
      }
    }
  }

  /** The `for r in range(start_row + 1, total_row)` loop over one column. */
  method ScanColumn(ws: Worksheet, c: nat, lo: nat, hi: nat) returns (kept: seq<nat>)
    requires 1 <= lo && 1 <= c
    modifies ws
    ensures ws.grid == ScanUpTo(old(ws.grid), c, lo, hi).grid && kept == ScanUpTo(old(ws.grid), c, lo, hi).kept
  {
    ghost var g := ws.grid;
    kept := [];
    var r := lo;
    while r < hi
      invariant lo <= r && (r <= hi || r == lo)
      invariant ScanUpTo(g, c, lo, r) == Scan(ws.grid, kept)
    {
      var b := IsBlackFilled(ws, r, c);
      if !b {
        kept := kept + [r];
      }
      r := r + 1;
    }
  }

  /** `[f"{col_letter}{r}" for r in rows]` */
  function ColRefs(rows: seq<nat>, c: nat): (refs: seq<Ref>)
    ensures |refs| == |rows| && forall t :: 0 <= t < |rows| ==> refs[t] == Ref(rows[t], c)
  {
    seq(|rows|, t requires 0 <= t < |rows| => Ref(rows[t], c))
  }

  /**
   * The fill row i of column c ends with after that column's pass: the total
   * row's cell turns yellow when it gets a sum, and from the row f where the
   * sum stops down to the total row, every cell check_fill did not already
   * call black is painted black.
   */
  function ColumnFill(g: Grid, i: int, c: int, f: int, tr: int, summed: bool): Fill
  {
    if i == tr && summed then SolidColour
    else if f <= i < tr && !RgbZero(g, i, c) then SolidBlack
    else FillOf(g, i, c)
  }

  /** The first row of the group above total row tr. */
  function GroupTop(g: Grid, tr: nat): (r: nat)
    requires tr >= 2
    ensures 2 <= r <= tr
  {
    StopRow(g, tr - 1) + 1
  }

  /** Where the sum of column c stops: the first row of the group the scan treats as black, or tr. */
  function GroupEnd(g: Grid, c: nat, tr: nat): nat
    requires tr >= 2
  {
    FirstHit(g, c, GroupTop(g, tr), tr)
  }

  /** Column c has a header and at least one row of its group is summed. */
  predicate Summed(g: Grid, c: nat, tr: nat)
    requires tr >= 2
  {
    Val(g, 1, c) != Empty && GroupEnd(g, c, tr) > GroupTop(g, tr)
  }

  /** The formula the total row gets in column c. */
  function GroupFormula(g: Grid, c: nat, tr: nat): Formula
    requires tr >= 2
  {
    SumOf(ColRefs(Rows(GroupTop(g, tr), GroupEnd(g, c, tr)), c))
  }

  /** One column of insert_total_room_camping_sums. */
  function GroupColumn(g: Grid, c: nat, tr: nat): Grid
    requires 1 <= c && 2 <= tr
  {
    if Val(g, 1, c) == Empty then g
    else
      var s := ScanUpTo(g, c, StopRow(g, tr - 1) + 1, tr);
      if s.kept == [] then s.grid else Highlight(s.grid, tr, c, Fx(SumOf(ColRefs(s.kept, c))))
  }

  /**
   * What one column does to the sheet, with lo the top of the group and f
   * the row where the sum stops.
   */
  lemma GroupColumnCells(g: Grid, c: nat, tr: nat, lo: nat, f: nat)
    requires 1 <= c && 2 <= tr <= MaxRow(g)
    requires lo == GroupTop(g, tr) && f == GroupEnd(g, c, tr)
    ensures var h := GroupColumn(g, c, tr);
      && h.rows == g.rows
      && (forall i, j :: Val(h, i, j) ==
                         if i == tr && j == c && Val(g, 1, c) != Empty && f > lo then Fx(SumOf(ColRefs(Rows(lo, f), c))) else Val(g, i, j))
      && (forall i, j :: FillOf(h, i, j) ==
                         if j == c && Val(g, 1, c) != Empty then ColumnFill(g, i, c, f, tr, f > lo) else FillOf(g, i, j))
  {
    if Val(g, 1, c) != Empty {
      ScanClosed(g, c, lo, tr);
    }
  }

  /** The column loop over 2 .. k-1 for total row tr. */
  function GroupTotalsUpTo(g: Grid, tr: nat, k: nat): Grid
    requires 2 <= tr
  {
    if k <= 2 then g else GroupColumn(GroupTotalsUpTo(g, tr, k - 1), k - 1, tr)
  }

  /** insert_total_room_camping_sums over columns 2 .. total_column; nothing without a total row. */
  function GroupTotals(g: Grid, tcol: nat, tr: Option<nat>): Grid
    requires RowNo(tr)
  {
    if tr.None? then g else GroupTotalsUpTo(g, tr.value, tcol + 1)
  }

  /** The sheet after columns 2 .. k-1, each as if it were the only one. */
  ghost predicate GroupsDone(h: Grid, g: Grid, tr: nat, k: nat)
    requires 2 <= tr
  {
    && h.rows == g.rows
    && (forall i, j :: Val(h, i, j) == if i == tr && 2 <= j < k && Summed(g, j, tr) then Fx(GroupFormula(g, j, tr)) else Val(g, i, j))
    && (forall i, j :: FillOf(h, i, j) ==
          if 2 <= j < k && Val(g, 1, j) != Empty then ColumnFill(g, i, j, GroupEnd(g, j, tr), tr, Summed(g, j, tr))
          else FillOf(g, i, j))
  }

  /**
   * The whole loop in closed form: a column only paints and writes its own
   * cells, so every column is summed as it would be on the sheet as it came
   * in: the total row gets the sum of the group's rows down to the first
   * black one, the rows from there down are painted black, and nothing else
   * changes.
   */
  lemma {:induction false} GroupTotalsCells(g: Grid, tr: nat, k: nat)
    requires 2 <= tr <= MaxRow(g)
    ensures GroupsDone(GroupTotalsUpTo(g, tr, k), g, tr, k)
  {
    if k > 2 {
      GroupTotalsCells(g, tr, k - 1);
      GroupTotalsStep(g, tr, k);
    }
  }

  lemma GroupTotalsStep(g: Grid, tr: nat, k: nat)
    requires 2 <= tr <= MaxRow(g) && k > 2
    requires GroupsDone(GroupTotalsUpTo(g, tr, k - 1), g, tr, k - 1)
    ensures GroupsDone(GroupTotalsUpTo(g, tr, k), g, tr, k)
  {
    var p := GroupTotalsUpTo(g, tr, k - 1);
    var h := GroupTotalsUpTo(g, tr, k);
    var lo, f := GroupTop(g, tr), GroupEnd(g, k - 1, tr);
    NextColumn(g, p, tr, k - 1, lo, f);
    StepVals(g, p, h, tr, k, lo, f);
    StepFills(g, p, h, tr, k, lo, f);
  }

  /** Column c, done on a sheet where the earlier columns are done, acts as on the sheet that came in. */
  lemma NextColumn(g: Grid, p: Grid, tr: nat, c: nat, lo: nat, f: nat)
    requires 2 <= tr <= MaxRow(g) && c >= 2 && lo == GroupTop(g, tr) && f == GroupEnd(g, c, tr)
    requires GroupsDone(p, g, tr, c)
    ensures var h := GroupColumn(p, c, tr);
      && h.rows == g.rows
      && (forall i, j :: Val(h, i, j) ==
                         if i == tr && j == c && Val(g, 1, c) != Empty && f > lo then Fx(SumOf(ColRefs(Rows(lo, f), c))) else Val(p, i, j))
      && (forall i, j :: FillOf(h, i, j) ==
                         if j == c && Val(g, 1, c) != Empty then ColumnFill(p, i, c, f, tr, f > lo) else FillOf(p, i, j))
  {
    assert Val(p, 1, c) == Val(g, 1, c);
    StopRowSame(p, g, tr - 1);
    forall i ensures RgbZero(p, i, c) == RgbZero(g, i, c) {
      assert FillOf(p, i, c) == FillOf(g, i, c);
    }
    FirstHitSame(p, g, c, lo, tr);
    GroupColumnCells(p, c, tr, lo, f);
  }

  lemma StepVals(g: Grid, p: Grid, h: Grid, tr: nat, k: nat, lo: nat, f: nat)
    requires 2 <= tr && k > 2 && lo == GroupTop(g, tr) && f == GroupEnd(g, k - 1, tr)
    requires forall i, j :: Val(p, i, j) == if i == tr && 2 <= j < k - 1 && Summed(g, j, tr) then Fx(GroupFormula(g, j, tr)) else Val(g, i, j)
    requires forall i, j :: Val(h, i, j) ==
                            if i == tr && j == k - 1 && Val(g, 1, k - 1) != Empty && f > lo then Fx(SumOf(ColRefs(Rows(lo, f), k - 1))) else Val(p, i, j)
    ensures forall i, j :: Val(h, i, j) == if i == tr && 2 <= j < k && Summed(g, j, tr) then Fx(GroupFormula(g, j, tr)) else Val(g, i, j)
  {
  }

  lemma StepFills(g: Grid, p: Grid, h: Grid, tr: nat, k: nat, lo: nat, f: nat)
    requires 2 <= tr && k > 2 && lo == GroupTop(g, tr) && f == GroupEnd(g, k - 1, tr)
    requires forall i, j :: FillOf(p, i, j) ==
                            if 2 <= j < k - 1 && Val(g, 1, j) != Empty then ColumnFill(g, i, j, GroupEnd(g, j, tr), tr, Summed(g, j, tr))
                            else FillOf(g, i, j)
    requires forall i, j :: FillOf(h, i, j) ==
                            if j == k - 1 && Val(g, 1, k - 1) != Empty then ColumnFill(p, i, k - 1, f, tr, f > lo) else FillOf(p, i, j)
    ensures forall i, j :: FillOf(h, i, j) ==
                           if 2 <= j < k && Val(g, 1, j) != Empty then ColumnFill(g, i, j, GroupEnd(g, j, tr), tr, Summed(g, j, tr))
                           else FillOf(g, i, j)
  {
  }

  /** The walk up only reads the labels in column 1. */
  lemma {:induction false} StopRowSame(g: Grid, h: Grid, s: nat)
    requires forall i :: Val(g, i, 1) == Val(h, i, 1)
    ensures StopRow(g, s) == StopRow(h, s)
    decreases s
  {
    if s > 1 {
      StopRowSame(g, h, s - 1);
    }
  }

  /** The scan of column c only reads the fills of column c and `max_row`. */
  lemma {:induction false} FirstHitSame(g: Grid, h: Grid, c: nat, lo: nat, hi: nat)
    requires lo <= hi && g.rows == h.rows
    requires forall i :: RgbZero(g, i, c) == RgbZero(h, i, c)
    ensures FirstHit(g, c, lo, hi) == FirstHit(h, c, lo, hi)
    decreases hi - lo
  {
    if hi > lo {
      FirstHitSame(g, h, c, lo, hi - 1);
      assert Hit(g, c, hi - 1) == Hit(h, c, hi - 1);
    }
  }

  /** The formula adds the numeric cells of column c from the top of the group down to where the sum stops. */
  lemma {:induction false} GroupFormulaValue(h: Grid, g: Grid, c: nat, tr: nat)
    requires tr >= 2
    ensures FormulaValue(h, GroupFormula(g, c, tr)) == Some(ColSum(h, c, GroupTop(g, tr), GroupEnd(g, c, tr)))
  {
    ColumnRefsSum(h, c, GroupTop(g, tr), GroupEnd(g, c, tr));
  }

  lemma {:induction false} ColumnRefsSum(h: Grid, c: nat, lo: nat, hi: nat)
    requires lo <= hi
    ensures RefsSum(h, ColRefs(Rows(lo, hi), c)) == ColSum(h, c, lo, hi)
    decreases hi - lo
  {
    if hi > lo {
      ColumnRefsSum(h, c, lo, hi - 1);
      var refs := ColRefs(Rows(lo, hi), c);
      assert refs[..|refs| - 1] == ColRefs(Rows(lo, hi - 1), c);
    }
  }

  /** A cell check_fill calls black just above the group leaves the total row's cell of that column alone. */
  lemma BlackAboveGroup(g: Grid, c: nat, tr: nat)
    requires tr >= 2 && RgbZero(g, GroupTop(g, tr) - 1, c)
    ensures !Summed(g, c, tr)
  {
    assert Hit(g, c, GroupTop(g, tr));
  }

  /**
   * With every cell from the stop row down to the total row filled with a
   * colour other than black, the sum covers the whole group.
   */
  lemma NoBlackWholeGroup(g: Grid, c: nat, tr: nat)
    requires tr >= 2
    requires forall i :: GroupTop(g, tr) - 1 <= i <= tr ==> !RgbZero(g, i, c)
    ensures GroupEnd(g, c, tr) == tr
  {
  }

  /**
   * An unfilled first row of the group is one check_fill calls black, so the
   * column gets no sum and no value of the sheet changes.
   */
  lemma UnfilledTopNotSummed(g: Grid, c: nat, tr: nat)
    requires 1 <= c && 2 <= tr <= MaxRow(g)
    requires FillOf(g, GroupTop(g, tr), c) == NoFill
    ensures !Summed(g, c, tr)
    ensures forall i, j :: Val(GroupColumn(g, c, tr), i, j) == Val(g, i, j)
  {
    assert Hit(g, c, GroupTop(g, tr));
    GroupColumnCells(g, c, tr, GroupTop(g, tr), GroupEnd(g, c, tr));
  }

  /** One column: the header test, the walk up, the scan and the write. */
  method InsertGroupColumn(ws: Worksheet, c: nat, tr: nat)
    requires 1 <= c && 2 <= tr
    modifies ws
    ensures ws.grid == GroupColumn(old(ws.grid), c, tr)
  {
    if Val(ws.grid, 1, c) == Empty {
      return;
    }
    var s := FindStopRow(ws, tr - 1);
    var kept := ScanColumn(ws, c, s + 1, tr);
    if kept != [] {
      ws.HighlightCell(tr, c, Fx(SumOf(ColRefs(kept, c))));
    }
  }

  /** insert_total_room_camping_sums */
  method InsertGroupTotals(ws: Worksheet, tcol: nat, tr: Option<nat>)
    requires RowNo(tr)
    modifies ws
    ensures ws.grid == GroupTotals(old(ws.grid), tcol, tr)
  {
    if tr.None? {
      return;
    }
    ghost var g := ws.grid;
    var col := 2;
    while col <= tcol
      invariant 2 <= col <= tcol + 1 || (col == 2 && tcol < 2)
      invariant ws.grid == GroupTotalsUpTo(g, tr.value, col)
    {
      InsertGroupColumn(ws, col, tr.value);
      col := col + 1;
    }
  }

  // ---------------------------------------------------------------------
  // Percent to total: calculate_percent_to_total

  /** `total_rooms_row if "Rooms" in category else total_camping_row` */
  function RefRow(cat: Cell, tr: Option<nat>, tc: Option<nat>): Option<nat>
  {
    if Contains(Render(cat), "Rooms") then tr else tc
  }

  /** Row i gets a percent: its label is a string, its reference row exists, and both total cells are present. */
  predicate PercentApplies(g: Grid, tcol: nat, tr: Option<nat>, tc: Option<nat>, i: int)
  {
    var ref := RefRow(Val(g, i, 1), tr, tc);
    IsStr(Val(g, i, 1)) && ref.Some? && Val(g, i, tcol) != Empty && Val(g, ref.value, tcol) != Empty
  }

  /** `=total/reference`, with no guard against a zero reference. */
  function PercentFormula(g: Grid, tcol: nat, tr: Option<nat>, tc: Option<nat>, i: nat): Formula
    requires RefRow(Val(g, i, 1), tr, tc).Some?
  {
    Quotient(Ref(i, tcol), Ref(RefRow(Val(g, i, 1), tr, tc).value, tcol))
  }

  /** One row; a label that is not a string makes `"Rooms" in category` raise. */
  function PercentRow(g: Grid, pcol: nat, tcol: nat, tr: Option<nat>, tc: Option<nat>, i: nat): Pass
    requires 1 <= i && 1 <= pcol
  {
    if !IsStr(Val(g, i, 1)) then Pass(g, false)
    else if PercentApplies(g, tcol, tr, tc, i) then Pass(SetVal(g, i, pcol, Fx(PercentFormula(g, tcol, tr, tc, i))), true)
    else Pass(g, true)
  }

  /** The row loop over 2 .. r-1, on the sheet as the earlier rows left it. */
  function PercentRows(g: Grid, pcol: nat, tcol: nat, tr: Option<nat>, tc: Option<nat>, r: nat): Pass
    requires 1 <= pcol
  {
    if r <= 2 then Pass(g, true)
    else
      var p := PercentRows(g, pcol, tcol, tr, tc, r - 1);
      if !p.ok then p else PercentRow(p.grid, pcol, tcol, tr, tc, r - 1)
  }

  /** The first row in 2 .. hi-1 whose label is not a string, or hi. */
  function FirstNonStr(g: Grid, hi: nat): (f: nat)
    ensures f <= hi
    ensures f < hi ==> 2 <= f && !IsStr(Val(g, f, 1))
    ensures forall i :: 2 <= i < f ==> IsStr(Val(g, i, 1))
  {
    if hi <= 2 then hi
    else
      var f := FirstNonStr(g, hi - 1);
      if f < hi - 1 || !IsStr(Val(g, hi - 1, 1)) then f else hi
  }

  /** Rows 2 .. f-1 of column pcol hold their percents; every other cell and every fill is kept. */
  ghost predicate PercentsDone(h: Grid, g: Grid, pcol: nat, tcol: nat, tr: Option<nat>, tc: Option<nat>, f: nat)
  {
    && (forall i, j :: Val(h, i, j) ==
                       if j == pcol && 2 <= i < f && PercentApplies(g, tcol, tr, tc, i) then Fx(PercentFormula(g, tcol, tr, tc, i))
                       else Val(g, i, j))
    && (forall i, j :: FillOf(h, i, j) == FillOf(g, i, j))
  }

  /**
   * The row loop in closed form: it runs until the first row whose label is
   * not a string and raises there; every row before it whose reference row
   * exists and whose two total cells are present gets its percent.
   */
  lemma {:induction false} PercentRowsCells(g: Grid, pcol: nat, tcol: nat, tr: Option<nat>, tc: Option<nat>, r: nat)
    requires 2 <= pcol && pcol != tcol
    ensures PercentRows(g, pcol, tcol, tr, tc, r).ok <==> FirstNonStr(g, r) == r
    ensures PercentsDone(PercentRows(g, pcol, tcol, tr, tc, r).grid, g, pcol, tcol, tr, tc, FirstNonStr(g, r))
  {
    if r > 2 {
      PercentRowsCells(g, pcol, tcol, tr, tc, r - 1);
      PercentRowsStep(g, pcol, tcol, tr, tc, r);
    }
  }

  lemma PercentRowsStep(g: Grid, pcol: nat, tcol: nat, tr: Option<nat>, tc: Option<nat>, r: nat)
    requires 2 <= pcol && pcol != tcol && r > 2
    requires PercentRows(g, pcol, tcol, tr, tc, r - 1).ok <==> FirstNonStr(g, r - 1) == r - 1
    requires PercentsDone(PercentRows(g, pcol, tcol, tr, tc, r - 1).grid, g, pcol, tcol, tr, tc, FirstNonStr(g, r - 1))
    ensures PercentRows(g, pcol, tcol, tr, tc, r).ok <==> FirstNonStr(g, r) == r
    ensures PercentsDone(PercentRows(g, pcol, tcol, tr, tc, r).grid, g, pcol, tcol, tr, tc, FirstNonStr(g, r))
  {
    var p := PercentRows(g, pcol, tcol, tr, tc, r - 1);
    if p.ok {
      assert FirstNonStr(g, r - 1) == r - 1;
      PercentRowOk(g, p.grid, pcol, tcol, tr, tc, r - 1);
      assert FirstNonStr(g, r) == if IsStr(Val(g, r - 1, 1)) then r else r - 1;
    } else {
      assert PercentRows(g, pcol, tcol, tr, tc, r) == p;
      assert FirstNonStr(g, r) == FirstNonStr(g, r - 1);
    }
  }

  /** The row after a run of string labels. */
  lemma PercentRowOk(g: Grid, q: Grid, pcol: nat, tcol: nat, tr: Option<nat>, tc: Option<nat>, i: nat)
    requires 2 <= pcol && pcol != tcol && i >= 2
    requires PercentsDone(q, g, pcol, tcol, tr, tc, i)
    ensures PercentRow(q, pcol, tcol, tr, tc, i).ok <==> IsStr(Val(g, i, 1))
    ensures PercentsDone(PercentRow(q, pcol, tcol, tr, tc, i).grid, g, pcol, tcol, tr, tc, if IsStr(Val(g, i, 1)) then i + 1 else i)
  {
    assert Val(q, i, 1) == Val(g, i, 1);
    assert Val(q, i, tcol) == Val(g, i, tcol);
    var ref := RefRow(Val(g, i, 1), tr, tc);
    if ref.Some? {
      assert Val(q, ref.value, tcol) == Val(g, ref.value, tcol);
    }
    assert PercentApplies(q, tcol, tr, tc, i) == PercentApplies(g, tcol, tr, tc, i);
  }

  /** Once a row has raised, the later rows are not reached. */
  lemma {:induction false} PercentRowsStopped(g: Grid, pcol: nat, tcol: nat, tr: Option<nat>, tc: Option<nat>, a: nat, b: nat)
    requires 1 <= pcol && a <= b && !PercentRows(g, pcol, tcol, tr, tc, a).ok
    ensures PercentRows(g, pcol, tcol, tr, tc, b) == PercentRows(g, pcol, tcol, tr, tc, a)
    decreases b - a
  {
    if a < b {
      PercentRowsStopped(g, pcol, tcol, tr, tc, a, b - 1);
    }
  }

  /** The row loop of one year, reading the sheet as it goes. */
  method FillPercents(ws: Worksheet, pcol: nat, tcol: nat, tr: Option<nat>, tc: Option<nat>) returns (ok: bool)
    requires 1 <= pcol
    modifies ws
    ensures Pass(ws.grid, ok) == PercentRows(old(ws.grid), pcol, tcol, tr, tc, MaxRow(old(ws.grid)) + 1)
  {
    ghost var g := ws.grid;
    var maxRow := MaxRow(ws.grid);
    var row := 2;
    while row <= maxRow
      invariant 2 <= row <= maxRow + 1 || (row == 2 && maxRow < 2)
      invariant Pass(ws.grid, true) == PercentRows(g, pcol, tcol, tr, tc, row)
    {
      var cat := Val(ws.grid, row, 1);
      if !IsStr(cat) {
        PercentRowsStopped(g, pcol, tcol, tr, tc, row + 1, maxRow + 1);
        return false;
      }
      var ref := RefRow(cat, tr, tc);
      if ref.Some? && Val(ws.grid, row, tcol) != Empty && Val(ws.grid, ref.value, tcol) != Empty {
        ws.SetCell(row, pcol, Fx(Quotient(Ref(row, tcol), Ref(ref.value, tcol))));
      }
      row := row + 1;
    }
    return true;
  }

  /**
   * One year of calculate_percent_to_total: None when its percent or total
   * column is missing, or the sheet has neither total row, which ends the
   * pass; otherwise the row loop over its columns.
   */
  function PercentYear(g: Grid, y: int): Option<Pass>
  {
    var pcol := ColumnHeaded(g, PercentHeader(y));
    var tcol := ColumnHeaded(g, TotalHeader(y));
    var tr := LastLabelled(g, "Total Rooms", MaxRow(g));
    var tc := LastLabelled(g, "Total Camping", MaxRow(g));
    if pcol.None? || tcol.None? || (tr.None? && tc.None?) then None
    else Some(PercentRows(g, pcol.value, tcol.value, tr, tc, MaxRow(g) + 1))
  }

  /**
   * calculate_percent_to_total over the years in order.  A year whose
   * percent or total column is missing, or a sheet with neither total row,
   * ends the pass at that year; a label that is not a string raises.
   */
  function PercentYears(g: Grid, years: seq<int>): Pass
    decreases |years|
  {
    if years == [] then Pass(g, true)
    else
      var p := PercentYear(g, years[0]);
      if p.None? then Pass(g, true)
      else if !p.value.ok then p.value
      else PercentYears(p.value.grid, years[1..])
  }

  /** The percent and total columns of a year are different columns. */
  lemma PercentBesideTotal(g: Grid, y: int)
    requires ColumnHeaded(g, PercentHeader(y)).Some? && ColumnHeaded(g, TotalHeader(y)).Some?
    ensures ColumnHeaded(g, PercentHeader(y)) != ColumnHeaded(g, TotalHeader(y))
  {
    Spelling("Percent to Total ", IntText(y), |IntText(y)|);
    Spelling("Total ", IntText(y), |IntText(y)|);
    assert PercentHeader(y)[0] != TotalHeader(y)[0];
  }

  /** The body of the year loop of calculate_percent_to_total. */
  method PercentForYear(ws: Worksheet, y: int) returns (found: bool, ok: bool)
    modifies ws
    ensures found == PercentYear(old(ws.grid), y).Some?
    ensures !found ==> ws.grid == old(ws.grid)
    ensures found ==> Pass(ws.grid, ok) == PercentYear(old(ws.grid), y).value
  {
    var pcol := FindColumn(ws, PercentHeader(y));
    var tcol := FindColumn(ws, TotalHeader(y));
    var tr, tc := FindTotalRows(ws);
    if pcol.None? || tcol.None? || (tr.None? && tc.None?) {
      return false, true;
    }
    found := true;
    ok := FillPercents(ws, pcol.value, tcol.value, tr, tc);
  }

  /** The year loop of calculate_percent_to_total. */
  method CalculatePercentToTotal(ws: Worksheet, years: seq<int>) returns (ok: bool)
    modifies ws
    ensures Pass(ws.grid, ok) == PercentYears(old(ws.grid), years)
  {
    ghost var g := ws.grid;
    var t := 0;
    while t < |years|
      invariant 0 <= t <= |years|
      invariant PercentYears(g, years) == PercentYears(ws.grid, years[t..])
    {
      assert years[t..][0] == years[t] && years[t..][1..] == years[t + 1..];
      var found;
      found, ok := PercentForYear(ws, years[t]);
      if !found {
        return true;
      }
      if !ok {
        return;
      }
      t := t + 1;
    }
    return true;
  }

  /** A total row labelled as the scan finds it is its own reference row. */
  lemma TotalRowsReferThemselves(g: Grid, tr: Option<nat>, tc: Option<nat>)
    ensures RefRow(Text("Total Rooms"), tr, tc) == tr
    ensures RefRow(Text("Total Camping"), tr, tc) == tc
  {
    assert OccursAt("Total Rooms", "Rooms", 6);
    var s := "Total Camping";
    forall i | 0 <= i <= |s| - 5
      ensures !OccursAt(s, "Rooms", i)
    {
      assert s[i..i + 5][0] == s[i];
    }
  }

  /**
   * What Excel shows for a percent: the share of the reference total, with
   * `#DIV/0!` when the reference total is zero; so each total row shows 100%
   * unless it is zero.
   */
  lemma PercentValue(h: Grid, a: Ref, b: Ref)
    ensures Val(h, b.row, b.col) == Num(0.0) ==> FormulaValue(h, Quotient(a, b)).None?
    ensures forall x, y :: Val(h, a.row, a.col) == Num(x) && Val(h, b.row, b.col) == Num(y) && y != 0.0 ==>
      FormulaValue(h, Quotient(a, b)) == Some(x / y)
    ensures forall x :: Val(h, a.row, a.col) == Num(x) && x != 0.0 && a == b ==> FormulaValue(h, Quotient(a, b)) == Some(1.0)
  {
    forall x | Val(h, a.row, a.col) == Num(x) && x != 0.0 && a == b
      ensures FormulaValue(h, Quotient(a, b)) == Some(1.0)
    {
      assert x / x == 1.0;
    }
  }

  // ---------------------------------------------------------------------
  // Percent difference: calculate_percent_difference

  function DiffHeader(cur: int, y: int): string { Spelled("Percent difference ", IntText(cur) + " - " + IntText(y), |IntText(y)|) }

  /** Row r of a difference column: the guarded change, where both totals are present. */
  function ChangeEntry(g: Grid, ccol: nat, pcol: nat, r: nat): Option<Cell>
  {
    if Val(g, r, ccol) != Empty && Val(g, r, pcol) != Empty then Some(Fx(GuardedChange(Ref(r, ccol), Ref(r, pcol)))) else None
  }

  /** One year's difference column over rows 2 .. max_row. */
  function ChangeColumn(g: Grid, dcol: nat, ccol: nat, pcol: nat): (h: Grid)
    requires dcol >= 1
    ensures forall i, j :: Val(h, i, j) ==
                           if j == dcol && 2 <= i <= MaxRow(g) && Val(g, i, ccol) != Empty && Val(g, i, pcol) != Empty
                           then Fx(GuardedChange(Ref(i, ccol), Ref(i, pcol))) else Val(g, i, j)
    ensures forall i, j :: FillOf(h, i, j) == FillOf(g, i, j)
  {
    FillCol(g, dcol, 2, MaxRow(g) + 1, (r: nat) => ChangeEntry(g, ccol, pcol, r))
  }

  /** calculate_percent_difference over the previous years; stops at the first year with a column missing. */
  function DiffYears(g: Grid, cur: int, years: seq<int>): Grid
    decreases |years|
  {
    if years == [] then g
    else
      var dcol := ColumnHeaded(g, DiffHeader(cur, years[0]));
      var ccol := ColumnHeaded(g, TotalHeader(cur));
      var pcol := ColumnHeaded(g, TotalHeader(years[0]));
      if dcol.None? || ccol.None? || pcol.None? then g
      else DiffYears(ChangeColumn(g, dcol.value, ccol.value, pcol.value), cur, years[1..])
  }

  /** A difference column is never one of the total columns it reads. */
  lemma DiffBesideTotal(g: Grid, cur: int, y: int, z: int)
    requires ColumnHeaded(g, DiffHeader(cur, y)).Some? && ColumnHeaded(g, TotalHeader(z)).Some?
    ensures ColumnHeaded(g, DiffHeader(cur, y)) != ColumnHeaded(g, TotalHeader(z))
  {
    Spelling("Percent difference ", IntText(cur) + " - " + IntText(y), |IntText(y)|);
    Spelling("Total ", IntText(z), |IntText(z)|);
    assert DiffHeader(cur, y)[0] != TotalHeader(z)[0];
  }

  /** The row loop of one year. */
  method FillChanges(ws: Worksheet, dcol: nat, ccol: nat, pcol: nat)
    requires dcol >= 1 && dcol != ccol && dcol != pcol
    modifies ws
    ensures ws.grid == ChangeColumn(old(ws.grid), dcol, ccol, pcol)
  {
    ghost var g := ws.grid;
    var maxRow := MaxRow(ws.grid);
    var row := 2;
    while row <= maxRow
      invariant 2 <= row <= maxRow + 1 || (row == 2 && maxRow < 2)
      invariant ws.grid == FillCol(g, dcol, 2, row, (r: nat) => ChangeEntry(g, ccol, pcol, r))
    {
      assert Val(ws.grid, row, ccol) == Val(g, row, ccol) && Val(ws.grid, row, pcol) == Val(g, row, pcol);
      if Val(ws.grid, row, ccol) != Empty && Val(ws.grid, row, pcol) != Empty {
        ws.SetCell(row, dcol, Fx(GuardedChange(Ref(row, ccol), Ref(row, pcol))));
      }
      row := row + 1;
    }
  }

  /** The year loop of calculate_percent_difference. */
  method CalculatePercentDifference(ws: Worksheet, cur: int, years: seq<int>)
    modifies ws
    ensures ws.grid == DiffYears(old(ws.grid), cur, years)
  {
    ghost var g := ws.grid;
    var t := 0;
    while t < |years|
      invariant 0 <= t <= |years|
      invariant DiffYears(g, cur, years) == DiffYears(ws.grid, cur, years[t..])
    {
      assert years[t..][0] == years[t] && years[t..][1..] == years[t + 1..];
      var found := DiffYear(ws, cur, years[t]);
      if !found {
        return;
      }
      t := t + 1;
    }
  }

  /** One year of calculate_percent_difference: false when a column is missing. */
  method DiffYear(ws: Worksheet, cur: int, y: int) returns (found: bool)
    modifies ws
    ensures var g := old(ws.grid);
      var dcol := ColumnHeaded(g, DiffHeader(cur, y));
      var ccol := ColumnHeaded(g, TotalHeader(cur));
      var pcol := ColumnHeaded(g, TotalHeader(y));
      && found == (dcol.Some? && ccol.Some? && pcol.Some?)
      && ws.grid == (if found then ChangeColumn(g, dcol.value, ccol.value, pcol.value) else g)
  {
    var dcol := FindColumn(ws, DiffHeader(cur, y));
    var ccol := FindColumn(ws, TotalHeader(cur));
    var pcol := FindColumn(ws, TotalHeader(y));
    if dcol.None? || ccol.None? || pcol.None? {
      return false;
    }
    DiffBesideTotal(ws.grid, cur, y, cur);
    DiffBesideTotal(ws.grid, cur, y, y);
    FillChanges(ws, dcol.value, ccol.value, pcol.value);
    return true;
  }

  /**
   * What Excel shows for a difference: 0 when the previous total is 0 or
   * empty, and otherwise the change v with current = previous * (1 + v).
   */
  lemma ChangeValue(h: Grid, c: Ref, p: Ref)
    ensures Val(h, p.row, p.col) == Num(0.0) || Val(h, p.row, p.col) == Empty ==> FormulaValue(h, GuardedChange(c, p)) == Some(0.0)
    ensures forall x, y :: Val(h, c.row, c.col) == Num(x) && Val(h, p.row, p.col) == Num(y) && y != 0.0 ==>
      FormulaValue(h, GuardedChange(c, p)).Some? && x == y * (1.0 + FormulaValue(h, GuardedChange(c, p)).value)
  {
    forall x, y | Val(h, c.row, c.col) == Num(x) && Val(h, p.row, p.col) == Num(y) && y != 0.0
      ensures x == y * (1.0 + FormulaValue(h, GuardedChange(c, p)).value)
    {
      var v := (x - y) / y;
      assert y * v == x - y;
    }
  }

  // ---------------------------------------------------------------------
  // Day headers and the winter months

  /**
   * A day header ending in "/mm" for a real month mm never carries the
   * suffix /13, /14 or /15 that find_monthly_column_ranges looks for in
   * January to March, so those three months never get a range.
   */
  lemma WinterMonthsNeverMatch(prefix: string, mm: nat, m: nat)
    requires 1 <= mm <= 12 && 9 <= m < 12
    ensures !HeaderInMonth(Text(prefix + "/" + ZFill2(mm)), m)
  {
    SuffixNumbers();
    var z := ZFill2(mm);
    if mm < 10 {
      assert z == ['0', DigitChar(mm)];
    } else {
      assert z == NatText(1) + [DigitChar(mm % 10)];
      assert z == ['1', DigitChar(mm - 10)];
    }
    var h := prefix + "/" + z;
    var t := h[|h| - 3..];
    assert t == "/" + z;
    assert t[1] == z[0] && t[2] == z[1];
    var sfx := MonthSuffix(m);
    assert |sfx| == 3 && sfx[1] == '1' && '3' <= sfx[2] <= '5';
    assert t != sfx;
  }

  // ---------------------------------------------------------------------
  // The whole program: process_stage10

  /**
   * process_stage10 on the sheet as loaded, with `cur` the current year and
   * `prev` the previous years: the month and total columns, the two group
   * total rows, then the percent columns.  `None` when the program ends
   * with an error before saving, which only the unguarded copy can do.
   */
  function Stage6(g: Grid, cur: int, prev: seq<int>, guarded: bool): (out: Option<Grid>)
    ensures guarded ==> out.Some?
  {
    var maxRow, tcol := MaxRow(g), MaxCol(g);
    var tr := LastLabelled(g, "Total Rooms", maxRow);
    var tc := LastLabelled(g, "Total Camping", maxRow);
    var sums := GroupTotals(GroupTotals(MonthlySums(g, maxRow, tcol, tr, tc, cur), tcol, tr), tcol, tc);
    var pt := PercentYears(sums, [cur] + prev);
    if !pt.ok && !guarded then None else Some(DiffYears(pt.grid, cur, prev))
  }

  /** The passes in order, on one worksheet; `saved` is false when the program ended with an error. */
  method ProcessStage10(ws: Worksheet, cur: int, prev: seq<int>, guarded: bool) returns (saved: bool)
    modifies ws
    ensures saved == Stage6(old(ws.grid), cur, prev, guarded).Some?
    ensures saved ==> ws.grid == Stage6(old(ws.grid), cur, prev, guarded).value
  {
    var maxRow, tcol := MaxRow(ws.grid), MaxCol(ws.grid);
    var tr, tc := FindTotalRows(ws);
    AddMonthlySums(ws, maxRow, tcol, tr, tc, cur);
    InsertGroupTotals(ws, tcol, tr);
    InsertGroupTotals(ws, tcol, tc);
    var ok := CalculatePercentToTotal(ws, [cur] + prev);
    if !ok && !guarded {
      return false;
    }
    CalculatePercentDifference(ws, cur, prev);
    return true;
  }
}
