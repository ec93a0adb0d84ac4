# Occupancy report passes, modelled in Dafny

The repository builds seasonal availability and occupancy reports for
accommodations and camping areas, organised by zone, by type and by
nationality. Each report goes through a chain of numbered stages. Every
stage loads a spreadsheet, restructures it and saves it for the next stage:
- sentinel rows and columns are found by their labels;
- total, spacer and separator rows or columns are spliced in at computed
  positions;
- derived cells are filled with sums, ratios or Excel formulas.

This project models those stages as transformations of an in-memory grid
and proves what each one computes.

The stages are modelled per module.

Shared modules:
- `Cells`: what a cell holds — a number, text, a formula or nothing — plus
  the Python string operations the stages use.
- `Sheets`: an openpyxl worksheet. It is a map from (row, column) to a value
  and a fill, together with `max_row` and `max_column`. A
  `Worksheet` class holds that grid and changes it in place.
- `Dicts`: insertion-ordered Python dictionaries.
- `MonthColumns`: month ranges read off the "dd/mm" day headers.

Per-nationality pipeline:
- `NatStage1`: stage 1 and its finalizer.
- `NatStage2`: stage 2.
- `NatMerge`: stage 3, the merge with earlier years.
- `PercentLayout`: stage 5 and stage 9.
- `NatStage6`: stage 6 and stage 10.
- `YearInterleave`: stage 8.

Per-zone pipeline:
- `ZoneSections`: stages 1 and 5.
- `CategorySplice`: stage 2.
- `Capacity`: stage 3.
- `ZoneStage4`: stage 4.
- `CalendarAlign`: stage 6.
- `ZoneStage7`: stage 7.

Other:
- `TabParser`: the small tab-separated text reader in test.py.

Modelling choices:
- Formulas are kept symbolic, not as A1 text. `Sheets.FormulaValue` gives
  the value Excel would show for one, so each formula pass can be proved
  equal to the matching direct-sum pass.
- A cell's fill is part of the data: none, solid black, or another solid
  colour. `is_black_filled` and the separator columns read it back.
- Several source files come in near-identical pairs. Each pair has one
  model, and a parameter carries the difference between the two files:
  - a `guarded` flag or a `Variant` when the only difference is whether
    errors are caught;
  - `Flags` for `USE_FORMULAS` and `DO_CALCULATIONS`;
  - the year text written into headers.
- Where an operation changes a worksheet in place, it is a method on
  `Sheets.Worksheet`. Its `ensures` equates the new grid with a function of
  the old one, and lemmas state what that function promises.

## Edge cases the model keeps

- Division by zero in occupancy: per_zone_stage7.py writes `=sum/capacity`
  with no guard against a zero capacity. `ZoneStage7.OccupancyUnguarded`
  shows that the formula evaluates to #DIV/0! when the capacity is 0.
- Division by zero in percent-to-total: per_nationality_stage6.py writes
  `=total/reference` with no guard either (`NatStage6.PercentValue`). Its
  percent-difference column does have a guard.
- Zone group names:
  - The names are given by position. The first group closed by a blank row
    is "Accommodations", the second is "Youth Hostel", any later closed
    group gets "", and the trailing open group is "Camping".
  - This is regardless of what the rows contain.
- Calendar alignment:
  - The padding is the absolute day distance between the current start and
    the earliest start among the earlier years. The current sheet's own
    start is left out of that minimum.
  - So a sheet that starts before every earlier year is still padded
    (`CalendarAlign.PaddedEvenWhenEarlier`).
  - A date header that is text but does not parse becomes NaT, which is
    truthy: it is collected, and when it reaches `datetime(year, month,
    day)` the stage raises TypeError (`CalendarAlign.NaTStartRaises`).
  - The earlier years are processed in input order, and no earlier sheet is
    padded itself.
- Black cells in stage 6 and stage 10: `check_fill` compares the fill's
  start colour with "00000000", which an unfilled cell has as well. So an
  unfilled cell counts as black, and a group whose cells carry no fill gets
  no SUM (`NatStage6.UnfilledTopNotSummed`).
- Stage 1 month ranges: a truthy header that is not text raises inside the
  scan's handler, so the ranges found up to that column are kept.
- Finalizer: it has no handler around `find_camping_first_index`, so a table
  without a "Camping" row ends it with an error.

## Model

| member | source | states |
|---|---|---|
| Cells.TrimLeft | per_zone_stage3.py:48 | what lstrip() leaves is no longer than the text and does not start with white space |
| Cells.TrimRight | per_zone_stage3.py:48 | what rstrip() leaves is no longer than the text and does not end with white space |
| Cells.TrimLeftSuffix | per_zone_stage3.py:48 | lstrip() keeps a suffix of the text |
| Cells.TrimRightPrefix | per_zone_stage3.py:48 | rstrip() keeps a prefix of the text |
| Cells.TrimLeftSpaces | per_zone_stage3.py:48 | what lstrip() removes is white space only |
| Cells.TrimRightSpaces | per_zone_stage3.py:48 | what rstrip() removes is white space only |
| Cells.StripKeeps | per_zone_per_type_stage3.py:51 | text whose ends are not white space is left alone by strip() |
| Cells.StripEnds | per_zone_per_type_stage3.py:51 | strip() leaves text that neither starts nor ends with white space |
| Cells.StripIdempotent | per_zone_per_type_stage3.py:51 | strip() twice is strip() once |
| Cells.Lower | per_zone_stage6.py:42 | lower() keeps the length and lower-cases character by character |
| Cells.NatText | stage8.py:41 | the text of a natural number is one or more digits |
| Cells.IntText | stage8.py:84 | the text of an integer starts with a digit or a minus sign |
| Cells.ZFill2 | per_nationality_stage6.py:48 | zfill(2) of a number's text is at least two digits |
| Cells.NumText | per_nationality_stage6.py:405 | the text of a number starts with a digit or a minus sign; a whole non-negative number is its decimal digits, and a fraction has a point |
| Cells.ZeroPad | per_nationality_stage6.py:405 | the digits of a fraction part padded on the left to the given width, so leading fraction zeros are kept |
| Cells.TrimZeros | per_nationality_stage6.py:405 | a prefix of the fraction digits, at least one digit long, that ends in no zero unless it is a single digit |
| Cells.RenderStartsWithCapital | per_zone_stage6.py:153 | the text of a cell starts with a capitalised word exactly when the cell is text starting with it |
| Sheets.Put | per_zone_stage6.py:164 | writing a cell grows the sheet just enough to reach it and changes that cell only |
| Sheets.SetVal | per_zone_stage6.py:108 | writing a value grows the sheet just enough, changes that value only and keeps every fill |
| Sheets.Paint | per_nat_stage3.py:26-27 | painting a cell black keeps every value and adds that cell to the black ones |
| Sheets.Highlight | per_nationality_stage6.py:133-135 | a value written with a yellow fill changes that value only, and that cell stops being black |
| Sheets.InsertRows | per_zone_stage6.py:106 | insert_rows moves every row from the given one down by n, the opened rows empty; the height grows by n only when some row lies there |
| Sheets.InsertCols | stage8.py:32 | insert_cols moves every column from the given one right by n, the opened columns empty; the width grows by n only when some column lies there |
| Sheets.DeleteCols | stage8.py:57 | delete_cols drops n columns and moves the later ones n places left, with the new width stated |
| Sheets.MoveCol | stage8.py:54-56 | move_range of one column onto another: the target takes the source's cells down to max_row, the source is emptied, with the new size stated |
| Sheets.FillCol | per_nationality_stage1.py:378-385 | a loop down a column writes exactly the rows given a value, keeps every fill, and never shrinks the sheet |
| Sheets.FillColNone | per_nationality_stage1.py:378-385 | a column loop that writes nothing returns the sheet as it was |
| Sheets.FillColSize | per_nationality_stage1.py:378-385 | a column loop inside the sheet keeps max_row and max_column |
| Sheets.FillRow | per_zone_stage6.py:163-164 | a loop along a row writes exactly the given columns of that row, keeps every fill, and never shrinks the sheet |
| Sheets.MarkCol | per_nationality_stage6.py:130-135 | a column loop with a yellow fill writes the given rows, and those cells stop being black |
| Sheets.OutsideIsBlank | per_nationality_stage6.py:263-268 | outside a sheet's bounds every cell is empty |
| Sheets.ColSumFrame | per_nationality_stage1.py:155-158 | a column sum reads only its own range |
| Sheets.RowSumFrame | per_nationality_stage1.py:381-384 | a row sum reads only its own range |
| Sheets.RectSumColumn | per_nat_stage1_finalizer.py:90-93 | a SUM over a one-column rectangle is the column's sum |
| Sheets.RectSumRow | per_nat_stage1_finalizer.py:163 | a SUM over a one-row rectangle is the row's sum |
| Sheets.FirstHeader | per_nationality_stage6.py:263-268 | the first column in the range whose header passes the test; none exactly when no header passes |
| Sheets.FindHeader | per_nationality_stage6.py:263-268 | the scan over the header row returns that first column |
| Sheets.FindColumn | per_nationality_stage6.py:263-268 | find_column_by_header returns the first column headed by the text |
| Sheets.FirstRow | per_zone_stage6.py:152-155 | the first row in the range whose column-1 cell passes the test; none exactly when no row passes |
| Sheets.PaintColumn | per_nat_stage3.py:25-27 | painting a column keeps every value and adds exactly that column's rows to the black cells |
| Sheets.Worksheet.SetCell | per_zone_stage6.py:108 | the sheet afterwards is SetVal of the sheet before |
| Sheets.Worksheet.HighlightCell | per_nationality_stage6.py:133-135 | the sheet afterwards is Highlight of the sheet before |
| Sheets.Worksheet.PaintCell | per_nat_stage3.py:26-27 | the sheet afterwards is Paint of the sheet before |
| Sheets.Worksheet.InsertRowsAt | per_zone_stage6.py:106 | the sheet afterwards is InsertRows of the sheet before |
| Sheets.Worksheet.InsertColsAt | stage8.py:32 | the sheet afterwards is InsertCols of the sheet before |
| Sheets.Worksheet.DeleteColsAt | stage8.py:57 | the sheet afterwards is DeleteCols of the sheet before |
| Sheets.Worksheet.MoveColumn | stage8.py:54-56 | the sheet afterwards is MoveCol of the sheet before |
| Sheets.Worksheet.ColumnTotal | per_nationality_stage1.py:155-158 | the summing loop returns the column's sum of numeric cells |
| Sheets.Worksheet.RowTotal | per_nationality_stage1.py:380-384 | the summing loop returns the row's sum of numeric cells |
| Dicts.Keys | test.py:25 | the keys in insertion order, one per entry |
| Dicts.Values | per_nationality_stage6.py:123 | the values in insertion order, one per entry |
| Dicts.Lookup | per_nationality_stage6.py:94 | get() finds nothing exactly when the key is absent |
| Dicts.LookupEntry | per_nationality_stage6.py:94 | a value found under a key is the value of an entry for that key |
| Dicts.LookupUnique | per_nationality_stage6.py:94 | with unique keys every entry is what its key finds |
| Dicts.Replace | per_nationality_stage6.py:53 | replacing a key's value keeps every key and changes only that key's entries |
| Dicts.Store | per_nationality_stage6.py:71 | storing keeps an existing key's place and appends a new key last |
| Dicts.ReplaceLookup | per_nationality_stage6.py:53 | a replaced value reads back and every other key finds what it found |
| Dicts.StoreLookup | per_nationality_stage6.py:71 | a stored value reads back and every other key finds what it found |
| Dicts.StoreUnique | test.py:17 | storing keeps the keys unique |
| MonthColumns.SuffixNumbers | per_nationality_stage6.py:46-48 | month i of an April-to-March list looks for the suffix "/04" for April up to "/09" for September, and "/13", "/14", "/15" for January to March |
| MonthColumns.RangesMeaning | per_nationality_stage6.py:41-53 | for any month test only truthy headers pass: a month is present exactly when some scanned column passes it, and its span runs from the first such column to the last |
| MonthColumns.SuffixRanges | per_nationality_stage1.py:393-413 | find_monthly_column_ranges: month i is present exactly when a header in the scanned columns ends in its suffix, and its range is the first and the last such column |
| MonthColumns.RangesWithin | per_nationality_stage1.py:399-408 | every month range lies within the scanned columns |
| MonthColumns.ScanMonthRanges | per_nationality_stage1.py:397-413 | the scan equals the ranges of the headers it reached: the stage-6 variant skips a header that is not a string, the others raise at a truthy non-string header (`endswith`), which keeps the ranges found so far |
| MonthColumns.NoMonthInNonText | per_nationality_stage6.py:43-45 | a header that is not a string changes no month range |
| NatStage1.CampingFirstIndex | per_nationality_stage1.py:82-93 | the smallest index of a row whose first cell, as text, starts with "Camping"; None exactly when no row does |
| NatStage1.InsertTotalsAndSpacing | per_nationality_stage1.py:96-119 | with no split index the table comes back unchanged; otherwise it has exactly three more rows |
| NatStage1.InsertedRowsAroundOriginal | per_nationality_stage1.py:103-113 | removing the three spliced rows gives the input back; Total Rooms sits at the split point, the blank row after it, Total Camping last |
| NatStage1.SplicedRows | per_nationality_stage1.py:107-113 | rows before the split are unchanged, the rows from the split on move down two places, and every row keeps the table width |
| NatStage1.SpliceKeepsShape | per_nationality_stage1.py:103-113 | every spliced row is as wide as the table |
| NatStage1.SpliceAtCamping | per_nat_stage1_finalizer.py:61-77 | the finalizer fails exactly when no row starts with "Camping" (the NaN split index); otherwise both programs splice at the first Camping row |
| NatStage1.Stored | per_nationality_stage1.py:517 | `to_excel` followed by `load_workbook` turns NaN and "" into an empty cell and keeps every other value |
| NatStage1.ToSheet | per_nationality_stage1.py:517 | the header lands in row 1 and data row k in row k+2; max_row is the row count + 1, max_column the width; no cell is black |
| NatStage1.LastLabelled | per_nationality_stage1.py:481-486 | the last row in 2..n labelled exactly with the name, None exactly when there is none |
| NatStage1.FindTotalRows | per_nationality_stage1.py:481-486 | the scan returns the last "Total Rooms" row and the last "Total Camping" row |
| NatStage1.TotalRowsApart | per_nationality_stage1.py:483-486 | the two scans never return the same row |
| NatStage1.TotalRowsFoundAfterSplice | per_nationality_stage1.py:515-519 | after the splice and the write, the scans find Total Rooms two rows below the split point and Total Camping on the last row, as long as no nationality is labelled like a total row |
| NatStage1.SplicedLabelsBelowRooms | per_nationality_stage1.py:107-113 | below the spliced Total Rooms row no first cell reads "Total Rooms" |
| NatStage1.ColumnSumsUpTo | per_nationality_stage1.py:128-168 | cell by cell, for columns 2..max_col+1: Total Rooms holds the numeric sum of rows 2..tr-1 (in formula mode `SUM` over the same rows) and Total Camping the numeric sum of rows tr+2..tc-1 (in formula mode `SUM` over rows tr+2..tc-2 only, as written), both taken over the sheet as it was; every other cell is kept |
| NatStage1.ColumnSums | per_nationality_stage1.py:122-174 | with calculations off nothing changes; with them on the pass raises exactly when a Total Camping row exists without a Total Rooms row (`None + 2`) |
| NatStage1.ApplyColumnSums | per_nationality_stage1.py:144-174 | the column loop succeeds exactly when ColumnSums does and then leaves its sheet |
| NatStage1.SumColumns | per_nationality_stage1.py:150-168 | the loop over columns 2..max_col+1 leaves the sheet ColumnSumsUpTo describes |
| NatStage1.ColumnSumsOfColumn | per_nationality_stage1.py:151-168 | one turn of the column loop adds one column's two group sums |
| NatStage1.TotalColumn | per_nationality_stage1.py:223-243 | "Total {year}" heads column max_col+1; with calculations on every row 2..max_row other than the two total rows holds its numeric sum over columns 2..max_col (a SUM formula in formula mode); all other cells are kept |
| NatStage1.AddTotalColumn | per_nationality_stage1.py:196-248 | the row loop leaves exactly the sheet TotalColumn describes |
| NatStage1.FillTotalColumn | per_nationality_stage1.py:231-243 | past the header, the row loop over 2 .. max_row leaves exactly the sheet TotalColumn describes: each ordinary row gets its sum of columns 2 .. max_col, the two total rows are skipped |
| NatStage1.TotalColumnRow | per_nationality_stage1.py:233-243 | one row of the total column is written with its row sum, or skipped for a total row |
| NatStage1.RowTotalFormulaMatchesDirect | per_nat_stage1_finalizer.py:151-165 | with at least one data column, Excel's value of the row formula SUM(B{r}:{max_col}{r}) is the direct row sum |
| NatStage1.Ratio | per_nationality_stage1.py:304-309 | `x / d if d else 0`: q * d == x for a non-zero divisor, and 0 for a zero divisor |
| NatStage1.PercentDirect | per_nationality_stage1.py:283-322 | the direct percent pass fails exactly when it runs without a Total Rooms row (`range(2, None)`); otherwise "Percent to Total {year}" heads column max_col+2, only that column changes and no fill changes |
| NatStage1.PercentDirectCell | per_nationality_stage1.py:301-313 | a rooms row gets its total over the rooms divisor, a camping row its total over the camping divisor, the spacer row 0, and a row with a non-numeric total is not written |
| NatStage1.RoomsSharesSumToOne | per_nationality_stage1.py:291-309 | when the rooms divisor is not zero, the percents of the rooms rows add up to 1 |
| NatStage1.SharesAddUp | per_nationality_stage1.py:304-316 | when every row holds its total's share of the column's own sum, or a total worth 0 and no number, the shares add up to 1 |
| NatStage1.CampingShare | per_nationality_stage1.py:296-311 | a camping row holds its share of the camping divisor, or nothing that counts in a sum |
| NatStage1.CampingSharesSumToOne | per_nationality_stage1.py:296-311 | the camping percents add up to 1 when the Total Camping row's own total is 0, because the camping divisor runs to max_row and so takes in the Total Camping row |
| NatStage1.PercentOfEmptyTotals | per_nationality_stage1.py:286-313 | with an empty total column the pass writes its header and no other cell |
| NatStage1.PercentFormulas | per_nat_stage1_finalizer.py:188-209 | with calculations on, the pass raises exactly when an ordinary row exists and a total row is missing; otherwise rooms rows get IF(TR<>0, x/TR, 0), camping rows IF(TC<>0, x/TC, 0), and only column max_col+2 changes |
| NatStage1.AddPercentageColumn | per_nationality_stage1.py:251-280 | the percent pass dispatches on USE_FORMULAS; it succeeds exactly when the chosen variant does and leaves that variant's sheet |
| NatStage1.AddPercentageDirect | per_nationality_stage1.py:283-322 | the loops leave the sheet PercentDirect describes, and fail exactly when it fails |
| NatStage1.FillDirectPercents | per_nationality_stage1.py:291-316 | past the header, the two divisor loops and the row loop leave the sheet PercentDirect describes, which always exists here |
| NatStage1.FillPercentDirect | per_nationality_stage1.py:301-313 | the row loop writes each row's percent entry into column max_col+2 |
| NatStage1.AddPercentageFormulas | per_nat_stage1_finalizer.py:188-209 | the loop leaves the sheet PercentFormulas describes, and fails exactly when it fails |
| NatStage1.FillPercentFormulas | per_nat_stage1_finalizer.py:195-207 | past the header, the row loop fails exactly when PercentFormulas fails and otherwise leaves its sheet |
| NatStage1.MonthHeaders | per_nationality_stage1.py:366-368 | six headers from Apr to Sep: stage 1 writes "{Mon} 2025", the finalizer "{Mon} {current_year}" |
| NatStage1.MonthColumnCells | per_nationality_stage1.py:365-387 | one month column: its header in row 1 and, with calculations on and a day range, each ordinary row's sum over that range; no other column changes |
| NatStage1.WriteMonthCell | per_nationality_stage1.py:378-386 | one row of a month column receives that row's sum over the month's day range, or nothing when it is a total row |
| NatStage1.MonthsUpToCells | per_nationality_stage1.py:365-387 | after k months, cell by cell, the month columns hold what their headers and sums say and no fill changes |
| NatStage1.MonthlySums | per_nationality_stage1.py:359-390 | the monthly pass fails only in the finalizer, exactly when a truthy header in columns 2..max_col is not a string; the six headers go to columns max_col+3.. max_col+8, nothing outside them changes, and with calculations off only row 1 changes |
| NatStage1.AddMonthlySums | per_nationality_stage1.py:325-390 | the scan and the month loop leave the sheet MonthlySums describes, and fail exactly when it fails |
| NatStage1.AddMonthColumns | per_nationality_stage1.py:365-387 | the month loop leaves the sheet MonthsUpTo describes |
| NatStage1.MonthsUpToKeepsLeft | per_nationality_stage1.py:365-387 | the month loop leaves every column up to the percent column alone |
| NatStage1.ApplyRowSumFormulas | per_nationality_stage1.py:177-193 | total, percent and monthly passes in order; it fails exactly when one of them fails |
| NatStage1.ApplyExcelFormattingAndFormulas | per_nationality_stage1.py:473-503 | the saved sheet is Finalize of the loaded one: total-row scan, column sums, row-sum passes |
| NatStage1.Finalize | per_nationality_stage1.py:473-503 | with calculations on and at least one column, a sheet with a "Total Camping" row but no "Total Rooms" row makes the pass raise (`None + 2`) |
| NatStage1.FinalizeKeepsTable | per_nationality_stage1.py:473-503 | when the pass succeeds, every cell in columns up to max_col outside the two total rows is unchanged, and the total and percent headers head columns max_col+1 and max_col+2 |
| NatStage1.PassesKeepTable | per_nationality_stage1.py:122-193 | for any pair of distinct total rows: the column sums and the row-sum passes leave every other cell of columns up to max_col alone and write both headers |
| NatStage1.RowSumPasses | per_nationality_stage1.py:177-193 | on success "Total {year}" heads column max_col+1, "Percent to Total {year}" column max_col+2, and no cell in columns up to max_col changes |
| NatStage1.CampingEntry | per_nationality_stage1.py:133-134 | in formula mode the Total Camping cell is a SUM over rows tr+2 .. tc-2 of its column; otherwise it is the numeric sum of rows tr+2 .. tc-1 (lines 158-165) |
| NatStage1.NatStage1Output | per_nationality_stage1.py:506-525 | stage 1 always writes the spliced table |
| NatStage1.RoomsFormulaMatchesDirect | per_nat_stage1_finalizer.py:90-91 | with a rooms row, Excel's value of SUM(col2:col{tr-1}) is the direct rooms sum |
| NatStage1.CampingFormulaMissesLastRow | per_nat_stage1_finalizer.py:92-93 | with two or more camping rows, the formula as written, which is the one the pass writes, falls short of the direct camping sum by exactly row tc-1 |
| NatStage1.CampingFormulaCounterexample | per_nat_stage1_finalizer.py:92-93 | a sheet with 1 in row 5 of column B, tr = 2 and tc = 6: the formula as written gives 0, the direct sum 1 |
| NatStage1.CampingFormulaMatchesDirect | per_nat_stage1_finalizer.py:105-121 | the corrected Total Camping formula (rows tr+2 .. tc-1) is worth the direct camping sum |
| NatStage1.MonthFormulaMatchesDirect | per_nat_stage1_finalizer.py:272-278 | a month formula's value is the direct month sum |
| NatStage1.Stage1ShippedWritesOnlyHeaders | per_nationality_stage1.py:359-373 | with the shipped flags (no formulas, no calculations) the pass saves exactly when a Total Rooms row exists, and then writes only the eight headers of row 1 |
| NatStage2.GroupSums | per_nationality_stage2_previous_years.py:114-141 | with calculations on, the pass raises exactly when a total row is missing (`range(2, None)`, then `range(tr + 2, None)` after column B's rooms sum); rooms and camping sums as in stage 1; no other cell and no fill changes |
| NatStage2.ApplyGroupSums | per_nationality_stage2_previous_years.py:114-141 | the column loop returns ok and the sheet GroupSums gives |
| NatStage2.EveryRowTotal | per_nationality_stage2_previous_years.py:163-185 | "Total {year}" heads column max_col+1 and every row 2..max_row, total and spacer rows included, holds its numeric sum over columns 2..max_col, whatever DO_CALCULATIONS says |
| NatStage2.AddEveryRowTotal | per_nationality_stage2_previous_years.py:163-185 | the row loop leaves the sheet EveryRowTotal describes |
| NatStage2.FoundRanges | per_nationality_stage2_previous_years.py:256-278 | six ranges within columns 2..max_col; none at all when a truthy non-string header makes the scan raise |
| NatStage2.MonthlySums2 | per_nationality_stage2_previous_years.py:222-253 | month m is headed "{Mon} {year}" in column max_col+3+m, leaving the percent column empty; every ordinary row gets its numeric sum over the month's range; per_nat_stage2.py fails exactly when a truthy header is not a string |
| NatStage2.AddMonthlySums2 | per_nationality_stage2_previous_years.py:222-253 | the scan and the month loop leave the sheet MonthlySums2 describes |
| NatStage2.DayHeaderExamples | per_nationality_stage2_previous_years.py:359 | "Fri 02/05" and "Παρ 02/05" are day headers; "Apr 2024" and "Fri 2/5" are not |
| NatStage2.WrittenHeadersAreNotDays | per_nationality_stage2_previous_years.py:359-369 | neither the total header nor a month header is a day header, so the deletion never removes them |
| NatStage2.DayColumns | per_nationality_stage2_previous_years.py:360-364 | the day columns among 2..max_column, strictly increasing, each one a day column and every day column listed |
| NatStage2.FindDayColumns | per_nationality_stage2_previous_years.py:360-364 | the scan returns exactly DayColumns |
| NatStage2.DeleteDayColumns | per_nationality_stage2_previous_years.py:367-369 | deleting right to left leaves DeleteFrom of the listed columns |
| NatStage2.DeleteOneMore | per_nationality_stage2_previous_years.py:367-369 | one more deletion, on top of the deletions right of it, keeps each column tied to its source column |
| NatStage2.SrcMonotone | per_nationality_stage2_previous_years.py:367-369 | the deletions keep the remaining columns in their order |
| NatStage2.SrcSkipsDeleted | per_nationality_stage2_previous_years.py:367-369 | no deleted column survives |
| NatStage2.SrcReachesKept | per_nationality_stage2_previous_years.py:367-369 | every column that is not deleted survives somewhere |
| NatStage2.NoDayLeft | per_nationality_stage2_previous_years.py:359-369 | afterwards no column from 2 on is headed like a day |
| NatStage2.DayColumnsGone | per_nationality_stage2_previous_years.py:359-369 | column j afterwards is column Src(j) before; column A stays; surviving columns keep their order; no day column is left |
| NatStage2.Round2 | per_nat_stage2.py:152 | `round(p, 2)`: a whole number of hundredths within half a hundredth of p |
| NatStage2.RoundedPercent | per_nat_stage2.py:134-157 | with calculations on, a missing total row raises; otherwise each ordinary row gets round(x/T·100, 2)/100 against its group's total, and only column max_col+2 changes |
| NatStage2.RoundedShareIsClose | per_nat_stage2.py:146-152 | a rooms row's stored percent is within half a hundredth of a percent of its exact share |
| NatStage2.RoundedShareOfNothing | per_nat_stage2.py:146-152 | a zero or empty total or divisor gives 0 |
| NatStage2.AddRoundedPercent | per_nat_stage2.py:134-157 | the loop leaves the sheet RoundedPercent describes, and fails exactly when it fails |
| NatStage2.FillRoundedPercent | per_nat_stage2.py:142-153 | the row loop succeeds exactly when every row divides, and writes each row's rounded percent |
| NatStage2.WhenFormatSaves | per_nationality_stage2_previous_years.py:336-375 | the previous-years program always saves; per_nat_stage2.py, with DO_CALCULATIONS off, fails exactly when a truthy header in columns 2..max_col is not a string |
| NatStage2.ApplyExcelFormatting2 | per_nationality_stage2_previous_years.py:336-375 | the saved sheet is Format2 of the loaded one |
| NatStage2.Stage2Output | per_nat_stage2.py:272-281 | without the guard, a table with no Camping row fails before anything is written |
| NatStage6.MonthTitles | per_nationality_stage6.py:68 | the twelve titles "{Mon} {current_year}", April to March |
| NatStage6.MonthTitlesDiffer | per_nationality_stage6.py:68 | two different months never share a title |
| NatStage6.LastHeaded | per_nationality_stage6.py:66-69 | the last column in the scanned range headed exactly by the title, None exactly when there is none |
| NatStage6.MonthlyColumnsLookup | per_nationality_stage6.py:62-78 | find_existing_monthly_columns: a month title finds the last column it heads (a later column overwrites the entry), and any other key finds nothing |
| NatStage6.MonthlyColumnsUnique | per_nationality_stage6.py:66-69 | no title is stored twice in the dictionary |
| NatStage6.MonthlyColumnsHeaded | per_nationality_stage6.py:66-69 | every stored column is headed by its key |
| NatStage6.MonthlyColumnsValues | per_nationality_stage6.py:120 | `monthly_columns.values()` lists exactly the last column of each month title present, each once |
| NatStage6.FindMonthlyColumns | per_nationality_stage6.py:62-78 | the scan builds exactly the dictionary MonthlyColumns describes |
| NatStage6.TargetsDiffer | per_nationality_stage6.py:93-95 | two months never write to the same column |
| NatStage6.TargetHeaded | per_nationality_stage6.py:93-95 | a month's target column is headed by its title, so it is never the label column |
| NatStage6.MonthSumsCells | per_nationality_stage6.py:87-110 | insert_monthly_sums: every eligible row (not a total row, not "pan_pan" or "sep_row") of a month's column holds SUM over that month's day range in the same row, and every other cell is kept; months with no column are skipped |
| NatStage6.MonthSumsWritten | per_nationality_stage6.py:93-106 | the k-th month writes its column and keeps what the earlier months wrote |
| NatStage6.MonthSumsKept | per_nationality_stage6.py:93-106 | the k-th month leaves alone every cell outside its own column |
| NatStage6.ColumnOneKept | per_nationality_stage6.py:104-106 | the month loop never writes column 1, so the skip test reads the same labels throughout |
| NatStage6.InsertMonthlySums | per_nationality_stage6.py:87-110 | the loop over the months leaves the sheet MonthSumsUpTo describes |
| NatStage6.FillMonthColumn | per_nationality_stage6.py:103-106 | one month fills every eligible row of its column with its SUM formula |
| NatStage6.RowRefs | per_nationality_stage6.py:130 | the references of row r in each month column, in dictionary order |
| NatStage6.TotalSums | per_nationality_stage6.py:112-139 | without a "Total {year}" column nothing changes; otherwise each eligible row of it gets SUM of the row's month-column cells, in yellow, so no longer black |
| NatStage6.InsertTotalSums | per_nationality_stage6.py:128-135 | the row loop leaves the sheet TotalSums describes |
| NatStage6.MonthIsNotTotal | per_nationality_stage6.py:25 | a month column is never taken for the year's total column |
| NatStage6.MonthlySumsCells | per_nationality_stage6.py:142-152 | add_monthly_sums: month columns hold their range sums, the total column holds the sum of the month columns, and every other cell keeps its value |
| NatStage6.MonthlySumsMonths | per_nationality_stage6.py:149-150 | the total column is filled after the month columns and never overwrites one |
| NatStage6.MonthlySumsTotal | per_nationality_stage6.py:150 | the total column holds the month sums; the cells outside both keep their values |
| NatStage6.MonthLoopLabels | per_nationality_stage6.py:93-106 | the labels in column 1 survive the month loop |
| NatStage6.AddMonthlySums | per_nationality_stage6.py:142-152 | the three scans and the two fills leave the sheet MonthlySums describes |
| NatStage6.StopRow | per_nationality_stage6.py:221-226 | the walk up from tr-1 stops at the nearest "pan_pan"/"sep_row" row, or at row 1; no separator lies between it and the start |
| NatStage6.FindStopRow | per_nationality_stage6.py:221-226 | the `while start_row > 1` loop returns StopRow |
| NatStage6.BlackCheck | per_nationality_stage6.py:181-203 | is_black_filled answers yes exactly for a cell check_fill calls black (solid black or unfilled, both having rgb "00000000") or one under or over such a cell; it paints only the checked cell, only when check_fill did not already call it black, and changes no value |
| NatStage6.IsBlackFilled | per_nationality_stage6.py:181-203 | the method answers and paints as BlackCheck says, returning at once for a cell check_fill calls black |
| NatStage6.FirstHit | per_nationality_stage6.py:228-233 | the first row of the group that the scan treats as black, unfilled cells included; none of the rows above it is |
| NatStage6.ScanClosed | per_nationality_stage6.py:228-233 | the scan keeps exactly the rows above the first black-looking row, because each painted row makes the next look black, and paints every row from there down that check_fill did not already call black |
| NatStage6.ScanColumn | per_nationality_stage6.py:228-233 | the row loop over one column returns the rows ScanUpTo keeps and leaves its painted sheet |
| NatStage6.ColRefs | per_nationality_stage6.py:230 | the references of the kept rows in column c, in order |
| NatStage6.GroupTop | per_nationality_stage6.py:218-228 | the group's first row lies between 2 and the total row |
| NatStage6.GroupColumnCells | per_nationality_stage6.py:212-246 | one column: a column with an empty header is skipped; otherwise the total row gets SUM of the group rows above the first black-looking one, in yellow, and nothing is written when no row is kept |
| NatStage6.GroupTotalsCells | per_nationality_stage6.py:206-248 | each column acts as it would on the sheet as it came in: a column only paints and writes its own cells |
| NatStage6.NextColumn | per_nationality_stage6.py:212-246 | column c, done after the earlier columns, acts as on the incoming sheet |
| NatStage6.GroupFormulaValue | per_nationality_stage6.py:235-237 | the formula's value is the numeric sum of column c from the top of the group down to where the sum stops |
| NatStage6.BlackAboveGroup | per_nationality_stage6.py:190-194 | a cell check_fill calls black just above the group makes its first row look black, so the total cell of that column is left alone |
| NatStage6.NoBlackWholeGroup | per_nationality_stage6.py:228-233 | with every cell from the stop row down to the total row filled with a colour other than black, the sum covers the whole group |
| NatStage6.UnfilledTopNotSummed | per_nationality_stage6.py:186-194 | an unfilled first row of the group is one check_fill calls black, so the column gets no sum and no value of the sheet changes |
| NatStage6.InsertGroupColumn | per_nationality_stage6.py:212-244 | the header test, the walk up, the scan and the write leave the sheet GroupColumn describes |
| NatStage6.InsertGroupTotals | per_nationality_stage6.py:206-248 | insert_total_room_camping_sums: nothing for a missing row, otherwise the sheet GroupTotals describes |
| NatStage6.FirstNonStr | per_nationality_stage6.py:287-289 | the first row from 2 whose label is not a string, where `"Rooms" in category` raises |
| NatStage6.PercentRowsCells | per_nationality_stage6.py:286-297 | the row loop runs up to the first row whose label is not a string and raises there; each earlier row whose reference row exists and whose two total cells are set gets total/reference |
| NatStage6.PercentRowsStopped | per_nationality_stage6.py:286-297 | once a row has raised, later rows are not reached |
| NatStage6.FillPercents | per_nationality_stage6.py:286-297 | the loop of one year leaves ok and the sheet PercentRows gives |
| NatStage6.PercentBesideTotal | per_nationality_stage6.py:278-279 | a year's percent column and total column are different columns |
| NatStage6.PercentForYear | per_nationality_stage6.py:278-296 | one year: when its "Percent to Total" or "Total" column is missing, or both total rows are, nothing changes and the loop stops; otherwise the row loop over that year's columns, as PercentYear describes |
| NatStage6.CalculatePercentToTotal | per_nationality_stage6.py:271-299 | the year loop stops at the first year with a missing column, or with both total rows missing, and leaves the sheet PercentYears describes |
| NatStage6.TotalRowsReferThemselves | per_nationality_stage6.py:289 | the Total Rooms row refers to itself and the Total Camping row to itself |
| NatStage6.PercentValue | per_nationality_stage6.py:293 | Excel shows x/y for a non-zero reference and #DIV/0! for a zero one, since there is no zero guard; a total row shows 100% unless it is zero |
| NatStage6.ChangeColumn | per_nationality_stage6.py:314-324 | every row 2..max_row with both totals present gets IF(prev<>0, (cur-prev)/prev, 0); nothing else changes |
| NatStage6.DiffBesideTotal | per_nationality_stage6.py:307-309 | a difference column is never one of the total columns it reads |
| NatStage6.FillChanges | per_nationality_stage6.py:314-324 | the row loop of one year leaves ChangeColumn |
| NatStage6.DiffYear | per_nationality_stage6.py:306-324 | one year: found exactly when its three columns exist, and then its difference column is filled |
| NatStage6.CalculatePercentDifference | per_nationality_stage6.py:302-341 | the year loop stops at the first year whose columns are missing and leaves the sheet DiffYears describes |
| NatStage6.ChangeValue | per_nationality_stage6.py:318-322 | Excel shows 0 for a zero or empty previous total, and otherwise a change v with current = previous * (1 + v) |
| NatStage6.WinterMonthsNeverMatch | per_nationality_stage6.py:46-48 | a day header "/mm" of a real month never ends in /13, /14 or /15, so January to March never get a range |
| NatStage6.Stage6 | per_nationality_stage6.py:412-448 | the guarded program always saves |
| NatStage6.ProcessStage10 | per_nationality_stage6.py:412-448 | the passes in order: saved exactly when Stage6 succeeds, and then the sheet is Stage6's |
| ZoneStage4.FindGroups | per_zone_stage4.py:49-86 | the row loop of detect_groups, with its two flags, returns DetectGroups |
| ZoneStage4.DetectGroups | per_zone_stage4.py:49-86 | the groups in row order: each but the last is closed by a blank row, with start the 1-based row of its first non-blank row, types its labels in order, and names "Accommodations", "Youth Hostel", then ""; the last is closed too or is the trailing "Camping" group ending at len(df); none is empty, so a run of blank rows opens no group |
| ZoneStage4.ScanStepHolds | per_zone_stage4.py:57-77 | one turn of the loop keeps what the scan knows |
| ZoneStage4.ScanCloses | per_zone_stage4.py:59-70 | a blank row closes the open group and names it by its position |
| ZoneStage4.ScanExtends | per_zone_stage4.py:71-77 | a non-blank row opens a group or extends the open one |
| ZoneStage4.ScanIdles | per_zone_stage4.py:59-61 | a blank row with no group open changes nothing |
| ZoneStage4.InsertPoint | per_zone_stage4.py:125-131 | the totals row goes in before the blank delimiter of a closed group and after the end row of the last group, always within the table |
| ZoneStage4.AddTotalsAndOccupancy | per_zone_stage4.py:89-164 | exactly two rows are added, "Total {name} {year}" then "Πληρότητα", every other entry ""; a table narrower than two columns makes pandas raise |
| ZoneStage4.ShiftLater | per_zone_stage4.py:183-186 | every group after the one just handled moves two rows down; the others stay |
| ZoneStage4.Placed | per_zone_stage4.py:180-186 | after k groups the table has 2k more rows, all of the table width |
| ZoneStage4.Layout | per_zone_stage4.py:180-186 | group i's two rows lie at its insertion point plus 2i, and each original row moves down 2 for every group inserted at or above it |
| ZoneStage4.PlacedNext | per_zone_stage4.py:180-186 | handling group k-1 splices its two rows in at its point moved down by 2(k-1) |
| ZoneStage4.KeptStep | per_zone_stage4.py:131-161 | an original row moves down by 2 exactly when the new rows go in at or above it |
| ZoneStage4.DetectedAscending | per_zone_stage4.py:57-83 | the detected groups give insertion points inside the table that strictly increase |
| ZoneStage4.DetectedLayout | per_zone_stage4.py:178-186 | over the detected groups the driver's loop places every group's two rows and keeps every original row, as Layout says |
| ZoneStage4.ClosedGroupFramed | per_zone_stage4.py:128-131 | a group other than the last gets its two rows between its last data row and its blank delimiter |
| ZoneStage4.TrailingGroupLast | per_zone_stage4.py:125-127 | the trailing "Camping" group's two rows are the last two rows of the table |
| ZoneStage4.TotalColumn | per_zone_stage4.py:188-204 | a last column is added with "Total" in row 0 and "" in every other row; the other columns are kept |
| ZoneStage4.ProcessStage4 | per_zone_stage4.py:167-204 | the driver detects the groups, adds their rows and the Total column, as Stage4 says |
| ZoneStage4.AddGroupRows | per_zone_stage4.py:178-204 | the loop over the groups, each moved down two rows per group handled before it, leaves the placed table with the Total column, or None when a group cannot take its rows |
| ZoneStage4.Stage4 | per_zone_stage4.py:165-204 | the stage raises exactly when there is a group and the table is narrower than two columns; otherwise each group adds two rows and one more column is headed "Total" |
| ZoneStage7.LastOf | per_zone_stage7.py:65-69 | the last row among 1..n of the given kind, no such row after it |
| ZoneStage7.FirstOf | per_zone_stage7.py:26-28 | the first row among 1..n of the given kind, no such row before it |
| ZoneStage7.AllOf | per_zone_stage7.py:72-75 | every row among 1..n of the given kind, top to bottom, each once |
| ZoneStage7.Detect | per_zone_stage7.py:10-36 | the last "Category" row carries that label; a first all-empty row exists exactly when a final one does, and it is not below it |
| ZoneStage7.DetectBreakpoints | per_zone_stage7.py:10-36 | one pass records the last "Category" row and the first and last all-empty rows |
| ZoneStage7.Located | per_zone_stage7.py:39-87 | each target's sum row is the last row labelled "Total {category} {year}"; the occupancy rows are assigned exactly when the sheet has at least three "Πληρότητα" rows, and then they are the first three, top to bottom |
| ZoneStage7.TotalRows | per_zone_stage7.py:65-69 | the first pass finds the last row of each of the three labels |
| ZoneStage7.OccupancyRows | per_zone_stage7.py:72-75 | the second pass lists every "Πληρότητα" row in order |
| ZoneStage7.LocateTargetRows | per_zone_stage7.py:39-87 | the two passes return Locate |
| ZoneStage7.StopFrom | per_zone_stage7.py:100-115 | scanning up, one below the first "Category" or all-empty row met, or 2 when there is none; no stop row lies in between |
| ZoneStage7.DetermineStopRow | per_zone_stage7.py:100-115 | the upward loop returns StopRow |
| ZoneStage7.GroupRows | per_zone_stage7.py:100-115 | none of the rows a total adds up is a "Category" or empty row, and the row above them is one unless the scan fell through to row 2 |
| ZoneStage7.CategoryPass | per_zone_stage7.py:160-186 | process_category writes the group's numeric capacity sum into column B of the total row and a SUM of the group's rows into each of its columns C..max_column, and nothing else |
| ZoneStage7.GroupSumValue | per_zone_stage7.py:180-182 | Excel's value of each SUM written is the direct sum of the group's rows in that column |
| ZoneStage7.ProcessCategory | per_zone_stage7.py:160-186 | returns the capacity it wrote (calculate_total_capacity over the group's rows) and leaves CategoryPass |
| ZoneStage7.OccupancyPass | per_zone_stage7.py:139-152 | each column C..max_column-1 of the occupancy row gets sum/capacity; the last column and every other cell are kept |
| ZoneStage7.OccupancyUnguarded | per_zone_stage7.py:145-147 | a capacity of 0 makes the occupancy formula evaluate to #DIV/0!, since there is no zero guard |
| ZoneStage7.WriteOccupancy | per_zone_stage7.py:139-152 | the column loop of one category leaves OccupancyPass |
| ZoneStage7.OccupancyRates | per_zone_stage7.py:118-157 | the categories in order, each skipped without an occupancy row or a sum row |
| ZoneStage7.TotalColumnPass | per_zone_stage7.py:189-226 | exactly the rows not skipped ("Category", "Capacity", "Πληρότητα", all-empty, or a last cell already set) get SUM(C{r}:{last-1}{r}) in the last column; every other cell keeps its value |
| ZoneStage7.TotalColumnIdempotent | per_zone_stage7.py:207-209 | running calculate_total_column a second time changes nothing |
| ZoneStage7.CalculateTotalColumn | per_zone_stage7.py:189-226 | the loop over the rows leaves TotalColumnPass |
| ZoneStage7.Stage7 | per_zone_stage7.py:294-331 | no label in column A changes, and the finished sheet has no row the total column would still fill (a second total pass changes nothing) |
| ZoneStage7.ProcessStage7 | per_zone_stage7.py:294-331 | breakpoints, targets, the category passes, the occupancy rates and the total column, in that order |
| ZoneSections.HousesGrow | per_zone_stage5.py:9-12 | every label stage 1 puts among the houses, stage 5 puts there too, since stage 5's keyword list extends stage 1's |
| ZoneSections.FilterKeeps | per_zone_stage5.py:94 | every row a mask keeps passes the test and was a row of the table |
| ZoneSections.FilterConcat | per_zone_stage5.py:94-96 | filtering a concatenation filters each part, so the filter keeps the row order |
| ZoneSections.FilterIdempotent | per_zone_stage5.py:94 | filtering twice keeps what filtering once keeps |
| ZoneSections.SectionSizes | stage1.py:64-66 | the three sections count every row once, and the rows that hit both keyword lists twice |
| ZoneSections.CastLabel | stage1.py:23 | `astype(str)` turns the label into its text and keeps the other entries |
| ZoneSections.Separator | stage1.py:57-59 | add_empty_separator: one row of "" across the table's columns |
| ZoneSections.SplitSections | stage1.py:62-70 | the split adds exactly the two separators and repeats each row that hits both keyword lists; every row is a separator or a row of the table |
| ZoneSections.Stage1 | stage1.py:98-108 | the labels are cast to text and split with the stage-1 keywords: two separators more than the rows hitting both lists, and every other row is a row of the table with its label cast |
| ZoneSections.ColumnSums | per_zone_stage5.py:112-115 | each date column's sum; numeric text is read as its number, and what `to_numeric(errors='coerce')` makes NaN counts 0 |
| ZoneSections.PointAt | per_zone_stage5.py:112 | the first '.' of a numeral, None exactly when there is none |
| ZoneSections.Coerced | per_zone_stage5.py:112 | `to_numeric(errors='coerce')`: a number stays itself, an empty entry or an error is NaN |
| ZoneSections.NatTextValue | per_zone_stage5.py:112 | the digits of `str(n)` read back as n |
| ZoneSections.UnsignedDigits | per_zone_stage5.py:112 | a run of digits reads as its value |
| ZoneSections.NegatedDigits | per_zone_stage5.py:112 | a minus sign before a run of digits reads as the negated value |
| ZoneSections.NegativeText | per_zone_stage5.py:112 | "-" followed by the text of a number reads back as its negation |
| ZoneSections.NatTextNumber | per_zone_stage5.py:112 | `to_numeric` reads the text `str(n)` of a natural number back as n |
| ZoneSections.IntTextNumber | per_zone_stage5.py:112 | `to_numeric` reads the text `str(i)` of any integer back as i, so a count written as text still adds to the column sum |
| ZoneSections.SectionTotal | per_zone_stage5.py:112-121 | the totals row: "Total {group} {year}", an empty capacity, then the column sums |
| ZoneSections.CalculateTotals | per_zone_stage5.py:106-126 | an empty section comes back as it is; any other section gets its totals row appended |
| ZoneSections.StripLabel | per_zone_stage5.py:138 | `astype(str).str.strip()` on the label; the other entries are kept |
| ZoneSections.SplitWithTotals | per_zone_stage5.py:129-170 | split_sections_with_totals reads `df.columns[1]`, so it raises exactly when the table has fewer than two columns |
| ZoneSections.KeepOnlyTotals | per_zone_stage5.py:204-231 | the walk that drops rows and resets the index keeps exactly the rows whose label starts with "Total" or "Category", in order |
| ZoneSections.FilterByConcat | per_zone_stage5.py:212-223 | filtering a concatenation by a test filters each part |
| ZoneSections.KeepStep | per_zone_stage5.py:217-219 | stepping past a row that passes keeps the walk's invariant |
| ZoneSections.DropStep | per_zone_stage5.py:220-223 | dropping a row that fails, then resetting the index, keeps the walk's invariant |
| ZoneSections.Stage5Rows | per_zone_stage5.py:249-253 | split with totals, then keep only the totals: each section keeps its own rows labelled "Total…" or "Category…", followed by its totals row |
| ZoneSections.KeptAcross | per_zone_stage5.py:161-165 | keep_only_totals across three sections and two separators keeps the totals of each section in order |
| ZoneSections.SeparatorDropped | per_zone_stage5.py:161-165 | a separator row is never kept |
| ZoneSections.SectionKept | per_zone_stage5.py:152-154 | keep_only_totals keeps a section's total rows and then the section's own totals row |
| ZoneSections.OnlyTotalsIdempotent | per_zone_stage5.py:204-231 | filtering down to totals a second time changes nothing |
| ZoneSections.DateColumns | per_zone_stage5.py:42 | the positions of the date headers of the year, left to right, every one listed |
| ZoneSections.DetectDateColumns | per_zone_stage5.py:37-53 | the first and last date header, or None exactly when there is none |
| CategorySplice.AsStrLabel | stage2.py:13 | the category becomes its text and the other entries are kept |
| CategorySplice.KeywordRowsConcat | stage2.py:14 | the filter works row by row: the rows kept of a concatenation are those of each part, in order |
| CategorySplice.KeywordRowsExactly | stage2.py:13-14 | a row is kept exactly when it comes from a table row whose category text contains a keyword (case-sensitive) |
| CategorySplice.KeywordRowsAll | stage2.py:14 | a table all of whose rows carry a keyword keeps every row |
| CategorySplice.LoadFiltered | per_zone_per_type_stage2.py:9-35 | the plain copy raises exactly when the sheet cannot be read or has no first column, where the guarded copy returns an empty frame; otherwise the result holds the rows whose category carries a keyword, under the labels as renamed, each date label becoming its `strftime` text |
| CategorySplice.KeptShaped | stage2.py:14 | filtering keeps the table's width |
| CategorySplice.FirstLabelled | stage2.py:36-38 | the first row whose category is exactly the target, None exactly when there is none |
| CategorySplice.ColumnOf | stage2.py:39 | the first column with the label, None exactly when the label is absent |
| CategorySplice.AlignRow | stage2.py:39 | reindexing a row: every target column missing from the source gets "", every shared column takes the source's entry |
| CategorySplice.Aligned | stage2.py:39 | the type rows reindexed to the zone's columns: as many rows, each as wide as the zone table |
| CategorySplice.ReplaceCategoryRow | stage2.py:34-42 | without the target row the zone table comes back unchanged; with it the table has |zone| - 1 + |type| rows; the zone's columns are kept; None exactly when the zone table has no first column or the type table cannot be reindexed |
| CategorySplice.Spliced | stage2.py:39-41 | where the target row was, the aligned type rows now stand; the rows before and after it keep their order |
| CategorySplice.SpliceUndone | stage2.py:39-41 | putting the target row back in place of the spliced block gives the zone table back |
| CategorySplice.CountConcat | stage2.py:36 | counting the target rows of a concatenation adds up each part's count |
| CategorySplice.ReplaceRemovesOne | stage2.py:36-41 | exactly one row carrying the target goes, the first; later ones stay, joined by those among the type rows |
| CategorySplice.NoTypeRowsDeletes | stage2.py:39-41 | with no type rows the target row is simply deleted |
| CategorySplice.Stage2 | per_zone_per_type_stage2.py:66-89 | the guarded copy always reaches the save and what it saves is well formed; without the target row the zone table is saved unchanged |
| CategorySplice.SplicedUnderRenamed | per_zone_per_type_stage2.py:25-58 | with distinct labels after renaming, each spliced type row holds under a zone column the entry of the type column whose renamed label is that column's label, and "" under a zone column that no renamed label matches, such as one headed with a date label as it read before renaming |
| CategorySplice.UnreadableTypeSheet | per_zone_per_type_stage2.py:33-35 | in the guarded copy an unreadable type sheet acts as an empty one: the target row is deleted and nothing takes its place |
| Capacity.Letters | per_zone_per_type_stage3.py:51-57 | the normalised letters are as long as the stripped text |
| Capacity.NormalizeLetters | per_zone_per_type_stage3.py:44-60 | None exactly for a NaN cell, otherwise the letters of its text |
| Capacity.LettersNormalised | per_zone_per_type_stage3.py:51-57 | the result is the stripped text character by character, with only Ζ and Κ replaced, no Ζ or Κ left, and already stripped |
| Capacity.LatinChanges | per_zone_per_type_stage3.py:38-41 | a character changes exactly when it is Greek Ζ or Κ; Δ, Ε and Ι stay |
| Capacity.LatinSpace | per_zone_per_type_stage3.py:38-41 | the replacement neither makes nor removes white space |
| Capacity.LatinStripped | per_zone_per_type_stage3.py:54-55 | stripped text stays stripped when its letters are replaced |
| Capacity.ToLatinConcat | per_zone_per_type_stage3.py:54-55 | replacing letters works piece by piece over a concatenation |
| Capacity.AreaName | per_zone_per_type_stage3.py:70-76 | every area name starts with "area " |
| Capacity.NormalizeCampingAreaName | per_zone_per_type_stage3.py:63-79 | None exactly for None, otherwise the area name of the text |
| Capacity.Prefixed | per_zone_per_type_stage3.py:73-74 | a stripped name without the prefix gets exactly the prefix in front |
| Capacity.PrefixedShort | per_zone_per_type_stage3.py:73-74 | a stripped name shorter than the prefix gets it |
| Capacity.KeepsPrefix | per_zone_per_type_stage3.py:73-76 | a stripped name and its prefixed spelling both end as the prefixed name |
| Capacity.PrefixStripped | per_zone_per_type_stage3.py:70 | prefixing a stripped non-empty name keeps it stripped |
| Capacity.AreaNameIdempotent | per_zone_per_type_stage3.py:63-79 | naming an area twice names it once, for any name that is not blank |
| Capacity.AreaNameBlank | per_zone_per_type_stage3.py:70-76 | where idempotence stops: a blank name becomes "area ", and a second call gives "area area" |
| Capacity.Key | per_zone_per_type_stage3.py:89-95 | accommodation rows are looked up exactly when their label is text, camping rows exactly when it is not NaN |
| Capacity.CampingTextKey | per_zone_per_type_stage3.py:91-93 | a camping label that is text is looked up under the area name of its letters |
| Capacity.PrefixedSpelling | per_zone_per_type_stage3.py:91-93 | a label that already carries the prefix finds the same area as the bare name |
| Capacity.LettersPrefixed | per_zone_per_type_stage3.py:51-57 | the letters of a prefixed stripped name are the prefix followed by the name's letters |
| Capacity.OneLetter | per_zone_per_type_stage3.py:91-93 | a one-letter camping label is looked up as "area " and that letter in Latin form |
| Capacity.ZetaSpellings | per_zone_per_type_stage3.py:30 | Greek Ζ and Latin Z both find "area Z", which is in the table |
| Capacity.KappaSpellings | per_zone_per_type_stage3.py:31 | Greek Κ and Latin K both find "area K", which is in the table |
| Capacity.UnmappedGreek | per_zone_per_type_stage3.py:32-34 | Greek Δ, Ε and Ι are not replaced and find their areas |
| Capacity.LatinLookalikes | per_zone_per_type_stage3.py:32-34 | their Latin look-alikes D, E and I find nothing |
| Capacity.ZetaLabels | per_zone_per_type_stage3.py:91-97 | "Ζ", "Z" and "area Ζ" all find area Z |
| Capacity.ExactAccommodations | per_zone_per_type_stage3.py:97 | an accommodation row is found under a key exactly when its label equals that key and the key is in the table |
| Capacity.EmptyAreaSkipped | per_zone_per_type_stage3.py:94-95 | camping rows whose label is NaN are skipped |
| Capacity.Keys | per_zone_per_type_stage3.py:88-97 | one lookup per row, every key found being in the capacity table |
| Capacity.Written | per_zone_per_type_stage3.py:98 | a row after the pass has exactly the table's width |
| Capacity.Pass | per_zone_per_type_stage3.py:88-99 | the pass keeps the number of rows and gives every row the width the table has afterwards |
| Capacity.PassWidth | per_zone_per_type_stage3.py:98 | the table gains column 1 exactly when it had none and some row was found |
| Capacity.PassRow | per_zone_per_type_stage3.py:97-98 | a row that is found holds its capacity in column 1; every other cell keeps its value, and cells added by widening are empty |
| Capacity.PassKeepsLabels | per_zone_per_type_stage3.py:89 | the labels in column 0 are never written |
| Capacity.PassIdempotent | per_zone_per_type_stage3.py:88-99 | a second pass finds the same rows and writes the same values |
| Capacity.RewriteRow | per_zone_per_type_stage3.py:98 | writing a row a second time at its own width leaves it as it is |
| Capacity.FoundWidth | per_zone_per_type_stage3.py:86-99 | the width afterwards is 2 when the table had no column 1 and some row was found, and unchanged otherwise |
| Capacity.CapacityPass | per_zone_per_type_stage3.py:82-112 | the pass keeps every row |
| Capacity.Stage3 | per_zone_per_type_stage3.py:127-131 | accommodations and then camping areas; no row is added or lost |
| Capacity.PerZoneStage3 | per_zone_per_type_stage3.py:115-136 | the method's table is the two passes of Stage3 |
| Capacity.UpdateCapacityColumn | per_zone_per_type_stage3.py:82-112 | the loop's table is the pass of the given kind, and the keys it collects are exactly those of the rows found |
| Capacity.WriteCapacities | per_zone_per_type_stage3.py:88-99 | the loop's table is Pass for any way of finding keys, and the collected keys are exactly those found |
| Capacity.Widen | per_zone_per_type_stage3.py:98 | writing to a missing column 1 pads every row with empty cells to the new width and changes nothing else |
| CalendarAlign.MonthsInOrder | per_zone_stage6.py:170-184 | within a year the last day of a month comes before the first day of any later month |
| CalendarAlign.OrderMatchesDays | per_zone_stage6.py:218-219 | the (month, day) tuple order that min and max use is the calendar order of the year |
| CalendarAlign.DaysDifference | per_zone_stage6.py:170-184 | two dates moved into the current year are less than a year's length apart |
| CalendarAlign.DaysDifferenceSymmetric | per_zone_stage6.py:170-184 | the distance in days is symmetric |
| CalendarAlign.DaysDifferenceZero | per_zone_stage6.py:170-184 | the distance is zero exactly for the same month and day, whatever the years of the dates |
| CalendarAlign.DaysDifferenceIgnoresYears | per_zone_stage6.py:174-181 | the years of the two dates play no part in the distance |
| CalendarAlign.Earliest | per_zone_stage6.py:218 | the earliest (month, day) is one of the given ones and comes no later than any of them |
| CalendarAlign.Latest | per_zone_stage6.py:219 | the latest (month, day) is one of the given ones and comes no earlier than any of them |
| CalendarAlign.MonthDays | per_zone_stage6.py:186-190 | one (month, day) per date, in order, each that date's |
| CalendarAlign.LastToken | per_zone_stage6.py:22 | what follows the last space: it holds no space, ends the text, and is the whole text or follows a space |
| CalendarAlign.DateText | per_zone_stage6.py:21-27 | the text handed to the date parser starts with the last token, and grows exactly when that token holds one '/' |
| CalendarAlign.ParseDate | per_zone_stage6.py:18-32 | parse_date gives None exactly for a header that is not text (`split` raises and the handler returns None), NaT exactly for text the parser cannot read (`errors='coerce'`), and otherwise the parsed timestamp |
| CalendarAlign.DateRange | per_zone_stage6.py:35-50 | a table with no column after the second has neither start nor end, and a start is only ever read from a text header in column 2 |
| CalendarAlign.DateRangeHeaders | per_zone_stage6.py:35-50 | the start is parsed from column 2; the end from the last column, or the one before it when the last is headed "total" in any case, or "Unknown" when there is no column before it |
| CalendarAlign.PaddedColumns | per_zone_stage6.py:61-70 | the padded sheet is missing exactly when no header in row 1 is "Capacity" |
| CalendarAlign.PaddingAfterCapacity | per_zone_stage6.py:72-75 | columns up to Capacity keep their cells, the next n are empty, every later column is the one n places to its left |
| CalendarAlign.AddEmptyColumns | per_zone_stage6.py:53-79 | the sheet is saved exactly when it has a Capacity column, and then holds the padded grid |
| CalendarAlign.RowInsertedAt | per_zone_stage6.py:106-108 | rows above the new row stay, the new row holds the copied values, rows from it on move one down |
| CalendarAlign.RowInserted | per_zone_stage6.py:162-164 | the same at every position, and the sheet never shrinks |
| CalendarAlign.RowAdded | per_zone_stage6.py:162 | a row copied in just below the last row adds one row |
| CalendarAlign.FillRowSize | per_zone_stage6.py:163-164 | writing along a row makes the sheet reach that row and no further |
| CalendarAlign.InsertRowValues | per_zone_stage6.py:162-164 | the write loop leaves the sheet with the row opened and filled |
| CalendarAlign.CopyHeader | per_zone_stage6.py:93-112 | the earlier year's headers become row 2 and everything from row 2 moves down one |
| CalendarAlign.KeywordOf | per_zone_stage6.py:141-145 | the first total keyword the label starts with; none exactly when it starts with none of them |
| CalendarAlign.FindTarget | per_zone_stage6.py:151-155 | the scan stops at the first row whose label starts with the keyword |
| CalendarAlign.CopyTotalRows | per_zone_stage6.py:115-168 | every total row of the earlier year is copied in under its counterpart, one after another |
| CalendarAlign.TargetStays | per_zone_stage6.py:151-162 | a row copied in under the target leaves the target where it was for any later scan |
| CalendarAlign.LaterAbove | per_zone_stage6.py:139-164 | a second total row with the same keyword lands directly under the target and pushes the first one down |
| CalendarAlign.CopiedRow | per_zone_stage6.py:162-164 | the opened row holds the copied values |
| CalendarAlign.MovedDown | per_zone_stage6.py:162 | the row where a row is opened moves one down |
| CalendarAlign.PushedDown | per_zone_stage6.py:162-164 | a total row copied in under the target sits one lower once a second row is copied in at the same place |
| CalendarAlign.StartsCount | per_zone_stage6.py:205-208 | no start is collected exactly when parse_date returned None for every earlier year's start; a NaT start is collected, NaT being truthy |
| CalendarAlign.EndsCount | per_zone_stage6.py:205-210 | no end is collected exactly when parse_date returned None for every earlier year's end; a NaT end is collected |
| CalendarAlign.FirstStart | per_zone_stage6.py:205-208 | the first collected start is that of the first earlier year for which parse_date returned something, NaT included |
| CalendarAlign.Days | per_zone_stage6.py:214-215 | the timestamps among the collected items are exactly the items that are not NaT |
| CalendarAlign.NaTSticks | per_zone_stage6.py:218-219 | once `min` or `max` holds NaT's (nan, nan) no later tuple replaces it, since every comparison with NaN is false |
| CalendarAlign.MinFromDay | per_zone_stage6.py:218 | from a timestamp on, `min` ends at a timestamp of the list that comes no later than any timestamp in it |
| CalendarAlign.MaxFromDay | per_zone_stage6.py:219 | from a timestamp on, `max` ends at a timestamp of the list that comes no earlier than any timestamp in it |
| CalendarAlign.PyMin | per_zone_stage6.py:214-218 | `min` of the collected starts is NaT exactly when the first is NaT; otherwise its (month, day) is Earliest of the timestamps, NaT further on passed over |
| CalendarAlign.PyMax | per_zone_stage6.py:215-219 | `max` of the collected ends is NaT exactly when the first is NaT; otherwise its (month, day) is Latest of the timestamps |
| CalendarAlign.Fixed | per_zone_stage6.py:180-181 | `datetime(year, month, day)` succeeds exactly for a timestamp whose month and day exist in the current year; NaT raises TypeError, a missing day ValueError |
| CalendarAlign.FirstError | per_zone_stage6.py:223-228 | no call raises exactly when every call succeeds; otherwise the exception is that of one of the calls, the first in order |
| CalendarAlign.Compare | per_zone_stage6.py:221-245 | the stage raises exactly when one of the `datetime` calls for the earliest start, the latest end, the current start and the current end raises, with the first such call's exception |
| CalendarAlign.Stage6 | per_zone_stage6.py:212-247 | the stage reports no comparable ranges exactly when no start or no end was collected or parse_date returned None for the current sheet's start or end |
| CalendarAlign.NaTStartRaises | per_zone_stage6.py:205-224 | an earlier year whose start header is unreadable text, with no earlier file before it contributing a start, makes the stage raise TypeError, given a current range and some collected end |
| CalendarAlign.PaddedEvenWhenEarlier | per_zone_stage6.py:218-227 | with a timestamp first among the collected starts, a sheet that starts before every earlier year is still padded, by a positive number of columns |
| CalendarAlign.CollectRanges | per_zone_stage6.py:205-210 | the loop's lists are the starts and ends parse_date returned, NaT included, in file order |
| CalendarAlign.CopyAllYears | per_zone_stage6.py:240-245 | the loop copies each earlier year's headers and totals in turn |
| CalendarAlign.ProcessStage6 | per_zone_stage6.py:192-250 | the method's outcome is Stage6 of the sheet, and an aligned outcome is what the sheet holds afterwards |
| NatMerge.LessIrreflexive | per_nat_stage3.py:48 | no label sorts before itself |
| NatMerge.LessTransitive | per_nat_stage3.py:43 | the string order is transitive |
| NatMerge.LessTotal | per_nat_stage3.py:43 | any two different labels are ordered one way |
| NatMerge.LessAsymmetric | per_nat_stage3.py:43 | and only one way |
| NatMerge.LeastExists | per_nat_stage3.py:43 | every finite non-empty set of labels has a least element, so the sorted walk has a first label |
| NatMerge.LeastUnique | per_nat_stage3.py:43 | that least element is unique |
| NatMerge.Least | per_nat_stage3.py:43-45 | the label picked is the least of the set |
| NatMerge.IndexRowsHold | per_nat_stage3.py:9-10 | every key of the label dict maps to a row from 2 to max_row holding that label |
| NatMerge.IndexKeepsLast | per_nat_stage3.py:9-10 | a repeated label keeps its last row |
| NatMerge.IndexComplete | per_nat_stage3.py:9-10 | every label in rows 2 to max_row is a key |
| NatMerge.IndexMeaning | per_nat_stage3.py:59-65 | the dict is characterised by those three facts together |
| NatMerge.IndexSame | per_nat_stage3.py:149-153 | two sheets with the same labels have the same dict |
| NatMerge.Index | per_nat_stage3.py:9-10 | each key maps to the last row from 2 to max_row carrying it, and every label of those rows is a key |
| NatMerge.RebuildIndex | per_nat_stage3.py:149-153 | the rebuild loop yields the dict of the sheet as it now is |
| NatMerge.Loaded | per_nat_stage3.py:6-20 | the dict is built before the separator row is written; without an empty label the sheet is unchanged |
| NatMerge.LoadedSeparator | per_nat_stage3.py:11-15 | the first row from 2 with no label gets "sep_row" in every column and nothing else changes |
| NatMerge.LoadStage5 | per_nat_stage3.py:6-20 | the method leaves the loaded sheet and dict, and every dict row exists |
| NatMerge.InsertSeparatorColumn | per_nat_stage3.py:23-28 | the returned column is max_col + 1, painted black in every row, with values untouched |
| NatMerge.Stopper | per_nat_stage3.py:43-50 | the walk over sorted labels stops at the first one lying at or below the bound or sorting after the new label; none exactly when every label lies above the bound and does not sort after it |
| NatMerge.TargetRow | per_nat_stage3.py:32-53 | the new row never goes below the Total Rooms or Total Camping bound |
| NatMerge.TargetAboveBound | per_nat_stage3.py:46-50 | a row above the bound is chosen only at a label sorting after the new one |
| NatMerge.FindStopper | per_nat_stage3.py:43-50 | the method's scan finds the stopping label |
| NatMerge.WithLabel | per_nat_stage3.py:55-56 | inserting a row inside the sheet adds exactly one row |
| NatMerge.LabelInserted | per_nat_stage3.py:55-56 | exactly one row, holding only the new label, opens at the target; the rows from it on move down one |
| NatMerge.IndexRows | per_nat_stage3.py:59-65 | every row of the dict lies inside the sheet |
| NatMerge.InsertCountryRow | per_nat_stage3.py:31-67 | the label goes in at the target row chosen by the walk, that row lies inside the sheet or just below it, and the rebuilt dict is the sheet's |
| NatMerge.CopyKeepsIndex | per_nat_stage3.py:138-141 | copying values into columns from 2 on leaves the dict as it was |
| NatMerge.FillRowRows | per_nat_stage3.py:138-141 | writing along an existing row adds no row |
| NatMerge.LandingLabelled | per_nat_stage3.py:130 | the row a label lands on, found or inserted, holds the label, and the dict stays the sheet's |
| NatMerge.PlaceRowLands | per_nat_stage3.py:122-146 | a labelled row of the earlier table lands on the one current row with its label, at the columns from start_col, and the dict stays the sheet's |
| NatMerge.PlaceRowsWidth | per_nat_stage3.py:122-146 | placing rows never narrows the sheet |
| NatMerge.LandingRows | per_nat_stage3.py:130-135 | with a dict whose rows lie in the sheet, a label always lands on a row, found or inserted, and the dict stays so |
| NatMerge.PlaceRow | per_nat_stage3.py:122-146 | a None label is skipped and changes nothing; with a dict whose rows lie in the sheet the row fails exactly when its label is neither None nor text, and the dict stays so |
| NatMerge.PlaceRowsOutcome | per_nat_stage3.py:122-146 | placing rows 2 .. n fails exactly when one of them carries a label that is neither None nor text |
| NatMerge.AppendFileOutcome | per_nat_stage3.py:109-156 | one earlier table fails exactly when it has such a row |
| NatMerge.AppendFilesOutcome | per_nat_stage3.py:108-156 | the first n earlier tables fail exactly when one of them has such a row |
| NatMerge.Stage3 | per_nat_stage3.py:102-159 | the merge fails exactly when some earlier table has a row whose label is neither None nor text; with no earlier table the saved sheet is the loaded one |
| NatMerge.AppendFileWidth | per_nat_stage3.py:115-156 | after a table max_col is at least its separator column, so the next table starts further right |
| NatMerge.CopyRow | per_nat_stage3.py:138-141 | the copy loop writes the row's values from start_col on |
| NatMerge.PlaceRowOnSheet | per_nat_stage3.py:123-146 | the loop body succeeds exactly when the model's placement does, and leaves its sheet and dict |
| NatMerge.PlaceAllRows | per_nat_stage3.py:122-146 | the row loop succeeds exactly when the model's placement of all rows does, and leaves its sheet and dict |
| NatMerge.PlaceRowsFail | per_nat_stage3.py:122-146 | once a row fails the whole table fails |
| NatMerge.AppendFileOnSheet | per_nat_stage3.py:109-156 | the file loop body succeeds exactly when the model's append does, and leaves its sheet and dict |
| NatMerge.AppendFilesFail | per_nat_stage3.py:108-156 | once a table fails the whole merge fails |
| NatMerge.AppendStage6ToStage5 | per_nat_stage3.py:102-159 | the sheet is saved exactly when the model's merge succeeds, and then holds the merged grid |
| PercentLayout.LastCategory | per_nationality_stage5.py:14-21 | the last 1-based position headed "Category", no header after it so headed; None exactly when no header is "Category" |
| PercentLayout.FindLastCategoryColumn | per_nationality_stage5.py:14-21 | the downward loop returns LastCategory |
| PercentLayout.AfterCategoryDeleted | per_nationality_stage5.py:24-31 | with a Category index the sheet ends at that column; without one it is unchanged |
| PercentLayout.CategoryColumnsKept | per_nationality_stage5.py:27-28 | the columns up to the last Category column keep their cells |
| PercentLayout.DeleteColumnsAfterCategory | per_nationality_stage5.py:24-33 | the method leaves AfterCategoryDeleted of the sheet |
| PercentLayout.PercentHeaders | per_nationality_stage5.py:42-46 | one "Percent to Total {year}" header per year, the current year first, then each earlier year in order |
| PercentLayout.DifferenceHeaders | per_nationality_stage5.py:98-100 | one "Percent difference {current} - {previous}" header per earlier year, in order |
| PercentLayout.InsertHeadedColumns | per_nationality_stage5.py:44-46 | each header opens its own column at its place, header in row 1, the rest moved right; the new width and height are stated |
| PercentLayout.Separator | per_nationality_stage5.py:81-86 | the separator adds one column inside the sheet, or reaches the given column beyond it |
| PercentLayout.SeparatorCells | per_nationality_stage5.py:81-86 | the separator opens its column with an empty header and black fill in every row and moves the later columns right |
| PercentLayout.AddPercentageColumns | per_nationality_stage5.py:36-49 | one column per year right of the old ones, headed in order; returns the column after them |
| PercentLayout.AddSeparatorColumn | per_nationality_stage5.py:78-89 | the sheet gets the separator at the given column; returns the column after it |
| PercentLayout.AddPercentDifferenceColumns | per_nationality_stage5.py:94-103 | one headed column per earlier year from the given column; returns the column after them |
| PercentLayout.PercentBlanked | per_nationality_stage5.py:54-73 | without a "Percent to Total {current}" column the sheet is unchanged and None is returned |
| PercentLayout.FindAndReplacePercentToTotalColumn | per_nationality_stage5.py:54-75 | the method blanks the first such column and returns the column after it, as PercentBlanked says |
| PercentLayout.AddPercentPart | per_nationality_stage5.py:118-119 | the percent block and a separator after it, with the returned column, width and height stated |
| PercentLayout.LayOut | per_nationality_stage5.py:118-121 | the sheet becomes the layout: the old columns, the percent block, a separator, the difference block and a closing separator |
| PercentLayout.AddDifferencePart | per_nationality_stage5.py:120-121 | the difference block and a separator after it, with the returned column, width and height stated |
| PercentLayout.LayoutKeepsOldColumns | per_nationality_stage5.py:40 | the columns that were there keep their cells |
| PercentLayout.LayoutPercentHeader | per_nationality_stage5.py:42-46 | row 1 of the k-th new percent column reads "Percent to Total {year}" for the k-th of the current year followed by the previous years, unfilled |
| PercentLayout.LayoutSeparatorHeaders | per_nationality_stage5.py:118-121 | row 1 of the column after the percent block and of the column after the difference block is blank and black |
| PercentLayout.LayoutDifferenceHeader | per_nationality_stage5.py:97-99 | row 1 of the k-th difference column reads "Percent difference {current} - {previous[k]}", unfilled |
| PercentLayout.ProcessStage9 | per_nationality_stage5.py:108-129 | before the blanking the sheet holds the layout, 2 * previous + 3 columns wider; afterwards the first current-year percent column is blanked |
| PercentLayout.BlanksNewPercentColumn | per_nationality_stage5.py:63-70 | on a sheet without a current-year percent column, the first new column is the one blanked |
| PercentLayout.BlanksOldPercentColumn | per_nationality_stage5.py:63-70 | on a sheet that already has one, that old column is blanked and the new block keeps its header |
| TabParser.Split | test.py:10 | splitting gives at least one piece, and no piece holds the separator |
| TabParser.JoinSplit | test.py:15 | splitting loses nothing: joining the pieces with the separator gives the text back |
| TabParser.SplitJoin | test.py:15 | pieces free of the separator are exactly what splitting their join gives |
| TabParser.JoinHead | test.py:15 | the join is the first piece followed by the join of the rest |
| TabParser.StoreAll | test.py:17-18 | storing pairs one after another never gives more entries than pairs |
| TabParser.LastWithKey | test.py:14-17 | the last pair carrying a key; None exactly when no pair carries it |
| TabParser.StoreAllLookup | test.py:17 | a key finds the value of its last pair: a repeated key overwrites the earlier one |
| TabParser.StoreAllFinds | test.py:17 | the last pair with a key is the one that key finds |
| TabParser.StoreAllMisses | test.py:17 | a key finds nothing exactly when no pair carries it |
| TabParser.StoreAllUnique | test.py:17-18 | the stored dictionary never holds a key twice |
| TabParser.Zip | test.py:18 | pairs up to the shorter of the two lists, each the pair of the entries at its place |
| TabParser.RowDictMisses | test.py:17-18 | a column name is missing exactly when no column after the first, within both lists, carries it |
| TabParser.RowDictFinds | test.py:17-18 | a column name finds the field of the last column carrying it; the first column never counts |
| TabParser.Lines | test.py:7 | the stripped text has at least one line |
| TabParser.HeaderFields | test.py:10 | there is at least one column name |
| TabParser.Entries | test.py:14-18 | every data line paired with its key and row dictionary, in order |
| TabParser.ProcessData | test.py:5-20 | the loop's dictionary is the parse of the text |
| TabParser.ParsedMisses | test.py:14-17 | a key is present exactly when some data line starts with it, leading spaces included |
| TabParser.ParsedFinds | test.py:14-18 | a key holds the row dictionary of the last data line starting with it |
| TabParser.Parsed | test.py:5-20 | no key twice, and never more keys than data lines |
| YearInterleave.MonthAbbr | stage8.py:40 | a month's abbreviation has three letters |
| YearInterleave.MonthOf | stage8.py:11 | the month whose abbreviation the text spells, case ignored; None exactly when it spells none |
| YearInterleave.LowerAbbr | stage8.py:40 | the abbreviation written for a month lower-cases to that month's key |
| YearInterleave.MonthOfAbbr | stage8.py:11-40 | each abbreviation that is written reads back as its own month |
| YearInterleave.ExtractDate | stage8.py:6-13 | a header that reads as a date gives a month from 1 to 12 and a year from 1 to 9999 |
| YearInterleave.NatTextValue | stage8.py:41 | the decimal text of a year reads back as that year |
| YearInterleave.NatTextFour | stage8.py:41 | a four-digit year prints as four characters |
| YearInterleave.ExtractMonthHeader | stage8.py:6-41 | the header "Mon YYYY" written for a month of a four-digit year reads back as that month and year |
| YearInterleave.ParseHeaders | stage8.py:23-24 | extract_date applied to every header, in order |
| YearInterleave.DateColumnsOf | stage8.py:21-24 | the listed columns are positions within the headers, each with its header and the date it reads as, of the given year, strictly left to right |
| YearInterleave.IdentifyDateColumns | stage8.py:21-24 | the loop lists DateColumnsOf the headers |
| YearInterleave.Cols | stage8.py:29 | the positions of the listed columns, in order |
| YearInterleave.DateColumnsSound | stage8.py:23-24 | each listed column's header reads as the recorded date, of the given year |
| YearInterleave.DateColumnsComplete | stage8.py:23-24 | every column whose header reads as a date of the given year is listed |
| YearInterleave.InsertEmptyAt | stage8.py:31-32 | inserting n times at one place opens n empty columns there and moves the rest right |
| YearInterleave.InsertEmptyColumns | stage8.py:27-32 | the sheet after the loop is the spread of the date columns, with its width stated |
| YearInterleave.SpreadBeyond | stage8.py:30 | right of the k-th block every original column has moved k*n places right |
| YearInterleave.SpreadPlacement | stage8.py:29-32 | after the loop the k-th date column sits at its old place plus k*n with its content, and the n columns after it are empty |
| YearInterleave.MovePreviousYearsData | stage8.py:35-58 | the method leaves the sheet with all twelve months handled |
| YearInterleave.MoveMonth | stage8.py:40-58 | the body of the month loop leaves that month's step |
| YearInterleave.MoveOffsets | stage8.py:47-58 | the year loop of one month moves, offset by offset, the column headed "{Mon} {current - offset}" onto column latest + offset |
| YearInterleave.MoveOffset | stage8.py:48-58 | the body of the year loop moves that year's column, when its header is present |
| YearInterleave.MoveColumnOut | stage8.py:54-57 | moving a column and deleting its old place leaves MoveOut |
| YearInterleave.MoveOutLeft | stage8.py:54-57 | a column moved left now sits at its target, the columns left of its old place are otherwise untouched, everything right of it closes up by one |
| YearInterleave.MonthPlaced | stage8.py:39-58 | for a month whose "{Mon} {current}" header first heads column latest and whose n previous-year headers first head increasing columns right of the spread, the month's step leaves the sheet arranged after all n offsets |
| YearInterleave.PlacedColumns | stage8.py:47-58 | once arranged after n offsets the sheet is n columns narrower, columns up to latest are untouched, the year t back sits at latest+t with its old column's content, and the columns past the spread close up, all n places past the last moved column |
| YearInterleave.ArrangedUpTo | stage8.py:47-58 | after k turns of the year loop the sheet is arranged for the first k offsets |
| YearInterleave.ArrangedStep | stage8.py:49-58 | one turn of the year loop moves the next previous-year column onto latest+k+1 and keeps the arrangement one offset further |
| YearInterleave.NextHeaded | stage8.py:53 | after k moves, `headers.index` finds the next previous-year header at its old column less k, still right of the spread |
| YearInterleave.FoundMovedOut | stage8.py:53-57 | a turn whose header is found at its old column less k leaves the arrangement one offset further |
| YearInterleave.MovedOut | stage8.py:54-57 | moving that column onto the next spread column and deleting its old place leaves the arrangement one offset further |
| YearInterleave.OffsetStepMoves | stage8.py:53-57 | a turn whose header is found at column q is the move of column q |
| YearInterleave.MoveOutShape | stage8.py:54-57 | a column moved left and deleted leaves the sheet one column narrower and at least one row high |
| YearInterleave.FirstHeadedFound | stage8.py:45 | `headers.index(h) + 1` is p exactly when column p is the first column headed h |
| YearInterleave.HeadersFound | stage8.py:50-53 | the scan's columns for the previous-year headers are the first columns those headers head |
| YearInterleave.PreviousHeaders | stage8.py:48-50 | the headers the year loop looks for: "{Mon} {current - t}" for t = 1 .. n, in order |
| YearInterleave.TotalColumnsUpTo | stage8.py:61-72 | the listed columns follow exactly two "Category" headers, are headed "Total" and four digits, carry their header, and run left to right |
| YearInterleave.TotalColumnsComplete | stage8.py:65-71 | every such column between the second and the third "Category" is listed |
| YearInterleave.FindTotalColumns | stage8.py:61-72 | the counting loop lists TotalColumnsUpTo the whole header row |
| YearInterleave.MoveTotal | stage8.py:90-102 | the body of the loop moves "Total {year}" onto its place when present |
| YearInterleave.TotalPasses | stage8.py:89-90 | the loop gets through at most as many years as the list holds |
| YearInterleave.InsertTotalColumns | stage8.py:75-105 | without totals nothing changes; otherwise the stage goes on exactly when the previous years last the loop, and the sheet holds the new Total column and the moves |
| YearInterleave.OpenTotalColumn | stage8.py:83-84 | a column opens at the first total, headed "Total {current}" |
| YearInterleave.MoveTotals | stage8.py:87-105 | the loop succeeds exactly when the list of previous years lasts, and leaves the moves it got through |
| YearInterleave.OpenedTotalStays | stage8.py:83-99 | the new "Total {current}" header stays where it was put while no moved year is spelt like the current one |
| YearInterleave.TotalMoveKeeps | stage8.py:93-99 | a move leaves a column headed differently alone |
| YearInterleave.DropTotalCurrentYearColumn | stage8.py:109-118 | the method leaves TotalDropped of the sheet |
| YearInterleave.DropsFirstOnly | stage8.py:111-115 | only the first "Total {current}" column goes: columns left of it stay, those right of it close up; without one nothing changes |
| YearInterleave.RearrangeTotals | stage8.py:131-133 | finding, moving and dropping the totals leave the model's rearranged sheet, or fail with it |
| YearInterleave.ProcessStage8 | stage8.py:121-135 | the date columns found, the spread sheet and the final sheet are those of the model, step by step |
| MonthColumns.MonthSuffix | per_nationality_stage1.py:403-404 | the month suffix is a '/' followed by at least two characters |
| MonthColumns.AddColumn | per_nationality_stage1.py:402-408 | one column handled: each month its header belongs to gets [col, col] when absent, or has its last column moved to col; other months keep their range |
| MonthColumns.RangesUpTo | per_nationality_stage1.py:397-408 | one range slot per month |
| MonthColumns.NonTextStop | per_nationality_stage1.py:399-404 | the first column whose header is truthy but not text, where endswith raises; none exactly when there is no such column |
| MonthColumns.AddHeaderToRanges | per_nationality_stage1.py:402-408 | the inner loop over the months leaves AddColumn |
| NatStage1.CampingFrom | per_nationality_stage1.py:82-93 | the first Camping row at or after the start; none exactly when there is none |
| NatStage1.LabelRow | per_nationality_stage1.py:103-113 | a row holding the label in its first cell and "" elsewhere, as wide as the table |
| NatStage1.SpacerRow | per_nationality_stage1.py:103-113 | a row of "" as wide as the table |
| NatStage1.AddMonthColumn | per_nationality_stage1.py:365-387 | one month of the loop leaves that month's column, header and rows |
| CategorySplice.KeywordRows | stage2.py:14 | the filter keeps at most the table's rows |
| CategorySplice.CountLabelled | stage2.py:36-37 | the count of rows carrying the target is at most the number of rows |
| NatStage6.MonthTitle | per_nationality_stage6.py:68 | a month title starts with the month's name and is longer than four characters |
| NatStage6.MonthlySums | per_nationality_stage6.py:142-152 | add_monthly_sums never removes rows |
| NatStage6.EarlierMonthStays | per_nationality_stage6.py:93-106 | a month's pass writes only its own column, so earlier months keep their sums |
| NatStage6.NewMonthWritten | per_nationality_stage6.py:103-106 | a month's pass writes its SUM formula into every eligible row of its column |
| ZoneSections.Filter | per_zone_stage5.py:94 | the mask keeps at most the table's rows |
| ZoneSections.CastLabels | stage1.py:23 | every label is cast to text, one row for one row |
| ZoneSections.StripLabels | per_zone_stage5.py:138 | every label is stripped, one row for one row |
| ZoneSections.FilterByTotals | per_zone_stage5.py:212-223 | the row-by-row walk with the totals test is the totals filter |
| ZoneStage4.GroupedAscending | per_zone_stage4.py:125-131 | the groups' insertion points lie in the table and increase |
| ZoneStage4.DetectedClosed | per_zone_stage4.py:59-70 | every detected group but the last is closed by a non-matching row |
| ZoneStage4.PlacedAt | per_zone_stage4.py:180-186 | after the inserts group i's totals and occupancy rows stand at its point plus 2i |
| ZoneStage4.KeptAt | per_zone_stage4.py:180-186 | an original row moves down by two for each group inserted above it |
| ZoneStage7.Locate | per_zone_stage7.py:39-87 | three target rows are located, one per category |

## Left out

- The user interface, the pipeline driver and its temporary files, and logging: processing.py, gui.py, main.py, file_handler.py and logger.py are not part of this model. Every `print` and `logger` call is left out too, because they only produce side output.
- Spreadsheet I/O (`pd.read_excel`, `load_workbook`, `to_excel`, `wb.save`) is left out. Every pass takes and returns an in-memory grid or table, and a "saved" result is the returned value.
- Styling is left out, because it has no effect on values: fonts, the colour of a fill other than black, borders, column widths, number formats, freeze panes, conditional formatting and `ColorScaleRule`. This covers apply_formatting, apply_styling, apply_grid_borders, fill_black_columns, fill_black_rows, fill_date_columns, apply_day_colors and copy_cell_styles.
- NatMerge copies values only, for the same reason.
- Floating point is not modelled. Quantities are exact `real` numbers.
- `round(p, 2)` appears only in the uncalled percentage pass of per_nat_stage2.py. There it is the exact nearest hundredth, with ties to even.
- A1 column letters (`get_column_letter`) and formula text are not modelled. Formulas are the symbolic `Formula` datatype.
- Sheets.FormulaValue does not evaluate a formula cell that another formula refers to. It counts such a cell as SUM counts text.
- Date parsing is a parameter:
  - `pd.to_datetime` is `parse` in CalendarAlign;
  - `is_date` is `isDate` in ZoneSections.
- `strftime` and the Greek weekday headers of format_date_column / format_date_columns are left out:
  - in stage1.py the renaming changes only the header row of the output, and ZoneSections models the rows;
  - in stage2.py and per_zone_per_type_stage2.py the renamed labels decide where `reindex` puts each type column, so the text a date label becomes is the parameter `dateLabel` of CategorySplice.
- `datetime.now().year` is a `year` / `current` parameter, and so are the year lists.
- `USE_FORMULAS` and `DO_CALCULATIONS` are flags.
- per_zone_stage3.py has no module of its own. It computes what per_zone_per_type_stage3.py computes, and Capacity models both.
- stage9.py is modelled by PercentLayout and stage10.py by NatStage6. Each is the same pass as its twin without that twin's exception handlers.
- stage9.py's call of delete_columns_after_category is disabled, and per_nationality_stage5.py does not call find_last_category_column or delete_columns_after_category either. PercentLayout models those two functions on their own.
- PercentLayout.DeleteColumnsAfterCategory requires the index to be a column of the sheet. find_last_category_column only returns such indexes.
- YearInterleave, for stage8.py:
  - `"%b %Y"` is read as a month abbreviation in any letter case, at least one white-space character, and exactly four ASCII digits. Unicode digits and Unicode case folding are not modelled.
  - The `IndexError` raised when the previous-year list runs out becomes `ok == false`.
- LabelAt keys the dict on text labels only. In per_nat_stage3.py a truthy number in column 1 is a key too.
- PlaceRow fails on every label that is not text. per_nat_stage3.py fails only when such a label must be inserted (`"Camping" in country` raises); a number that is already a key of the dict is placed on its row.
- NatMerge.Stage3 inherits that gap from PlaceRow: its failure condition counts a numeric label as unplaceable even when the current table already has it.
- AppendStage6ToStage5 inherits that gap from PlaceRow: a sheet whose earlier tables carry a numeric label that the current table also has fails in the model, where per_nat_stage3.py merges it.
- Coerced reads plain decimal numerals only (an optional sign, digits, an optional point). Exponents, "inf"/"nan" text, thousands separators and other forms `pd.to_numeric` accepts are not modelled; they count as NaN.
- NumText does not tell an int from a float: a whole float renders as "5", where Python prints "5.0". A fraction shows at most six decimals, not Python's shortest round-trip text.
- Lower lower-cases ASCII letters and the Greek capitals one character for one. Other Unicode case mappings are not modelled.
- DayHeader reads `\d` as an ASCII digit; Python's `\d` also matches other Unicode decimal digits.
- TotalLike reads `\d` as an ASCII digit; Python's `\d` also matches other Unicode decimal digits.
- test.py's print_data and its module-level prints only write to standard output, so they are left out.
- pandas' own reindexing and dtype inference are left out. Tables are sequences of rows, and a DataFrame index is the row's position.

## Findings

| source | as written | input that shows it | evidently intended | confidence | as-written member | corrected member |
|---|---|---|---|---|---|---|
| per_nat_stage1_finalizer.py:92-93 | the Total Camping column formula is `SUM(B{tr+2}:B{tc-2})`, which stops one row above Total Camping's group end; the direct sum of the same file (lines 114-121) runs to row tc-1 | Total Rooms at row 2, Total Camping at row 6, a 1 in row 5 of column B: the formula shows 0, the direct sum 1 | the range runs to row tc-1, as the direct sum does | not executed | NatStage1.CampingFormulaMissesLastRow, NatStage1.CampingFormulaCounterexample | NatStage1.CampingFormulaMatchesDirect |
