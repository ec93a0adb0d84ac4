/**
 * stage8.py: interleaving the previous years' month columns with the
 * current year's.  Every "Mon YYYY" column of the current year gets N empty
 * columns after it, the previous years' columns of the same month are moved
 * into them, the "Total YYYY" columns of the previous-years section are
 * rearranged behind a new "Total {current}" column, and finally the first
 * "Total {current}" column of the sheet is dropped.
 */
module YearInterleave {
  import opened Cells
  import opened Sheets

  // ---------------------------------------------------------------------
  // extract_date

  datatype MonthYear = MonthYear(month: nat, year: nat)

  /** The month abbreviations of the C locale, lower-cased, January first. */
  const MonthKeys: seq<string> := ["jan", "feb", "mar", "apr", "may", "jun", "jul", "aug", "sep", "oct", "nov", "dec"]

  function MonthKey(m: nat): string
    requires 1 <= m <= 12
  {
    MonthKeys[m - 1]
  }

  function UpperChar(ch: char): char
  {
    if 'a' <= ch <= 'z' then (ch as int - 32) as char else ch
  }

  /** `datetime(y, m, 1).strftime('%b')`: the key with its first letter upper-cased. */
  function MonthAbbr(m: nat): (a: string)
    requires 1 <= m <= 12
    ensures |a| == 3
  {
    var k := MonthKey(m);
    [UpperChar(k[0])] + k[1..]
  }

  /** `%b` as strptime reads it: the month whose abbreviation `a` spells, case ignored. */
  function MonthOf(a: string): (m: Option<nat>)
    ensures m.Some? ==> 1 <= m.value <= 12 && Lower(a) == MonthKey(m.value)
    ensures m.None? ==> forall k :: 1 <= k <= 12 ==> Lower(a) != MonthKey(k)
  {
    MonthFrom(a, 1)
  }

  function MonthFrom(a: string, k: nat): (m: Option<nat>)
    requires 1 <= k
    ensures m.Some? ==> k <= m.value <= 12 && Lower(a) == MonthKey(m.value)
    ensures m.None? ==> forall t :: k <= t <= 12 ==> Lower(a) != MonthKey(t)
    decreases 13 - k
  {
    if k > 12 then None
    else if Lower(a) == MonthKey(k) then Some(k)
    else MonthFrom(a, k + 1)
  }

  lemma KeysLower()
    ensures forall t :: 0 <= t < 12 ==> |MonthKeys[t]| == 3 && forall i :: 0 <= i < 3 ==> 'a' <= MonthKeys[t][i] <= 'z'
    ensures forall t, u :: 0 <= t < u < 12 ==> MonthKeys[t] != MonthKeys[u]
  {
  }

  /** The abbreviation lower-cases to its key. */
  lemma LowerAbbr(m: nat)
    requires 1 <= m <= 12
    ensures Lower(MonthAbbr(m)) == MonthKey(m)
  {
    KeysLower();
    var k := MonthKey(m);
    var l := Lower(MonthAbbr(m));
    assert l[0] == k[0] && l[1] == k[1] && l[2] == k[2];
  }

  lemma {:induction false} MonthFromFinds(a: string, k: nat, m: nat)
    requires 1 <= k <= m <= 12 && Lower(a) == MonthKey(m)
    ensures MonthFrom(a, k) == Some(m)
    decreases m - k
  {
    if k < m {
      KeysLower();
      assert MonthKeys[k - 1] != MonthKeys[m - 1];
      MonthFromFinds(a, k + 1, m);
    }
  }

  /** Each abbreviation reads back as its own month. */
  lemma MonthOfAbbr(m: nat)
    requires 1 <= m <= 12
    ensures MonthOf(MonthAbbr(m)) == Some(m)
  {
    LowerAbbr(m);
    MonthFromFinds(MonthAbbr(m), 1, m);
  }

  predicate AllSpace(s: string)
  {
    forall i :: 0 <= i < |s| ==> IsSpace(s[i])
  }

  predicate AllDigits(s: string)
  {
    forall i :: 0 <= i < |s| ==> IsDigit(s[i])
  }

  /** `int(s)` of a string of decimal digits. */
  function DigitsValue(s: string): nat
    requires AllDigits(s)
  {
    if s == [] then 0 else DigitsValue(s[..|s| - 1]) * 10 + (s[|s| - 1] as int - '0' as int)
  }

  /**
   * extract_date: `datetime.strptime(header, '%b %Y')` for a text header:
   * a month abbreviation in any case, one or more white-space characters and
   * exactly four digits, nothing before or after; year 0 is no date.
   * Anything else, and any header that is not text, gives None.
   */
  function ExtractDate(h: Cell): (d: Option<MonthYear>)
    ensures d.Some? ==> 1 <= d.value.month <= 12 && 1 <= d.value.year <= 9999
  {
    match h
    case Text(s) =>
      if |s| >= 8 && MonthOf(s[..3]).Some? && AllSpace(s[3..|s| - 4]) && AllDigits(s[|s| - 4..])
        && DigitsValue(s[|s| - 4..]) >= 1
      then
        assert DigitsValue(s[|s| - 4..]) <= 9999 by { FourDigitsBound(s[|s| - 4..]); }
        Some(MonthYear(MonthOf(s[..3]).value, DigitsValue(s[|s| - 4..])))
      else None
    case _ => None
  }

  lemma {:induction false} DigitsBound(s: string)
    requires AllDigits(s)
    ensures DigitsValue(s) < Pow10(|s|)
    decreases |s|
  {
    if s != [] {
      DigitsBound(s[..|s| - 1]);
    }
  }

  function Pow10(n: nat): nat
  {
    if n == 0 then 1 else 10 * Pow10(n - 1)
  }

  lemma FourDigitsBound(s: string)
    requires AllDigits(s) && |s| == 4
    ensures DigitsValue(s) <= 9999
  {
    DigitsBound(s);
  }

  /** `str(n)` read back by `int`. */
  lemma {:induction false} NatTextValue(n: nat)
    ensures AllDigits(NatText(n)) && DigitsValue(NatText(n)) == n
    decreases n
  {
    if n >= 10 {
      NatTextValue(n / 10);
      var s := NatText(n);
      assert s[..|s| - 1] == NatText(n / 10);
    }
  }

  /** A four-digit year prints as four characters. */
  lemma NatTextFour(n: nat)
    requires 1000 <= n <= 9999
    ensures |NatText(n)| == 4
  {
    assert |NatText(n / 1000)| == 1;
    assert |NatText(n / 100)| == 2 by { assert (n / 100) / 10 == n / 1000; }
    assert |NatText(n / 10)| == 3 by { assert (n / 10) / 10 == n / 100; }
  }

  /** The header "{Mon} {year}" the later passes build. */
  function MonthHeader(m: nat, year: int): string
    requires 1 <= m <= 12
  {
    MonthAbbr(m) + " " + IntText(year)
  }

  /** A month header of a four-digit year reads back as that month and year. */
  lemma ExtractMonthHeader(m: nat, year: nat)
    requires 1 <= m <= 12 && 1000 <= year <= 9999
    ensures ExtractDate(Text(MonthHeader(m, year))) == Some(MonthYear(m, year))
  {
    var s := MonthHeader(m, year);
    NatTextFour(year);
    NatTextValue(year);
    assert s[..3] == MonthAbbr(m);
    assert s[3..|s| - 4] == " ";
    assert s[|s| - 4..] == NatText(year);
    MonthOfAbbr(m);
  }

  // ---------------------------------------------------------------------
  // identify_date_columns

  /** A column of the current year: its 1-based position, its header and its date. */
  datatype DateColumn = DateColumn(col: nat, header: Cell, date: MonthYear)

  predicate CurrentMonth(h: Cell, year: int)
  {
    ExtractDate(h).Some? && ExtractDate(h).value.year == year
  }

  /** extract_date applied to every header. */
  function ParseHeaders(headers: seq<Cell>): (ps: seq<Option<MonthYear>>)
    ensures |ps| == |headers| && forall j :: 0 <= j < |headers| ==> ps[j] == ExtractDate(headers[j])
  {
    if headers == [] then [] else [ExtractDate(headers[0])] + ParseHeaders(headers[1..])
  }

  /**
   * The loop of identify_date_columns over the first n headers, given what
   * extract_date made of each: the columns holding a date of the given
   * year, left to right, each with its header and that date.
   */
  function DateColumnsOf(headers: seq<Cell>, parsed: seq<Option<MonthYear>>, year: int, n: nat): (ds: seq<DateColumn>)
    requires |parsed| == |headers| && n <= |headers|
    ensures forall k :: 0 <= k < |ds| ==>
      1 <= ds[k].col <= n && ds[k].header == headers[ds[k].col - 1]
      && parsed[ds[k].col - 1] == Some(ds[k].date) && ds[k].date.year == year
    ensures forall k, l :: 0 <= k < l < |ds| ==> ds[k].col < ds[l].col
  {
    if n == 0 then []
    else
      var earlier := DateColumnsOf(headers, parsed, year, n - 1);
      var p := parsed[n - 1];
      if p.Some? && p.value.year == year then earlier + [DateColumn(n, headers[n - 1], p.value)] else earlier
  }

  /** identify_date_columns: the loop over the headers. */
  method IdentifyDateColumns(headers: seq<Cell>, year: int) returns (ds: seq<DateColumn>)
    ensures ds == DateColumnsOf(headers, ParseHeaders(headers), year, |headers|)
  {
    ghost var parsed := ParseHeaders(headers);
    ds := [];
    for col := 1 to |headers| + 1
      invariant ds == DateColumnsOf(headers, parsed, year, col - 1)
    {
      var date := ExtractDate(headers[col - 1]);
      assert parsed[col - 1] == date;
      if date.Some? && date.value.year == year {
        ds := ds + [DateColumn(col, headers[col - 1], date.value)];
      }
    }
  }

  /** The positions listed. */
  function Cols(ds: seq<DateColumn>): (cs: seq<nat>)
    ensures |cs| == |ds| && forall k :: 0 <= k < |ds| ==> cs[k] == ds[k].col
  {
    seq(|ds|, k requires 0 <= k < |ds| => ds[k].col)
  }

  /** Each listed column's header reads as a date of the year, the one recorded. */
  lemma DateColumnsSound(headers: seq<Cell>, year: int, k: nat)
    requires k < |DateColumnsOf(headers, ParseHeaders(headers), year, |headers|)|
    ensures var d := DateColumnsOf(headers, ParseHeaders(headers), year, |headers|)[k];
      1 <= d.col <= |headers| && d.header == headers[d.col - 1]
      && ExtractDate(d.header) == Some(d.date) && d.date.year == year
  {
  }

  lemma {:induction false} DateColumnsOfComplete(headers: seq<Cell>, parsed: seq<Option<MonthYear>>, year: int, n: nat, c: nat)
    requires |parsed| == |headers| && n <= |headers| && 1 <= c <= n
    requires parsed[c - 1].Some? && parsed[c - 1].value.year == year
    ensures c in Cols(DateColumnsOf(headers, parsed, year, n))
    decreases n
  {
    var ds := DateColumnsOf(headers, parsed, year, n);
    if c == n {
      assert ds[|ds| - 1].col == c;
    } else {
      DateColumnsOfComplete(headers, parsed, year, n - 1, c);
      var earlier := DateColumnsOf(headers, parsed, year, n - 1);
      var k :| 0 <= k < |earlier| && earlier[k].col == c;
      assert ds[k] == earlier[k];
    }
  }

  /** Every column whose header reads as a date of the year is listed. */
  lemma DateColumnsComplete(headers: seq<Cell>, year: int, c: nat)
    requires 1 <= c <= |headers| && CurrentMonth(headers[c - 1], year)
    ensures c in Cols(DateColumnsOf(headers, ParseHeaders(headers), year, |headers|))
  {
    DateColumnsOfComplete(headers, ParseHeaders(headers), year, |headers|, c);
  }

  // ---------------------------------------------------------------------
  // insert_empty_columns

  /** `insert_col` for the k-th date column (from 0): it has moved k*n places right. */
  function BlockStart(cols: seq<nat>, n: nat, k: nat): nat
    requires k < |cols|
  {
    cols[k] + k * n + 1
  }

  /**
   * What the insertion loop leaves at (i, j) once the first k date columns
   * have had their n columns inserted.
   */
  function SpreadAt(g: Grid, cols: seq<nat>, n: nat, k: nat, i: int, j: int): Slot
    requires k <= |cols|
    decreases k
  {
    if k == 0 then At(g, i, j)
    else
      var at := BlockStart(cols, n, k - 1);
      if j < at then SpreadAt(g, cols, n, k - 1, i, j)
      else if j < at + n then Blank
      else SpreadAt(g, cols, n, k - 1, i, j - n)
  }

  /** `max_column` alongside SpreadAt: an insertion past the last column adds nothing. */
  function SpreadWidth(w: nat, cols: seq<nat>, n: nat, k: nat): nat
    requires k <= |cols|
    decreases k
  {
    if k == 0 then w
    else
      var before := SpreadWidth(w, cols, n, k - 1);
      if BlockStart(cols, n, k - 1) <= before then before + n else before
  }

  /** One more `insert_cols(at)` after t of them, at one cell. */
  lemma OpenOneMore(g: Grid, p: Grid, h: Grid, at: nat, t: nat, i: int, j: int)
    requires 1 <= at
    requires forall i, j :: At(p, i, j) == ColsOpenedAt(g, at, t, i, j)
    requires h == InsertCols(p, at, 1)
    ensures At(h, i, j) == ColsOpenedAt(g, at, t + 1, i, j)
  {
    assert At(h, i, j) == ColsOpenedAt(p, at, 1, i, j);
    if j > at {
      assert At(p, i, j - 1) == ColsOpenedAt(g, at, t, i, j - 1);
    }
  }

  /** The inner loop: `insert_cols(at)` n times opens n empty columns at `at`. */
  method InsertEmptyAt(ws: Worksheet, at: nat, n: nat)
    requires 1 <= at
    modifies ws
    ensures forall i, j :: At(ws.grid, i, j) == ColsOpenedAt(old(ws.grid), at, n, i, j)
    ensures MaxRow(ws.grid) == MaxRow(old(ws.grid))
    ensures MaxCol(ws.grid) == if at <= MaxCol(old(ws.grid)) then MaxCol(old(ws.grid)) + n else MaxCol(old(ws.grid))
  {
    ghost var g := ws.grid;
    for t := 0 to n
      invariant forall i, j :: At(ws.grid, i, j) == ColsOpenedAt(g, at, t, i, j)
      invariant MaxRow(ws.grid) == MaxRow(g)
      invariant MaxCol(ws.grid) == if at <= MaxCol(g) then MaxCol(g) + t else MaxCol(g)
    {
      ghost var p := ws.grid;
      ws.InsertColsAt(at, 1);
      forall i, j ensures At(ws.grid, i, j) == ColsOpenedAt(g, at, t + 1, i, j) {
        OpenOneMore(g, p, ws.grid, at, t, i, j);
      }
    }
  }

  /** The k-th date column's block opened, at one cell. */
  lemma SpreadStep(g: Grid, p: Grid, h: Grid, cols: seq<nat>, n: nat, k: nat, i: int, j: int)
    requires k < |cols|
    requires forall i, j :: At(p, i, j) == SpreadAt(g, cols, n, k, i, j)
    requires At(h, i, j) == ColsOpenedAt(p, BlockStart(cols, n, k), n, i, j)
    ensures At(h, i, j) == SpreadAt(g, cols, n, k + 1, i, j)
  {
  }

  /** insert_empty_columns: n empty columns right after each listed date column. */
  method InsertEmptyColumns(ws: Worksheet, dates: seq<DateColumn>, n: nat)
    modifies ws
    ensures forall i, j :: At(ws.grid, i, j) == SpreadAt(old(ws.grid), Cols(dates), n, |dates|, i, j)
    ensures MaxRow(ws.grid) == MaxRow(old(ws.grid))
    ensures MaxCol(ws.grid) == SpreadWidth(MaxCol(old(ws.grid)), Cols(dates), n, |dates|)
  {
    ghost var g := ws.grid;
    var cols := Cols(dates);
    for offset := 0 to |dates|
      invariant forall i, j :: At(ws.grid, i, j) == SpreadAt(g, cols, n, offset, i, j)
      invariant MaxRow(ws.grid) == MaxRow(g)
      invariant MaxCol(ws.grid) == SpreadWidth(MaxCol(g), cols, n, offset)
    {
      ghost var p := ws.grid;
      InsertEmptyAt(ws, BlockStart(cols, n, offset), n);
      forall i, j ensures At(ws.grid, i, j) == SpreadAt(g, cols, n, offset + 1, i, j) {
        SpreadStep(g, p, ws.grid, cols, n, offset, i, j);
      }
    }
  }

  predicate Increasing(cols: seq<nat>)
  {
    forall k, l :: 0 <= k < l < |cols| ==> cols[k] < cols[l]
  }

  /** Right of the k-th block every original column has moved k*n places right. */
  lemma {:induction false} SpreadBeyond(g: Grid, cols: seq<nat>, n: nat, k: nat, i: int, j: int)
    requires k <= |cols| && Increasing(cols)
    requires k > 0 ==> j >= cols[k - 1] + k * n + 1
    ensures SpreadAt(g, cols, n, k, i, j) == At(g, i, j - k * n)
    decreases k
  {
    if k > 0 {
      if k > 1 {
        assert cols[k - 2] < cols[k - 1];
      }
      SpreadBeyond(g, cols, n, k - 1, i, j - n);
    }
  }

  /**
   * After the loop the k-th date column sits at cols[k] + k*n with its
   * content, and the n columns right after it are empty.
   */
  lemma {:induction false} SpreadPlacement(g: Grid, cols: seq<nat>, n: nat, total: nat, k: nat, t: nat, i: int)
    requires total <= |cols| && Increasing(cols) && k < total && t <= n
    ensures SpreadAt(g, cols, n, total, i, cols[k] + k * n + t) == if t == 0 then At(g, i, cols[k]) else Blank
    decreases total
  {
    var j := cols[k] + k * n + t;
    if k < total - 1 {
      assert cols[k] < cols[total - 1];
      assert (k + 1) * n <= (total - 1) * n by { MulMono(k + 1, total - 1, n); }
      SpreadPlacement(g, cols, n, total - 1, k, t, i);
    } else if t == 0 {
      if k > 0 {
        assert cols[k - 1] < cols[k];
      }
      SpreadBeyond(g, cols, n, k, i, j);
    }
  }

  lemma MulMono(a: nat, b: nat, n: nat)
    requires a <= b
    ensures a * n <= b * n
  {
  }

  // ---------------------------------------------------------------------
  // move_previous_years_data

  /** The column `d` places right of column `c`. */
  function Beside(c: nat, d: nat): nat
  {
    c + d
  }

  /** One move: the column at `from` goes onto `to` and its own column is deleted. */
  function MoveOut(g: Grid, from: nat, to: nat): Grid
    requires 1 <= from && 1 <= to
  {
    DeleteCols(MoveCol(g, from, to), from, 1)
  }

  /** The inner loop body: the first column headed `header`, if any, moves out onto `to`. */
  function OffsetStep(g: Grid, header: string, to: nat): Grid
    requires 1 <= to
  {
    match ColumnHeaded(g, header)
    case None => g
    case Some(p) => if p < 1 then g else MoveOut(g, p, to)
  }

  /** One month: nothing unless "{Mon} {current}" heads a column. */
  function MonthStep(g: Grid, n: nat, current: int, month: nat): Grid
    requires 1 <= month <= 12
  {
    match ColumnHeaded(g, MonthHeader(month, current))
    case None => g
    case Some(latest) => if latest < 1 then g else OffsetsWith(g, PreviousHeaders(month, current, n), latest, n)
  }

  /** Months 1 .. m done. */
  function MonthsDone(g: Grid, n: nat, current: int, m: nat): Grid
    requires m <= 12
  {
    if m == 0 then g else MonthStep(MonthsDone(g, n, current, m - 1), n, current, m)
  }

  lemma MonthsDoneStep(g: Grid, n: nat, current: int, m: nat)
    requires 1 <= m <= 12
    ensures MonthsDone(g, n, current, m) == MonthStep(MonthsDone(g, n, current, m - 1), n, current, m)
  {
  }

  /** move_previous_years_data */
  method MovePreviousYearsData(ws: Worksheet, n: nat, current: int)
    modifies ws
    ensures ws.grid == MonthsDone(old(ws.grid), n, current, 12)
  {
    ghost var g := ws.grid;
    for month := 1 to 13
      invariant ws.grid == MonthsDone(g, n, current, month - 1)
    {
      MonthsDoneStep(g, n, current, month);
      MoveMonth(ws, n, current, month);
    }
  }

  /** The body of the outer loop: one month. */
  method MoveMonth(ws: Worksheet, n: nat, current: int, month: nat)
    requires 1 <= month <= 12
    modifies ws
    ensures ws.grid == MonthStep(old(ws.grid), n, current, month)
  {
    var found := FindColumn(ws, MonthHeader(month, current));
    if found.Some? && found.value >= 1 {
      MoveOffsets(ws, n, current, month, found.value);
    }
  }

  /** The inner loop: the previous years of one month, nearest first, moved beside column `latest`. */
  method MoveOffsets(ws: Worksheet, n: nat, current: int, month: nat, latest: nat)
    requires 1 <= month <= 12 && 1 <= latest
    modifies ws
    ensures ws.grid == OffsetsWith(old(ws.grid), PreviousHeaders(month, current, n), latest, n)
  {
    ghost var gm := ws.grid;
    ghost var hs := PreviousHeaders(month, current, n);
    var off := 0;
    while off < n
      invariant off <= n
      invariant ws.grid == OffsetsWith(gm, hs, latest, off)
    {
      off := off + 1;
      assert hs[off - 1] == PreviousHeader(month, current, off);
      MoveOffset(ws, PreviousHeader(month, current, off), Beside(latest, off));
    }
  }

  /** The body of the inner loop. */
  method MoveOffset(ws: Worksheet, header: string, to: nat)
    requires 1 <= to
    modifies ws
    ensures ws.grid == OffsetStep(old(ws.grid), header, to)
  {
    var found := FindColumn(ws, header);
    if found.Some? && found.value >= 1 {
      MoveColumnOut(ws, found.value, to);
    }
  }

  /** `move_range` of one column followed by `delete_cols` of its old place. */
  method MoveColumnOut(ws: Worksheet, from: nat, to: nat)
    requires 1 <= from && 1 <= to
    modifies ws
    ensures ws.grid == MoveOut(old(ws.grid), from, to)
  {
    ws.MoveColumn(from, to);
    ws.DeleteColsAt(from, 1);
  }

  /**
   * A column moved left: its cells (rows 1 .. max_row) now sit at `to`, the
   * columns left of its old place are otherwise untouched, and everything
   * right of its old place has closed up by one.
   */
  lemma MoveOutLeft(g: Grid, from: nat, to: nat, i: int, j: int)
    requires 1 <= to < from && 1 <= i <= Max(MaxRow(g), 1)
    ensures At(MoveOut(g, from, to), i, j) ==
      if j == to then At(g, i, from) else if j < from then At(g, i, j) else At(g, i, j + 1)
  {
  }

  /** The header of month `month` of the year `offset` years before `current`. */
  function PreviousHeader(month: nat, current: int, offset: nat): string
    requires 1 <= month <= 12
  {
    MonthHeader(month, current - offset)
  }

  /**
   * How many of the first k moved columns, at their positions in the sheet
   * at the time of their move, lie at or left of column j.  With the
   * previous years' columns P in increasing order, the t-th of them has
   * moved t places left by the time it is moved itself.
   */
  function Shift(P: seq<nat>, k: nat, j: int): (s: nat)
    requires k <= |P|
    ensures s <= k
  {
    if k == 0 then 0 else Shift(P, k - 1, j) + (if P[k - 1] - (k - 1) <= j then 1 else 0)
  }

  /** Past every moved column the shift is the number of moves. */
  lemma {:induction false} ShiftAll(P: seq<nat>, k: nat, j: int)
    requires k <= |P|
    requires forall t :: 0 <= t < k ==> P[t] - t <= j
    ensures Shift(P, k, j) == k
  {
    if k > 0 {
      ShiftAll(P, k - 1, j);
    }
  }

  /** Increasing positions: each lies at least as many places right of an earlier one as it comes after it. */
  lemma {:induction false} Gaps(P: seq<nat>, s: nat, t: nat)
    requires forall u :: 0 <= u < |P| - 1 ==> P[u] < P[u + 1]
    requires s <= t < |P|
    ensures P[s] + (t - s) <= P[t]
    decreases t - s
  {
    if s < t {
      Gaps(P, s + 1, t);
    }
  }

  /**
   * The slot at (i, j) after the first k offsets of the month whose current
   * column is `latest`: columns up to `latest` are as in g; the t-th column
   * right of `latest` holds g's column P[t-1] once moved and is untouched
   * before; every column past the n spread columns shows g's column Shift
   * places right of it.
   */
  function Arranged(g: Grid, latest: nat, n: nat, P: seq<nat>, k: nat, i: int, j: int): Slot
    requires k <= n == |P|
  {
    if j <= latest then At(g, i, j)
    else if j <= latest + k then At(g, i, P[j - latest - 1])
    else if j <= latest + n then At(g, i, j)
    else At(g, i, j + Shift(P, k, j))
  }

  /** The sheet r is g after the first k offsets of the month. */
  ghost predicate ArrangedSheet(g: Grid, r: Grid, latest: nat, n: nat, P: seq<nat>, k: nat)
    requires k <= n == |P|
  {
    && Max(MaxRow(r), 1) == Max(MaxRow(g), 1)
    && MaxCol(r) == MaxCol(g) - k
    && forall i, j :: 1 <= i <= Max(MaxRow(g), 1) ==> At(r, i, j) == Arranged(g, latest, n, P, k, i, j)
  }

  /**
   * What the offsets demand of g: the header hs[t] of offset t+1 first heads
   * column P[t]; those columns lie right of the spread columns, in
   * increasing order.
   */
  predicate PreviousColumns(g: Grid, hs: seq<string>, latest: nat, P: seq<nat>)
  {
    && |P| == |hs|
    && (forall t :: 0 <= t < |hs| ==> FirstHeaded(g, hs[t], P[t]))
    && (|P| > 0 ==> P[0] > latest + |P|)
    && (forall t :: 0 <= t < |P| - 1 ==> P[t] < P[t + 1])
  }

  /** Column p is the first column headed h. */
  predicate FirstHeaded(g: Grid, h: string, p: nat)
  {
    && 1 <= p <= MaxCol(g) && Val(g, 1, p) == Text(h)
    && forall j :: 1 <= j < p ==> Val(g, 1, j) != Text(h)
  }

  /** The scan finds a header exactly at the first column it heads. */
  lemma FirstHeadedFound(g: Grid, h: string, p: nat)
    ensures ColumnHeaded(g, h) == Some(p) <==> FirstHeaded(g, h, p)
  {
    if ColumnHeaded(g, h) == Some(p) {
      assert Test(Exactly(h))(Val(g, 1, p));
      forall j | 1 <= j < p ensures Val(g, 1, j) != Text(h) {
        assert !Test(Exactly(h))(Val(g, 1, j));
      }
    }
    if FirstHeaded(g, h, p) {
      FirstHeadedAt(g, h, p);
    }
  }

  /** Column P[k] - k of the arranged sheet is g's column P[k], right of the spread columns. */
  lemma NextAt(g: Grid, latest: nat, n: nat, P: seq<nat>, k: nat, i: int)
    requires k < n == |P| && P[0] > latest + n
    requires forall t :: 0 <= t < n - 1 ==> P[t] < P[t + 1]
    ensures P[k] - k > latest + n
    ensures Arranged(g, latest, n, P, k, i, P[k] - k) == At(g, i, P[k])
  {
    Gaps(P, 0, k);
    forall t | 0 <= t < k ensures P[t] - t <= P[k] - k { Gaps(P, t, k); }
    ShiftAll(P, k, P[k] - k);
  }

  /** Each column left of P[k] - k of the arranged sheet is a column of g left of P[k]. */
  lemma BeforeNext(g: Grid, latest: nat, n: nat, P: seq<nat>, k: nat, h: string, j: int)
    requires k < n == |P| && P[0] > latest + n
    requires forall t :: 0 <= t < n - 1 ==> P[t] < P[t + 1]
    requires forall c :: 1 <= c < P[k] ==> Val(g, 1, c) != Text(h)
    requires 1 <= j < P[k] - k
    ensures Arranged(g, latest, n, P, k, 1, j).value != Text(h)
  {
    Gaps(P, 0, k);
    if latest < j <= latest + k {
      Gaps(P, 0, j - latest - 1);
      Gaps(P, j - latest - 1, k);
    }
    var c := if j <= latest then j else if j <= latest + k then P[j - latest - 1] else if j <= latest + n then j else j + Shift(P, k, j);
    assert Arranged(g, latest, n, P, k, 1, j) == At(g, 1, c);
    assert Val(g, 1, c) != Text(h);
  }

  /** In the arranged sheet the next header first heads column P[k] - k. */
  lemma NextHeaded(g: Grid, r: Grid, hs: seq<string>, latest: nat, P: seq<nat>, k: nat)
    requires 1 <= latest && k < |hs|
    requires PreviousColumns(g, hs, latest, P)
    requires ArrangedSheet(g, r, latest, |P|, P, k)
    ensures P[k] - k > latest + |P|
    ensures ColumnHeaded(r, hs[k]) == Some(P[k] - k)
  {
    var h := hs[k];
    var q := P[k] - k;
    assert FirstHeaded(g, h, P[k]);
    NextAt(g, latest, |P|, P, k, 1);
    assert Val(r, 1, q) == Text(h);
    forall j | 1 <= j < q
      ensures Val(r, 1, j) != Text(h)
    {
      BeforeNext(g, latest, |P|, P, k, h, j);
    }
    FirstHeadedAt(r, h, q);
  }

  /** One point of the sheet after one more offset, the moved column having been at q = P[k] - k. */
  lemma StepPoint(g: Grid, latest: nat, n: nat, P: seq<nat>, k: nat, i: int, j: int, after: Slot)
    requires k < n == |P| && P[0] > latest + n
    requires forall t :: 0 <= t < n - 1 ==> P[t] < P[t + 1]
    requires var q := P[k] - k;
      after == if j == latest + k + 1 then Arranged(g, latest, n, P, k, i, q)
               else if j < q then Arranged(g, latest, n, P, k, i, j)
               else Arranged(g, latest, n, P, k, i, j + 1)
    ensures after == Arranged(g, latest, n, P, k + 1, i, j)
  {
    var q := P[k] - k;
    NextAt(g, latest, n, P, k, i);
    if j > latest + n && j >= q {
      forall t | 0 <= t < k ensures P[t] - t <= j + 1 { Gaps(P, t, k); }
      forall t | 0 <= t < k + 1 ensures P[t] - t <= j { if t < k { Gaps(P, t, k); } }
      ShiftAll(P, k, j + 1);
      ShiftAll(P, k + 1, j);
    }
  }

  /**
   * Moving column P[k] - k onto the next spread column, closing up behind it,
   * keeps the arrangement, one step further.
   */
  lemma ArrangedMove(g: Grid, r: Grid, s: Grid, latest: nat, n: nat, P: seq<nat>, k: nat)
    requires 1 <= latest && k < n == |P| && P[0] > latest + n
    requires forall t :: 0 <= t < n - 1 ==> P[t] < P[t + 1]
    requires ArrangedSheet(g, r, latest, n, P, k)
    requires Max(MaxRow(s), 1) == Max(MaxRow(g), 1) && MaxCol(s) == MaxCol(r) - 1
    requires forall i, j :: 1 <= i <= Max(MaxRow(g), 1) ==>
      At(s, i, j) == if j == latest + k + 1 then At(r, i, P[k] - k) else if j < P[k] - k then At(r, i, j) else At(r, i, j + 1)
    ensures ArrangedSheet(g, s, latest, n, P, k + 1)
  {
    var q := P[k] - k;
    var to := latest + k + 1;
    forall i, j | 1 <= i <= Max(MaxRow(g), 1)
      ensures At(s, i, j) == Arranged(g, latest, n, P, k + 1, i, j)
    {
      assert At(r, i, q) == Arranged(g, latest, n, P, k, i, q);
      assert At(r, i, j) == Arranged(g, latest, n, P, k, i, j);
      assert At(r, i, j + 1) == Arranged(g, latest, n, P, k, i, j + 1);
      StepPoint(g, latest, n, P, k, i, j, At(s, i, j));
    }
  }

  /** One offset keeps the arrangement, one step further. */
  lemma ArrangedStep(g: Grid, r: Grid, hs: seq<string>, latest: nat, P: seq<nat>, k: nat)
    requires 1 <= latest && k < |hs|
    requires PreviousColumns(g, hs, latest, P)
    requires ArrangedSheet(g, r, latest, |P|, P, k)
    ensures ArrangedSheet(g, OffsetStep(r, hs[k], Beside(latest, k + 1)), latest, |P|, P, k + 1)
  {
    NextHeaded(g, r, hs, latest, P, k);
    assert FirstHeaded(g, hs[k], P[k]);
    FoundMovedOut(g, r, hs[k], latest, |P|, P, k);
  }

  /** The offset step whose header is found at P[k] - k keeps the arrangement, one step further. */
  lemma FoundMovedOut(g: Grid, r: Grid, h: string, latest: nat, n: nat, P: seq<nat>, k: nat)
    requires 1 <= latest && k < n == |P| && P[0] > latest + n && P[k] <= MaxCol(g)
    requires forall t :: 0 <= t < n - 1 ==> P[t] < P[t + 1]
    requires ArrangedSheet(g, r, latest, n, P, k)
    requires P[k] - k > latest + k + 1 && ColumnHeaded(r, h) == Some(P[k] - k)
    ensures ArrangedSheet(g, OffsetStep(r, h, Beside(latest, k + 1)), latest, n, P, k + 1)
  {
    var s := MoveOut(r, P[k] - k, latest + k + 1);
    MovedOut(g, r, s, latest, n, P, k);
    OffsetStepMoves(r, h, P[k] - k, Beside(latest, k + 1));
  }

  /** The offset step whose header is found at column q is the move of column q. */
  lemma OffsetStepMoves(r: Grid, h: string, q: nat, to: nat)
    requires 1 <= q && 1 <= to && ColumnHeaded(r, h) == Some(q)
    ensures OffsetStep(r, h, to) == MoveOut(r, q, to)
  {
  }

  /** The move of column P[k] - k onto the next spread column, in the terms of ArrangedMove. */
  lemma MovedOut(g: Grid, r: Grid, s: Grid, latest: nat, n: nat, P: seq<nat>, k: nat)
    requires 1 <= latest && k < n == |P| && P[0] > latest + n && P[k] <= MaxCol(g)
    requires forall t :: 0 <= t < n - 1 ==> P[t] < P[t + 1]
    requires ArrangedSheet(g, r, latest, n, P, k)
    requires P[k] - k > latest + k + 1 && s == MoveOut(r, P[k] - k, latest + k + 1)
    ensures ArrangedSheet(g, s, latest, n, P, k + 1)
  {
    var q := P[k] - k;
    var to := latest + k + 1;
    MoveOutShape(r, q, to);
    forall i, j | 1 <= i <= Max(MaxRow(g), 1)
      ensures At(s, i, j) == if j == to then At(r, i, q) else if j < q then At(r, i, j) else At(r, i, j + 1)
    {
      MoveOutLeft(r, q, to, i, j);
    }
    ArrangedMove(g, r, s, latest, n, P, k);
  }

  /** A column moved left out of the sheet: one column fewer, and at least one row. */
  lemma MoveOutShape(g: Grid, from: nat, to: nat)
    requires 1 <= to < from <= MaxCol(g)
    ensures MaxRow(MoveOut(g, from, to)) == Max(MaxRow(g), 1)
    ensures MaxCol(MoveOut(g, from, to)) == MaxCol(g) - 1
  {
  }

  /** The offsets 1 .. k of one month: the columns headed hs[0], .. hs[k-1] move out in turn. */
  function OffsetsWith(g: Grid, hs: seq<string>, latest: nat, k: nat): Grid
    requires 1 <= latest && k <= |hs|
  {
    if k == 0 then g else OffsetStep(OffsetsWith(g, hs, latest, k - 1), hs[k - 1], Beside(latest, k))
  }

  lemma {:induction false} ArrangedUpTo(g: Grid, hs: seq<string>, latest: nat, P: seq<nat>, k: nat)
    requires 1 <= latest && k <= |hs|
    requires PreviousColumns(g, hs, latest, P)
    ensures ArrangedSheet(g, OffsetsWith(g, hs, latest, k), latest, |P|, P, k)
    decreases k
  {
    if k > 0 {
      ArrangedUpTo(g, hs, latest, P, k - 1);
      ArrangedStep(g, OffsetsWith(g, hs, latest, k - 1), hs, latest, P, k - 1);
    } else {
      forall i, j | 1 <= i <= Max(MaxRow(g), 1) ensures At(g, i, j) == Arranged(g, latest, |P|, P, 0, i, j) {
      }
    }
  }

  /** The headers "{Mon} {current - t}" of offsets t = 1 .. n. */
  function PreviousHeaders(month: nat, current: int, n: nat): (hs: seq<string>)
    requires 1 <= month <= 12
    ensures |hs| == n && forall t :: 0 <= t < n ==> hs[t] == PreviousHeader(month, current, t + 1)
  {
    seq(n, t requires 0 <= t < n => PreviousHeader(month, current, t + 1))
  }

  /**
   * move_previous_years_data for one month whose previous years all have a
   * column: the month's step leaves the sheet arranged after all n offsets,
   * so (PlacedColumns) the column of the year t years back sits at
   * `latest + t`, beside the current year's month, the columns up to
   * `latest` are untouched, and the columns past the spread close up.
   */
  lemma MonthPlaced(g: Grid, month: nat, current: int, latest: nat, n: nat, P: seq<nat>)
    requires 1 <= month <= 12 && 1 <= latest && |P| == n
    requires ColumnHeaded(g, MonthHeader(month, current)) == Some(latest)
    requires forall t :: 0 <= t < n ==> ColumnHeaded(g, PreviousHeader(month, current, t + 1)) == Some(P[t])
    requires n > 0 ==> P[0] > latest + n
    requires forall t :: 0 <= t < n - 1 ==> P[t] < P[t + 1]
    ensures ArrangedSheet(g, MonthStep(g, n, current, month), latest, n, P, n)
  {
    var hs := PreviousHeaders(month, current, n);
    HeadersFound(g, month, current, latest, n, P);
    ArrangedUpTo(g, hs, latest, P, n);
  }

  /** The scan's results for the previous headers, as the arrangement needs them. */
  lemma HeadersFound(g: Grid, month: nat, current: int, latest: nat, n: nat, P: seq<nat>)
    requires 1 <= month <= 12 && |P| == n
    requires forall t :: 0 <= t < n ==> ColumnHeaded(g, PreviousHeader(month, current, t + 1)) == Some(P[t])
    requires n > 0 ==> P[0] > latest + n
    requires forall t :: 0 <= t < n - 1 ==> P[t] < P[t + 1]
    ensures PreviousColumns(g, PreviousHeaders(month, current, n), latest, P)
  {
    var hs := PreviousHeaders(month, current, n);
    forall t | 0 <= t < n ensures FirstHeaded(g, hs[t], P[t]) {
      FirstHeadedFound(g, hs[t], P[t]);
    }
  }

  /**
   * What the arrangement after all n offsets says, column by column: the
   * columns up to `latest` are g's; the t-th column right of `latest` is
   * g's column P[t-1]; each column past the spread shows g's column as many
   * places right as moved columns were left of it, so all n places right
   * past the last one; and the sheet is n columns narrower.
   */
  lemma PlacedColumns(g: Grid, r: Grid, latest: nat, n: nat, P: seq<nat>)
    requires |P| == n && (n > 0 ==> P[0] > latest + n)
    requires forall t :: 0 <= t < n - 1 ==> P[t] < P[t + 1]
    requires ArrangedSheet(g, r, latest, n, P, n)
    ensures MaxCol(r) == MaxCol(g) - n
    ensures forall i, j :: 1 <= i <= Max(MaxRow(g), 1) && j <= latest ==> At(r, i, j) == At(g, i, j)
    ensures forall i, t :: 1 <= i <= Max(MaxRow(g), 1) && 1 <= t <= n ==> At(r, i, Beside(latest, t)) == At(g, i, P[t - 1])
    ensures forall i, j :: 1 <= i <= Max(MaxRow(g), 1) && j > latest + n ==> At(r, i, j) == At(g, i, j + Shift(P, n, j))
    ensures n > 0 ==> forall i, j :: 1 <= i <= Max(MaxRow(g), 1) && j > latest + n && j >= P[n - 1] - (n - 1) ==>
      At(r, i, j) == At(g, i, j + n)
  {
    forall i, t | 1 <= i <= Max(MaxRow(g), 1) && 1 <= t <= n ensures At(r, i, Beside(latest, t)) == At(g, i, P[t - 1]) {
      assert At(r, i, latest + t) == Arranged(g, latest, n, P, n, i, latest + t);
    }
    if n > 0 {
      forall j | j >= P[n - 1] - (n - 1) ensures Shift(P, n, j) == n {
        forall t | 0 <= t < n ensures P[t] - t <= j { Gaps(P, t, n - 1); }
        ShiftAll(P, n, j);
      }
    }
  }

  // ---------------------------------------------------------------------
  // find_total_columns

  /** `re.match(r"Total \d{4}", v)`: the text starts with "Total " and four digits. */
  predicate TotalLike(v: Cell)
  {
    v.Text? && |v.s| >= 10 && v.s[..6] == "Total " && AllDigits(v.s[6..10])
  }

  /** How many "Category" headers lie in columns 1 .. c-1. */
  function CategoriesBefore(g: Grid, c: nat): nat
  {
    if c <= 1 then 0
    else CategoriesBefore(g, c - 1) + (if Val(g, 1, c - 1) == Text("Category") then 1 else 0)
  }

  /** The "Total dddd" headers among columns 1 .. c-1 that follow exactly two "Category" headers. */
  function TotalColumnsUpTo(g: Grid, c: nat): (ts: seq<(nat, string)>)
    ensures forall k :: 0 <= k < |ts| ==>
      1 <= ts[k].0 < c && CategoriesBefore(g, ts[k].0) == 2 && TotalLike(Val(g, 1, ts[k].0))
      && ts[k].1 == Val(g, 1, ts[k].0).s
    ensures forall k, l :: 0 <= k < l < |ts| ==> ts[k].0 < ts[l].0
  {
    if c <= 1 then []
    else
      var v := Val(g, 1, c - 1);
      TotalColumnsUpTo(g, c - 1) + (if CategoriesBefore(g, c - 1) == 2 && TotalLike(v) then [(c - 1, v.s)] else [])
  }

  /** Every "Total dddd" header between the second and the third "Category" is listed. */
  lemma {:induction false} TotalColumnsComplete(g: Grid, c: nat, col: nat)
    requires 1 <= col < c && CategoriesBefore(g, col) == 2 && TotalLike(Val(g, 1, col))
    ensures (col, Val(g, 1, col).s) in TotalColumnsUpTo(g, c)
    decreases c
  {
    if col < c - 1 {
      TotalColumnsComplete(g, c - 1, col);
    }
  }

  /** find_total_columns: the counting loop over the header row. */
  method FindTotalColumns(ws: Worksheet) returns (totals: seq<(nat, string)>)
    ensures totals == TotalColumnsUpTo(ws.grid, MaxCol(ws.grid) + 1)
  {
    var count := 0;
    totals := [];
    for col := 1 to MaxCol(ws.grid) + 1
      invariant count == CategoriesBefore(ws.grid, col)
      invariant totals == TotalColumnsUpTo(ws.grid, col)
    {
      var v := Val(ws.grid, 1, col);
      if v == Text("Category") {
        count := count + 1;
        continue;
      }
      if count == 2 && TotalLike(v) {
        totals := totals + [(col, v.s)];
      }
    }
  }

  // ---------------------------------------------------------------------
  // insert_total_columns

  function TotalHeader(year: string): string
  {
    "Total " + year
  }

  /** The new "Total {current}" column opened at `first`. */
  function TotalOpened(g: Grid, first: nat, current: int): Grid
    requires 1 <= first
  {
    SetVal(InsertCols(g, first, 1), 1, first, Text(TotalHeader(IntText(current))))
  }

  /** One loop pass: the first column headed `header`, when present, moves onto `to`. */
  function TotalMoveStep(g: Grid, header: string, to: nat): Grid
    requires 1 <= to
  {
    match ColumnHeaded(g, header)
    case None => g
    case Some(p) => if p < 1 then g else MoveCol(g, p, to)
  }

  /** The body of the loop: "Total {previous_years[i]}" moves onto first + i + 1. */
  method MoveTotal(ws: Worksheet, header: string, to: nat)
    requires 1 <= to
    modifies ws
    ensures ws.grid == TotalMoveStep(old(ws.grid), header, to)
  {
    var found := FindColumn(ws, header);
    if found.Some? && found.value >= 1 {
      ws.MoveColumn(found.value, to);
    }
  }

  /** Passes 1 .. k-1 done. */
  function TotalMovesDone(g: Grid, first: nat, previous: seq<string>, k: nat): Grid
    requires 1 <= first && (k <= 1 || k <= |previous|)
  {
    if k <= 1 then g else TotalMoveStep(TotalMovesDone(g, first, previous, k - 1), TotalHeader(previous[k - 1]), Beside(first, k))
  }

  /**
   * How far the loop over i = 1 .. n-1 gets: `previous_years[i]` raises
   * IndexError once i reaches the length of the list.
   */
  function TotalPasses(n: nat, previous: seq<string>): (k: nat)
    ensures k <= 1 || k <= |previous|
  {
    if n <= 1 then 1 else if n <= |previous| then n else if |previous| <= 1 then 1 else |previous|
  }

  /**
   * insert_total_columns; `ok` is false when the list of previous years
   * runs out before the loop ends, which raises and aborts the stage.
   */
  method InsertTotalColumns(ws: Worksheet, totals: seq<(nat, string)>, n: nat, current: int, previous: seq<string>)
    returns (ok: bool)
    requires forall k :: 0 <= k < |totals| ==> 1 <= totals[k].0
    modifies ws
    ensures totals == [] ==> ok && ws.grid == old(ws.grid)
    ensures totals != [] ==> ok == (n <= 1 || n <= |previous|)
    ensures totals != [] ==>
      ws.grid == TotalMovesDone(TotalOpened(old(ws.grid), totals[0].0, current), totals[0].0, previous, TotalPasses(n, previous))
  {
    if totals == [] {
      return true;
    }
    var first := totals[0].0;
    OpenTotalColumn(ws, first, current);
    ok := MoveTotals(ws, first, n, previous);
  }

  /** `insert_cols(first)` and the header "Total {current}" written into it. */
  method OpenTotalColumn(ws: Worksheet, first: nat, current: int)
    requires 1 <= first
    modifies ws
    ensures ws.grid == TotalOpened(old(ws.grid), first, current)
  {
    ws.InsertColsAt(first, 1);
    ws.SetCell(1, first, Text(TotalHeader(IntText(current))));
  }

  /** The loop of insert_cols over i = 1 .. n-1. */
  method MoveTotals(ws: Worksheet, first: nat, n: nat, previous: seq<string>) returns (ok: bool)
    requires 1 <= first
    modifies ws
    ensures ok == (n <= 1 || n <= |previous|)
    ensures ws.grid == TotalMovesDone(old(ws.grid), first, previous, TotalPasses(n, previous))
  {
    ghost var started := ws.grid;
    var i := 1;
    while i < n
      invariant 1 <= i && (i <= n || i == 1)
      invariant i <= |previous| || i <= 1
      invariant ws.grid == TotalMovesDone(started, first, previous, i)
    {
      if i >= |previous| {
        return false;
      }
      MoveTotal(ws, TotalHeader(previous[i]), Beside(first, i + 1));
      i := i + 1;
    }
    return true;
  }

  /**
   * The new "Total {current}" header stays where it was put as long as no
   * year of the loop is the current year spelt the same way: the moves only
   * write columns right of it and only empty columns headed by a previous year.
   */
  lemma {:induction false} OpenedTotalStays(g: Grid, first: nat, previous: seq<string>, k: nat, current: int)
    requires 1 <= first && (k <= 1 || k <= |previous|)
    requires Val(g, 1, first) == Text(TotalHeader(IntText(current)))
    requires forall i :: 1 <= i < k ==> previous[i] != IntText(current)
    ensures Val(TotalMovesDone(g, first, previous, k), 1, first) == Text(TotalHeader(IntText(current)))
    decreases k
  {
    if k > 1 {
      OpenedTotalStays(g, first, previous, k - 1, current);
      var header := TotalHeader(previous[k - 1]);
      assert header != TotalHeader(IntText(current)) by {
        assert header[6..] == previous[k - 1];
      }
      TotalMoveKeeps(TotalMovesDone(g, first, previous, k - 1), header, Beside(first, k), first);
    }
  }

  /** A move onto another column leaves a column headed differently alone. */
  lemma TotalMoveKeeps(h: Grid, header: string, to: nat, c: nat)
    requires 1 <= c < to && Val(h, 1, c) != Text(header)
    ensures Val(TotalMoveStep(h, header, to), 1, c) == Val(h, 1, c)
  {
    var found := ColumnHeaded(h, header);
    if found.Some? && found.value >= 1 {
      assert At(TotalMoveStep(h, header, to), 1, c) == ColMovedAt(h, found.value, to, 1, c);
    }
  }

  // ---------------------------------------------------------------------
  // drop_total_current_year_column

  /** The first "Total {current}" column deleted, if there is one. */
  function TotalDropped(g: Grid, current: int): Grid
  {
    match ColumnHeaded(g, TotalHeader(IntText(current)))
    case None => g
    case Some(c) => if c < 1 then g else DeleteCols(g, c, 1)
  }

  method DropTotalCurrentYearColumn(ws: Worksheet, current: int)
    modifies ws
    ensures ws.grid == TotalDropped(old(ws.grid), current)
  {
    var found := FindColumn(ws, TotalHeader(IntText(current)));
    if found.Some? && found.value >= 1 {
      ws.DeleteColsAt(found.value, 1);
    }
  }

  /**
   * Only the first "Total {current}" column goes: the columns left of it
   * stay, the ones right of it close up, and a later "Total {current}"
   * column survives.  Without such a column nothing changes.
   */
  lemma DropsFirstOnly(g: Grid, current: int, i: int, j: int)
    ensures ColumnHeaded(g, TotalHeader(IntText(current))).None? ==> TotalDropped(g, current) == g
    ensures ColumnHeaded(g, TotalHeader(IntText(current))).Some? ==>
      var c := ColumnHeaded(g, TotalHeader(IntText(current))).value;
      At(TotalDropped(g, current), i, j) == if j < c then At(g, i, j) else At(g, i, j + 1)
  {
  }

  // ---------------------------------------------------------------------
  // process_stage8

  /**
   * The end of process_stage8, from find_total_columns on: the sheet it
   * leaves and whether it got through insert_total_columns.
   */
  function TotalsRearranged(g: Grid, n: nat, current: int, previous: seq<string>): Pass
  {
    var totals := TotalColumnsUpTo(g, MaxCol(g) + 1);
    if totals == [] then Pass(TotalDropped(g, current), true)
    else
      var first := totals[0].0;
      var moved := TotalMovesDone(TotalOpened(g, first, current), first, previous, TotalPasses(n, previous));
      if n <= 1 || n <= |previous| then Pass(TotalDropped(moved, current), true) else Pass(moved, false)
  }

  /** find_total_columns, insert_total_columns and, when that succeeds, drop_total_current_year_column. */
  method RearrangeTotals(ws: Worksheet, n: nat, current: int, previous: seq<string>) returns (ok: bool)
    modifies ws
    ensures Pass(ws.grid, ok) == TotalsRearranged(old(ws.grid), n, current, previous)
  {
    var totals := FindTotalColumns(ws);
    ok := InsertTotalColumns(ws, totals, n, current, previous);
    if ok {
      DropTotalCurrentYearColumn(ws, current);
    }
  }

  /**
   * process_stage8 with the current year passed in; `ok` is false when
   * insert_total_columns raised, in which case nothing is saved.  `dates`
   * is what identify_date_columns found and `spread` the sheet after
   * insert_empty_columns.
   */
  method ProcessStage8(ws: Worksheet, n: nat, current: int, previous: seq<string>)
    returns (ok: bool, ghost dates: seq<DateColumn>, ghost spread: Grid)
    modifies ws
    ensures var hs := Headers(old(ws.grid));
      dates == DateColumnsOf(hs, ParseHeaders(hs), current, |hs|)
    ensures forall i, j :: At(spread, i, j) == SpreadAt(old(ws.grid), Cols(dates), n, |dates|, i, j)
    ensures Pass(ws.grid, ok) == TotalsRearranged(MonthsDone(spread, n, current, 12), n, current, previous)
  {
    var headers := Headers(ws.grid);
    var found := IdentifyDateColumns(headers, current);
    dates := found;
    InsertEmptyColumns(ws, found, n);
    spread := ws.grid;
    MovePreviousYearsData(ws, n, current);
    ok := RearrangeTotals(ws, n, current, previous);
  }
}
