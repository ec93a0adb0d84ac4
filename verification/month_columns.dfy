/**
 * Month ranges read off day-column headers.  A day column is headed by text
 * ending in "/mm"; month number i of a month list (counted from 0) is looked
 * for under the suffix "/" + two-digit(i + 4), so a list starting at April
 * finds April under "/04".  For each month the scan keeps the first and the
 * last column whose header carries its suffix.
 *
 * The dictionary `month_ranges`, keyed by month name, is kept as a sequence
 * indexed by the month's position in the month list: entry i is `None` while
 * month i has no column and `Some([first, last])` afterwards.
 */
module MonthColumns {
  import opened Cells
  import opened Sheets

  /** `[first_col, last_col]` of one month */
  datatype Span = Span(first: nat, last: nat)

  type Ranges = seq<Option<Span>>

  const SPRING_TO_AUTUMN: seq<string> := ["Apr", "May", "Jun", "Jul", "Aug", "Sep"]

  const APRIL_TO_MARCH: seq<string> :=
    ["Apr", "May", "Jun", "Jul", "Aug", "Sep", "Oct", "Nov", "Dec", "Jan", "Feb", "Mar"]

  /** f'/{str(i + 4).zfill(2)}' */
  function MonthSuffix(i: nat): (s: string)
    ensures |s| >= 3 && s[0] == '/'
  {
    "/" + ZFill2(i + 4)
  }

  /** `header.endswith(MonthSuffix(i))` for a string header */
  predicate HeaderInMonth(h: Cell, i: nat)
  {
    IsStr(h) && EndsWith(Render(h), MonthSuffix(i))
  }

  /** A header that carries a month suffix is non-empty text. */
  lemma HeaderInMonthIsTruthy(h: Cell, i: nat)
    requires HeaderInMonth(h, i)
    ensures Truthy(h) && h.Text?
  {
  }

  /** The month numbers two-digit(i + 4) of an April-to-March list run 04 .. 15. */
  lemma {:induction false} SuffixNumbers()
    ensures MonthSuffix(0) == "/04" && MonthSuffix(5) == "/09"
    ensures MonthSuffix(9) == "/13" && MonthSuffix(10) == "/14" && MonthSuffix(11) == "/15"
  {
    assert NatText(13) == NatText(1) + [DigitChar(3)];
    assert NatText(14) == NatText(1) + [DigitChar(4)];
    assert NatText(15) == NatText(1) + [DigitChar(5)];
  }

  /** No ranges yet: `month_ranges = {}` */
  function NoRanges(n: nat): (r: Ranges)
    ensures |r| == n && forall i :: 0 <= i < n ==> r[i].None?
  {
    seq(n, _ => None)
  }

  /**
   * The inner loop over the months for the column `col` headed `h`: a month
   * the header belongs to (`hit`) gets `[col, col]` if it was absent and has
   * its last column moved to `col` otherwise.  Months from index k on are
   * not yet looked at.
   */
  function AddColumn(m: Ranges, col: nat, h: Cell, k: nat, hit: (Cell, nat) -> bool): (r: Ranges)
    requires k <= |m|
    ensures |r| == |m|
    ensures forall i :: 0 <= i < |m| ==> (r[i] ==
      if i >= k || !hit(h, i) then m[i]
      else if m[i].Some? then Some(Span(m[i].value.first, col))
      else Some(Span(col, col)))
  {
    if k == 0 then m
    else
      var p := AddColumn(m, col, h, k - 1, hit);
      var i := k - 1;
      if !hit(h, i) then p
      else if p[i].Some? then p[i := Some(Span(p[i].value.first, col))]
      else p[i := Some(Span(col, col))]
  }

  /**
   * The ranges of n months after scanning the header cells of columns
   * lo .. hi-1; a falsy header is passed over.
   */
  function RangesUpTo(n: nat, g: Grid, lo: nat, hi: nat, hit: (Cell, nat) -> bool): (r: Ranges)
    ensures |r| == n
    decreases hi - lo
  {
    if hi <= lo then NoRanges(n)
    else
      var m := RangesUpTo(n, g, lo, hi - 1, hit);
      var h := Val(g, 1, hi - 1);
      if Truthy(h) then AddColumn(m, hi - 1, h, n, hit) else m
  }

  /**
   * What the ranges mean, for any month test that only truthy headers
   * pass: month i is present exactly when some column in lo .. hi-1 passes
   * the test for it, and then its span runs from the first such column to
   * the last.
   */
  lemma {:induction false} RangesMeaning(n: nat, g: Grid, lo: nat, hi: nat, hit: (Cell, nat) -> bool, i: nat)
    requires i < n
    requires forall h: Cell, j: nat :: hit(h, j) ==> Truthy(h)
    ensures var r := RangesUpTo(n, g, lo, hi, hit);
      && (r[i].Some? <==> exists c :: lo <= c < hi && hit(Val(g, 1, c), i))
      && (r[i].Some? ==>
           var s := r[i].value;
           && lo <= s.first <= s.last < hi
           && hit(Val(g, 1, s.first), i) && hit(Val(g, 1, s.last), i)
           && (forall c :: lo <= c < s.first ==> !hit(Val(g, 1, c), i))
           && (forall c :: s.last < c < hi ==> !hit(Val(g, 1, c), i)))
    decreases hi - lo
  {
    if hi > lo {
      RangesMeaning(n, g, lo, hi - 1, hit, i);
    }
  }

  /** An absent month, or a span inside lo .. hi-1 */
  predicate Within(s: Option<Span>, lo: nat, hi: nat)
  {
    s.Some? ==> lo <= s.value.first <= s.value.last < hi
  }

  /** Every span lies within the columns scanned. */
  lemma {:induction false} RangesWithin(n: nat, g: Grid, lo: nat, hi: nat, hit: (Cell, nat) -> bool)
    ensures forall i :: 0 <= i < n ==> Within(RangesUpTo(n, g, lo, hi, hit)[i], lo, hi)
    decreases hi - lo
  {
    if hi > lo {
      RangesWithin(n, g, lo, hi - 1, hit);
      var m := RangesUpTo(n, g, lo, hi - 1, hit);
      var r := RangesUpTo(n, g, lo, hi, hit);
      forall i | 0 <= i < n
        ensures Within(r[i], lo, hi)
      {
        if r[i] != m[i] {
          assert r[i] == Some(Span(hi - 1, hi - 1)) || (m[i].Some? && r[i] == Some(Span(m[i].value.first, hi - 1)));
          if m[i].Some? {
            assert Within(m[i], lo, hi - 1);
          }
        }
      }
    }
  }

  /**
   * find_monthly_column_ranges: month i is present exactly when some column
   * in lo .. hi-1 has a header ending in its suffix, and its span runs from
   * the first such column to the last.
   */
  lemma SuffixRanges(n: nat, g: Grid, lo: nat, hi: nat, i: nat)
    requires i < n
    ensures var r := RangesUpTo(n, g, lo, hi, HeaderInMonth);
      && (r[i].Some? <==> exists c :: lo <= c < hi && HeaderInMonth(Val(g, 1, c), i))
      && (r[i].Some? ==>
           var s := r[i].value;
           && lo <= s.first <= s.last < hi
           && HeaderInMonth(Val(g, 1, s.first), i) && HeaderInMonth(Val(g, 1, s.last), i)
           && (forall c :: lo <= c < s.first ==> !HeaderInMonth(Val(g, 1, c), i))
           && (forall c :: s.last < c < hi ==> !HeaderInMonth(Val(g, 1, c), i)))
  {
    forall h: Cell, j: nat | HeaderInMonth(h, j)
      ensures Truthy(h)
    {
      HeaderInMonthIsTruthy(h, j);
    }
    RangesMeaning(n, g, lo, hi, HeaderInMonth, i);
  }

  /** The first column in lo .. hi-1 whose header is truthy but not a string. */
  function NonTextStop(g: Grid, lo: nat, hi: nat): (s: Option<nat>)
    ensures s.None? <==> forall c :: lo <= c < hi ==> !(Truthy(Val(g, 1, c)) && !IsStr(Val(g, 1, c)))
    ensures s.Some? ==> lo <= s.value < hi && Truthy(Val(g, 1, s.value)) && !IsStr(Val(g, 1, s.value))
    ensures s.Some? ==> forall c :: lo <= c < s.value ==> !(Truthy(Val(g, 1, c)) && !IsStr(Val(g, 1, c)))
    decreases hi - lo
  {
    if hi <= lo then None
    else
      var h := Val(g, 1, lo);
      if Truthy(h) && !IsStr(h) then Some(lo) else NonTextStop(g, lo + 1, hi)
  }

  /**
   * The scan of find_monthly_column_ranges for n months over the header
   * cells of columns lo .. hi-1.  With `skipNonText` a header that is not a
   * string is passed over; without it, a truthy header that is not a string
   * makes `.endswith` raise, and the scan reports the failure together with
   * the ranges gathered from the columns before it.
   */
  method ScanMonthRanges(ws: Worksheet, n: nat, lo: nat, hi: nat, skipNonText: bool)
    returns (ranges: Ranges, failed: bool)
    ensures failed <==> !skipNonText && NonTextStop(ws.grid, lo, hi).Some?
    ensures ranges == RangesUpTo(n, ws.grid, lo, if failed then NonTextStop(ws.grid, lo, hi).value else hi, HeaderInMonth)
  {
    ranges, failed := NoRanges(n), false;
    var col := lo;
    while col < hi
      invariant lo <= col <= hi || (col == lo && hi < lo)
      invariant !skipNonText ==> forall c :: lo <= c < col ==> !(Truthy(Val(ws.grid, 1, c)) && !IsStr(Val(ws.grid, 1, c)))
      invariant ranges == RangesUpTo(n, ws.grid, lo, col, HeaderInMonth)
    {
      var h := Val(ws.grid, 1, col);
      if skipNonText && !IsStr(h) {
        NoMonthInNonText(ranges, col, h, n);
      } else if Truthy(h) {
        if !IsStr(h) {
          return ranges, true;
        }
        ranges := AddHeaderToRanges(ranges, col, h);
      }
      col := col + 1;
    }
  }

  /** One turn of the inner loop over the months, for the column `col` headed `h`. */
  method AddHeaderToRanges(m: Ranges, col: nat, h: Cell) returns (ranges: Ranges)
    ensures ranges == AddColumn(m, col, h, |m|, HeaderInMonth)
  {
    ranges := m;
    var i := 0;
    while i < |m|
      invariant 0 <= i <= |m|
      invariant ranges == AddColumn(m, col, h, i, HeaderInMonth)
    {
      if HeaderInMonth(h, i) {
        if ranges[i].Some? {
          ranges := ranges[i := Some(Span(ranges[i].value.first, col))];
        } else {
          ranges := ranges[i := Some(Span(col, col))];
        }
      }
      i := i + 1;
    }
  }

  /** A header that is not a string matches no month. */
  lemma {:induction false} NoMonthInNonText(m: Ranges, col: nat, h: Cell, k: nat)
    requires k <= |m| && !IsStr(h)
    ensures AddColumn(m, col, h, k, HeaderInMonth) == m
  {
    if k > 0 {
      NoMonthInNonText(m, col, h, k - 1);
    }
  }
}
