/**
 * The per-zone section passes: stage 1 splits the zone table into houses,
 * youth hostel and the rest with blank separator rows between them; stage 5
 * does the same for a previous year, appends a "Total {group} {year}" row to
 * each non-empty section, and then keeps only the rows labelled "Total…" or
 * "Category…".  Tables are the DataFrame rows (the column names are not a
 * row); row order is the DataFrame order.
 */
module ZoneSections {
  import opened Cells

  /** HOUSE_KEYWORDS of stage1.py */
  const HouseKeywords1: seq<string> := ["Beach Apt", ".LUX for 4", ".Safari Tent 5pax", ".Sea Safari 4pax",
    ".Skyline 3pax", ".Standard Mobile Home", ".ΤΡΟΧΟΣΠΙΤΑ DELUXE",
    ".ΤΡΟΧΟΣΠΙΤΑ SEA VIEW", ".ΤΡΟΧΟΣΠΙΤΑ standard"]

  /** HOUSE_KEYWORDS of per_zone_stage5.py: stage 1's and five more. */
  const HouseKeywords5: seq<string> := HouseKeywords1 + [".Beach Apt / for 5.2.6", ".LUX Mobile Homes",
    ".Mobile Home", ".Safari 5pax", ".Safari SST 4pax"]

  const HostelKeywords: seq<string> := ["Youth Hostel"]

  // ---------------------------------------------------------------------
  // Keyword tests

  /** Some keyword, lower-cased, occurs in the lower-cased text. */
  predicate Matches(s: string, ks: seq<string>)
  {
    exists i :: 0 <= i < |ks| && ContainsIgnoringCase(s, ks[i])
  }

  /**
   * contains_keyword of per_zone_stage5.py: False for NaN (an empty cell);
   * otherwise the test on the stripped text.
   */
  predicate ContainsKeyword(v: Cell, ks: seq<string>)
  {
    v.Text? && Matches(Strip(v.s), ks)
  }

  /** A keyword list that holds more keywords matches more labels. */
  lemma MatchesMore(s: string, ks: seq<string>, more: seq<string>)
    requires Matches(s, ks)
    ensures Matches(s, ks + more)
  {
    var i :| 0 <= i < |ks| && ContainsIgnoringCase(s, ks[i]);
    assert (ks + more)[i] == ks[i];
  }

  /** Every label stage 1 puts among the houses, stage 5 does too. */
  lemma HousesGrow(s: string)
    requires Matches(s, HouseKeywords1)
    ensures Matches(s, HouseKeywords5)
  {
    MatchesMore(s, HouseKeywords1, [".Beach Apt / for 5.2.6", ".LUX Mobile Homes", ".Mobile Home", ".Safari 5pax", ".Safari SST 4pax"]);
  }

  // ---------------------------------------------------------------------
  // Row filters

  /**
   * How a label is tested:
   *   Raw      `contains_keyword` of stage1.py on the label text (and the
   *            regex masks of split_sections_with_totals on labels that
   *            were stripped already);
   *   Keyword  `contains_keyword` of per_zone_stage5.py.
   */
  datatype Test = Raw | Keyword

  /** The rows each filter keeps. */
  datatype Keep =
    | Hits(ks: seq<string>, test: Test)
    | HitsNeither(ka: seq<string>, kb: seq<string>, test: Test)
    | HitsBoth(ka: seq<string>, kb: seq<string>, test: Test)
    | TotalsOnly

  predicate LabelHits(row: seq<Cell>, ks: seq<string>, test: Test)
  {
    match test
    case Raw => Matches(Render(Label(row)), ks)
    case Keyword => ContainsKeyword(Label(row), ks)
  }

  /** keep_only_totals' test on `str(df.iloc[index, 0])`. */
  predicate TotalsRow(row: seq<Cell>)
  {
    StartsWith(Render(Label(row)), "Total") || StartsWith(Render(Label(row)), "Category")
  }

  predicate Kept(row: seq<Cell>, k: Keep)
  {
    match k
    case Hits(ks, test) => LabelHits(row, ks, test)
    case HitsNeither(ka, kb, test) => !LabelHits(row, ka, test) && !LabelHits(row, kb, test)
    case HitsBoth(ka, kb, test) => LabelHits(row, ka, test) && LabelHits(row, kb, test)
    case TotalsOnly => TotalsRow(row)
  }

  /** `df[mask]`: the rows that pass, in their order. */
  function Filter(t: Table, k: Keep): (r: Table)
    ensures |r| <= |t|
  {
    if t == [] then [] else Filter(t[..|t| - 1], k) + (if Kept(t[|t| - 1], k) then [t[|t| - 1]] else [])
  }

  /** Every row the filter keeps passes the test and was a row of the table. */
  lemma {:induction false} FilterKeeps(t: Table, k: Keep)
    ensures forall i :: 0 <= i < |Filter(t, k)| ==> Kept(Filter(t, k)[i], k) && Filter(t, k)[i] in t
    decreases |t|
  {
    if t != [] {
      var t' := t[..|t| - 1];
      FilterKeeps(t', k);
      forall i | 0 <= i < |Filter(t, k)|
        ensures Kept(Filter(t, k)[i], k) && Filter(t, k)[i] in t
      {
        if i < |Filter(t', k)| {
          assert Filter(t, k)[i] == Filter(t', k)[i];
          assert Filter(t', k)[i] in t';
        } else {
          assert Filter(t, k)[i] == t[|t| - 1];
        }
      }
    }
  }

  /** Filtering a concatenation filters each part: the filter keeps the row order. */
  lemma {:induction false} FilterConcat(a: Table, b: Table, k: Keep)
    ensures Filter(a + b, k) == Filter(a, k) + Filter(b, k)
    decreases |b|
  {
    if b == [] {
      assert a + b == a;
    } else {
      var b' := b[..|b| - 1];
      assert (a + b)[..|a + b| - 1] == a + b';
      FilterConcat(a, b', k);
    }
  }

  /** Filtering twice keeps what filtering once keeps. */
  lemma {:induction false} FilterIdempotent(t: Table, k: Keep)
    ensures Filter(Filter(t, k), k) == Filter(t, k)
    decreases |t|
  {
    if t != [] {
      var t' := t[..|t| - 1];
      var last := if Kept(t[|t| - 1], k) then [t[|t| - 1]] else [];
      FilterIdempotent(t', k);
      FilterConcat(Filter(t', k), last, k);
    }
  }

  /** A table none of whose rows pass filters to nothing. */
  lemma {:induction false} FilterNone(t: Table, k: Keep)
    requires forall i :: 0 <= i < |t| ==> !Kept(t[i], k)
    ensures Filter(t, k) == []
    decreases |t|
  {
    if t != [] {
      FilterNone(t[..|t| - 1], k);
    }
  }

  /**
   * The three sections count every row once and the rows matching both
   * keyword lists twice.
   */
  lemma {:induction false} SectionSizes(t: Table, ka: seq<string>, kb: seq<string>, test: Test)
    ensures |Filter(t, Hits(ka, test))| + |Filter(t, Hits(kb, test))| + |Filter(t, HitsNeither(ka, kb, test))|
      == |t| + |Filter(t, HitsBoth(ka, kb, test))|
    decreases |t|
  {
    if t != [] {
      SectionSizes(t[..|t| - 1], ka, kb, test);
    }
  }

  // ---------------------------------------------------------------------
  // Loading, separators, sections

  /** load_data's `df.iloc[:, 0].astype(str)`: every label becomes its text. */
  function CastLabel(row: seq<Cell>): (r: seq<Cell>)
    ensures |r| == |row| && (|row| >= 1 ==> r[0] == Text(Render(row[0])) && r[1..] == row[1..])
  {
    if |row| == 0 then row else [Text(Render(row[0]))] + row[1..]
  }

  function CastLabels(t: Table): (r: Table)
    ensures |r| == |t| && forall i :: 0 <= i < |t| ==> r[i] == CastLabel(t[i])
  {
    seq(|t|, i requires 0 <= i < |t| => CastLabel(t[i]))
  }

  /** add_empty_separator: one row of "" across the table's columns. */
  function Separator(w: nat): (r: seq<Cell>)
    ensures |r| == w && forall j :: 0 <= j < w ==> r[j] == Text("")
  {
    seq(w, j => Text(""))
  }

  /**
   * split_sections: the rows hitting the house keywords, a separator, those
   * hitting the hostel keywords, a separator, and the rows hitting neither.
   * Every row of the table lands in one section, and a row hitting both
   * lists in the first two, so the split adds the two separators and
   * repeats each such row.
   */
  function SplitSections(t: Table, w: nat, houses: seq<string>, test: Test): (r: Table)
    ensures |r| == |t| + 2 + |Filter(t, HitsBoth(houses, HostelKeywords, test))|
    ensures forall i :: 0 <= i < |r| ==> r[i] == Separator(w) || r[i] in t
  {
    var h := Filter(t, Hits(houses, test));
    var y := Filter(t, Hits(HostelKeywords, test));
    var n := Filter(t, HitsNeither(houses, HostelKeywords, test));
    SectionSizes(t, houses, HostelKeywords, test);
    FilterKeeps(t, Hits(houses, test));
    FilterKeeps(t, Hits(HostelKeywords, test));
    FilterKeeps(t, HitsNeither(houses, HostelKeywords, test));
    h + [Separator(w)] + y + [Separator(w)] + n
  }

  /**
   * stage1.py: labels cast to text, then split with the stage-1 keywords;
   * every row that is not a separator is a row of the table with its label
   * cast, and there are two separators more than rows hitting both lists.
   */
  function Stage1(t: Table, w: nat): (r: Table)
    ensures |r| == |t| + 2 + |Filter(CastLabels(t), HitsBoth(HouseKeywords1, HostelKeywords, Raw))|
    ensures forall i :: 0 <= i < |r| ==> r[i] == Separator(w) || exists k :: 0 <= k < |t| && r[i] == CastLabel(t[k])
  {
    var c := CastLabels(t);
    var r := SplitSections(c, w, HouseKeywords1, Raw);
    assert forall i :: 0 <= i < |r| && r[i] in c ==> exists k :: 0 <= k < |t| && r[i] == CastLabel(t[k]) by {
      forall i | 0 <= i < |r| && r[i] in c ensures exists k :: 0 <= k < |t| && r[i] == CastLabel(t[k]) {
        var k :| 0 <= k < |c| && c[k] == r[i];
        assert r[i] == CastLabel(t[k]);
      }
    }
    r
  }

  /** per_zone_stage5.py split_sections (not called by its driver). */
  function SplitSections5(t: Table, w: nat): Table
  {
    SplitSections(t, w, HouseKeywords5, Keyword)
  }

  // ---------------------------------------------------------------------
  // calculate_totals and split_sections_with_totals

  /** Column j of a row; a short row reads as NaN. */
  function CellAt(row: seq<Cell>, j: nat): Cell
  {
    if j < |row| then row[j] else Empty
  }

  // ---------------------------------------------------------------------
  // pd.to_numeric(errors='coerce')

  predicate AllDigits(s: string) { forall i :: 0 <= i < |s| ==> IsDigit(s[i]) }

  /** The value of a run of ASCII digits, most significant first. */
  function DigitsValue(s: string): nat
    requires AllDigits(s)
  {
    if s == [] then 0 else DigitsValue(s[..|s| - 1]) * 10 + (s[|s| - 1] as int - '0' as int)
  }

  function Pow10(n: nat): (r: nat)
    ensures r >= 1
  {
    if n == 0 then 1 else 10 * Pow10(n - 1)
  }

  /** The position of the first '.', if any. */
  function PointAt(s: string): (r: Option<nat>)
    ensures r.Some? ==> r.value < |s| && s[r.value] == '.' && '.' !in s[..r.value]
    ensures r.None? <==> '.' !in s
  {
    if s == [] then None
    else if s[0] == '.' then Some(0)
    else match PointAt(s[1..])
      case None => None
      case Some(p) =>
        assert s[..p + 1] == [s[0]] + s[1..][..p];
        Some(p + 1)
  }

  /** An unsigned decimal numeral: digits, optionally a point and more digits, with at least one digit. */
  function Unsigned(s: string): Option<real>
  {
    match PointAt(s)
    case None => if s != [] && AllDigits(s) then Some(DigitsValue(s) as real) else None
    case Some(p) =>
      var whole := s[..p];
      var frac := s[p + 1..];
      if AllDigits(whole) && AllDigits(frac) && |whole| + |frac| > 0
      then Some(DigitsValue(whole) as real + DigitsValue(frac) as real / Pow10(|frac|) as real)
      else None
  }

  /**
   * `pd.to_numeric` of a text: white space around it, an optional sign and
   * a decimal numeral.  None stands for NaN.
   */
  function TextNumber(s: string): Option<real>
  {
    var t := Strip(s);
    if t != [] && (t[0] == '-' || t[0] == '+') then
      match Unsigned(t[1..])
      case None => None
      case Some(v) => Some(if t[0] == '-' then -v else v)
    else Unsigned(t)
  }

  /**
   * `pd.to_numeric(errors='coerce')` of an entry: a number stays, text is
   * read as a numeral, anything else becomes NaN (None).
   */
  function Coerced(c: Cell): (r: Option<real>)
    ensures c.Num? ==> r == Some(c.r)
    ensures c.Empty? || c.Fx? ==> r.None?
  {
    match c
    case Num(x) => Some(x)
    case Text(s) => TextNumber(s)
    case _ => None
  }

  /** The digits of a natural number read back give the number. */
  lemma {:induction false} NatTextValue(n: nat)
    ensures AllDigits(NatText(n)) && DigitsValue(NatText(n)) == n
  {
    if n >= 10 {
      NatTextValue(n / 10);
      var s := NatText(n);
      assert s[..|s| - 1] == NatText(n / 10);
    }
  }

  /** A run of digits holds no point and reads as its digits' value. */
  lemma UnsignedDigits(d: string)
    requires d != [] && AllDigits(d)
    ensures Unsigned(d) == Some(DigitsValue(d) as real)
  {
  }

  /** A minus sign before a run of digits reads as the negated value. */
  lemma NegatedDigits(d: string)
    requires d != [] && AllDigits(d)
    ensures TextNumber("-" + d) == Some(-(DigitsValue(d) as real))
  {
    var s := "-" + d;
    assert s[1..] == d;
    assert s[|s| - 1] == d[|d| - 1];
    StripKeeps(s);
    UnsignedDigits(d);
  }

  /** `pd.to_numeric` reads the text `str(n)` of a natural number back as n. */
  lemma NatTextNumber(n: nat)
    ensures TextNumber(NatText(n)) == Some(n as real)
  {
    var s := NatText(n);
    NatTextValue(n);
    StripKeeps(s);
    UnsignedDigits(s);
  }

  /** `pd.to_numeric` reads "-" and the text of a positive number back as its negation. */
  lemma NegativeText(n: nat)
    ensures TextNumber("-" + NatText(n)) == Some(-(n as real))
  {
    NatTextValue(n);
    NegatedDigits(NatText(n));
  }

  /** `pd.to_numeric` reads the text `str(i)` of any integer back as i. */
  lemma IntTextNumber(i: int)
    ensures TextNumber(IntText(i)) == Some(i as real)
  {
    if i < 0 {
      NegativeText(-i);
    } else {
      NatTextNumber(i);
    }
  }

  /** `pd.to_numeric(errors='coerce')` then `sum()`, which skips NaN. */
  function ColumnSum(t: Table, j: nat): real
  {
    if t == [] then 0.0
    else ColumnSum(t[..|t| - 1], j) + match Coerced(CellAt(t[|t| - 1], j)) case Some(v) => v case None => 0.0
  }

  /** The sums of columns lo .. hi-1. */
  function ColumnSums(t: Table, lo: nat, hi: nat): (r: seq<Cell>)
    ensures |r| == if hi <= lo then 0 else hi - lo
    ensures forall j :: lo <= j < hi ==> r[j - lo] == Num(ColumnSum(t, j))
    decreases hi - lo
  {
    if hi <= lo then [] else [Num(ColumnSum(t, lo))] + ColumnSums(t, lo + 1, hi)
  }

  /** The label of a section's totals row. */
  function TotalLabel(group: string, year: int): string
  {
    "Total " + group + " " + IntText(year)
  }

  /** The row calculate_totals appends: label, an empty capacity, the column sums. */
  function SectionTotal(t: Table, w: nat, group: string, year: int): (r: seq<Cell>)
    requires w >= 2
    ensures |r| == w && r[0] == Text(TotalLabel(group, year)) && r[1] == Text("")
    ensures forall j :: 2 <= j < w ==> r[j] == Num(ColumnSum(t, j))
  {
    [Text(TotalLabel(group, year)), Text("")] + ColumnSums(t, 2, w)
  }

  /** calculate_totals: an empty section as it is, otherwise with its totals row. */
  function CalculateTotals(t: Table, w: nat, group: string, year: int): (r: Table)
    requires w >= 2
    ensures t == [] ==> r == []
    ensures t != [] ==> r == t + [SectionTotal(t, w, group, year)]
  {
    if t == [] then t else t + [SectionTotal(t, w, group, year)]
  }

  /** `df[category_col].astype(str).str.strip()` */
  function StripLabel(row: seq<Cell>): (r: seq<Cell>)
    ensures |r| == |row| && (|row| >= 1 ==> r[0] == Text(Strip(Render(row[0]))) && r[1..] == row[1..])
  {
    if |row| == 0 then row else [Text(Strip(Render(row[0])))] + row[1..]
  }

  function StripLabels(t: Table): (r: Table)
    ensures |r| == |t| && forall i :: 0 <= i < |t| ==> r[i] == StripLabel(t[i])
  {
    seq(|t|, i requires 0 <= i < |t| => StripLabel(t[i]))
  }

  /** The three sections of split_sections_with_totals, labels stripped. */
  function Houses(t: Table): Table { Filter(StripLabels(t), Hits(HouseKeywords5, Raw)) }

  function Hostel(t: Table): Table { Filter(StripLabels(t), Hits(HostelKeywords, Raw)) }

  function Rest(t: Table): Table { Filter(StripLabels(t), HitsNeither(HouseKeywords5, HostelKeywords, Raw)) }

  /**
   * split_sections_with_totals; it reads `df.columns[1]`, so a table of
   * fewer than two columns raises (`None`).
   */
  function SplitWithTotals(t: Table, w: nat, year: int): (r: Option<Table>)
    ensures r.Some? <==> w >= 2
  {
    if w < 2 then None
    else
      Some(CalculateTotals(Houses(t), w, "Accommodation", year) + [Separator(w)]
        + CalculateTotals(Hostel(t), w, "Youth Hostel", year) + [Separator(w)]
        + CalculateTotals(Rest(t), w, "Camping", year))
  }

  /** keep_only_totals as a filter. */
  function OnlyTotals(t: Table): Table
  {
    Filter(t, TotalsOnly)
  }

  /**
   * keep_only_totals: walk the rows, dropping each one that is not a totals
   * row and resetting the index, so the next row moves into its place.
   */
  method KeepOnlyTotals(t: Table) returns (df: Table)
    ensures df == OnlyTotals(t)
  {
    FilterByTotals(t);
    df := t;
    var index: nat := 0;
    assert df[..index] == [] && df[index..] == t;
    while index < |df|
      invariant Walked(t, df, index, TotalsRow)
      decreases |df| - index
    {
      if TotalsRow(df[index]) {
        KeepStep(t, df, index, TotalsRow);
        index := index + 1;
      } else {
        DropStep(t, df, index, TotalsRow);
        df := df[..index] + df[index + 1..];
      }
    }
    assert df[..index] == df && df[index..] == [];
  }

  /**
   * The same filter over a test given as a function value; the walk below
   * reasons about this form, which keeps the test itself out of sight.
   */
  function FilterBy(t: Table, p: seq<Cell> -> bool): (r: Table)
    ensures |r| <= |t|
  {
    if t == [] then [] else FilterBy(t[..|t| - 1], p) + (if p(t[|t| - 1]) then [t[|t| - 1]] else [])
  }

  /** FilterBy with the totals test is the totals filter. */
  lemma {:induction false} FilterByTotals(t: Table)
    ensures FilterBy(t, TotalsRow) == OnlyTotals(t)
    decreases |t|
  {
    if t != [] {
      FilterByTotals(t[..|t| - 1]);
    }
  }

  /** Filtering a concatenation by a test filters each part. */
  lemma {:induction false} FilterByConcat(a: Table, b: Table, p: seq<Cell> -> bool)
    ensures FilterBy(a + b, p) == FilterBy(a, p) + FilterBy(b, p)
    decreases |b|
  {
    if b == [] {
      assert a + b == a;
    } else {
      var b' := b[..|b| - 1];
      assert (a + b)[..|a + b| - 1] == a + b';
      FilterByConcat(a, b', p);
    }
  }

  /** The walk's invariant: the rows before `index` are what the filter keeps of those it has passed. */
  ghost predicate Walked(t: Table, df: Table, index: nat, p: seq<Cell> -> bool)
  {
    index <= |df| && FilterBy(t, p) == df[..index] + FilterBy(df[index..], p)
  }

  /** Stepping past a row that passes keeps the invariant. */
  lemma KeepStep(t: Table, df: Table, index: nat, p: seq<Cell> -> bool)
    requires Walked(t, df, index, p) && index < |df| && p(df[index])
    ensures Walked(t, df, index + 1, p)
  {
    FilterFront(df, index, p);
  }

  /** Deleting a row that does not pass keeps the invariant. */
  lemma DropStep(t: Table, df: Table, index: nat, p: seq<Cell> -> bool)
    requires Walked(t, df, index, p) && index < |df| && !p(df[index])
    ensures Walked(t, df[..index] + df[index + 1..], index, p)
  {
    FilterFront(df, index, p);
  }

  /**
   * Splitting off the row at `i`: what the filter keeps of df[i..] is that
   * row if it passes, then what it keeps of the rows after it.
   */
  lemma FilterFront(df: Table, i: nat, p: seq<Cell> -> bool)
    requires i < |df|
    ensures FilterBy(df[i..], p) == (if p(df[i]) then [df[i]] else []) + FilterBy(df[i + 1..], p)
    ensures df[..i] + [df[i]] == df[..i + 1]
    ensures (df[..i] + df[i + 1..])[..i] == df[..i] && (df[..i] + df[i + 1..])[i..] == df[i + 1..]
  {
    assert df[i..] == [df[i]] + df[i + 1..];
    FilterByConcat([df[i]], df[i + 1..], p);
    assert [df[i]][..0] == [];
  }

  /**
   * per_zone_stage5 between loading and saving: split with totals, then keep
   * only the totals.  The stage keeps every input row labelled "Total…" or
   * "Category…" in its section, followed by that section's totals row.
   */
  lemma Stage5Rows(t: Table, w: nat, year: int)
    requires w >= 2
    ensures var r := SplitWithTotals(t, w, year).value;
      OnlyTotals(r)
      == Kept3(Houses(t), Hostel(t), Rest(t), w, year)
  {
    SectionsKept(Houses(t), Hostel(t), Rest(t), w, year);
  }

  /** What keep_only_totals keeps of the three sections and their totals rows. */
  function Kept3(h: Table, y: Table, c: Table, w: nat, year: int): Table
    requires w >= 2
  {
    KeptWithTotal(h, w, "Accommodation", year) + KeptWithTotal(y, w, "Youth Hostel", year)
    + KeptWithTotal(c, w, "Camping", year)
  }

  /** A section's totals rows followed by its own totals row, if it has rows. */
  function KeptWithTotal(s: Table, w: nat, group: string, year: int): Table
    requires w >= 2
  {
    OnlyTotals(s) + (if s == [] then [] else [SectionTotal(s, w, group, year)])
  }

  lemma SectionsKept(h: Table, y: Table, c: Table, w: nat, year: int)
    requires w >= 2
    ensures OnlyTotals(CalculateTotals(h, w, "Accommodation", year) + [Separator(w)]
        + CalculateTotals(y, w, "Youth Hostel", year) + [Separator(w)]
        + CalculateTotals(c, w, "Camping", year))
      == Kept3(h, y, c, w, year)
  {
    SectionKept(h, w, "Accommodation", year);
    SectionKept(y, w, "Youth Hostel", year);
    SectionKept(c, w, "Camping", year);
    KeptAcross(CalculateTotals(h, w, "Accommodation", year), CalculateTotals(y, w, "Youth Hostel", year),
      CalculateTotals(c, w, "Camping", year), w);
  }

  /** keep_only_totals across three sections and two separators. */
  lemma KeptAcross(a: Table, b: Table, c: Table, w: nat)
    ensures OnlyTotals(a + [Separator(w)] + b + [Separator(w)] + c) == OnlyTotals(a) + OnlyTotals(b) + OnlyTotals(c)
  {
    var sep := [Separator(w)];
    SeparatorDropped(w);
    var x1 := a + sep;
    FilterConcat(a, sep, TotalsOnly);
    assert Filter(x1, TotalsOnly) == Filter(a, TotalsOnly);
    var x2 := x1 + b;
    FilterConcat(x1, b, TotalsOnly);
    var x3 := x2 + sep;
    FilterConcat(x2, sep, TotalsOnly);
    assert Filter(x3, TotalsOnly) == Filter(x2, TotalsOnly);
    FilterConcat(x3, c, TotalsOnly);
  }

  /** A separator row is never a totals row. */
  lemma SeparatorDropped(w: nat)
    ensures Filter([Separator(w)], TotalsOnly) == []
  {
    var row := Separator(w);
    assert Render(Label(row)) == if w == 0 then "nan" else "";
    assert !TotalsRow(row);
    assert [row][..0] == [];
  }

  /** keep_only_totals keeps a section's totals row after the section's own totals rows. */
  lemma SectionKept(s: Table, w: nat, group: string, year: int)
    requires w >= 2
    ensures OnlyTotals(CalculateTotals(s, w, group, year)) == KeptWithTotal(s, w, group, year)
  {
    if s != [] {
      var row := SectionTotal(s, w, group, year);
      assert TotalsRow(row) by {
        assert Render(Label(row)) == "Total " + group + " " + IntText(year);
      }
      FilterConcat(s, [row], TotalsOnly);
    }
  }

  /** Filtering down to totals a second time changes nothing. */
  lemma OnlyTotalsIdempotent(t: Table)
    ensures OnlyTotals(OnlyTotals(t)) == OnlyTotals(t)
  {
    FilterIdempotent(t, TotalsOnly);
  }

  // ---------------------------------------------------------------------
  // detect_date_columns

  /**
   * A header detect_date_columns picks: `is_date` (pandas' date parsing,
   * a parameter here) and, in per_zone_stage5.py, `str(year) in str(col)`.
   */
  predicate DateHeader(h: string, isDate: string -> bool, year: Option<int>)
  {
    isDate(h) && (year.None? || Contains(h, IntText(year.value)))
  }

  /** Positions of the date headers, left to right. */
  function DateColumns(cols: seq<string>, isDate: string -> bool, year: Option<int>): (ps: seq<nat>)
    ensures forall i :: 0 <= i < |ps| ==> ps[i] < |cols| && DateHeader(cols[ps[i]], isDate, year)
    ensures forall i, j :: 0 <= i < j < |ps| ==> ps[i] < ps[j]
    ensures forall p :: 0 <= p < |cols| && DateHeader(cols[p], isDate, year) ==> p in ps
  {
    if cols == [] then []
    else
      var n := |cols| - 1;
      DateColumns(cols[..n], isDate, year) + (if DateHeader(cols[n], isDate, year) then [n] else [])
  }

  /**
   * detect_date_columns: the first and last date header (as positions), or
   * `None` when there is none.
   */
  function DetectDateColumns(cols: seq<string>, isDate: string -> bool, year: Option<int>): (r: Option<(nat, nat)>)
    ensures r.None? <==> forall p :: 0 <= p < |cols| ==> !DateHeader(cols[p], isDate, year)
    ensures r.Some? ==> (
      && r.value.0 <= r.value.1 < |cols|
      && DateHeader(cols[r.value.0], isDate, year) && DateHeader(cols[r.value.1], isDate, year)
      && forall p :: 0 <= p < |cols| && DateHeader(cols[p], isDate, year) ==> r.value.0 <= p <= r.value.1)
  {
    var ps := DateColumns(cols, isDate, year);
    if ps == [] then None
    else
      assert forall p :: 0 <= p < |cols| && DateHeader(cols[p], isDate, year) ==> ps[0] <= p <= ps[|ps| - 1] by {
        forall p | 0 <= p < |cols| && DateHeader(cols[p], isDate, year)
          ensures ps[0] <= p <= ps[|ps| - 1]
        {
          var i :| 0 <= i < |ps| && ps[i] == p;
        }
      }
      Some((ps[0], ps[|ps| - 1]))
  }
}
