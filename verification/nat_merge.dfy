/**
 * Stage 3 of the per-nationality pipeline (per_nat_stage3.py): the tables
 * of earlier years are appended to the right of the current year's table.
 * Each earlier table goes after a black separator column, its header in
 * row 1 and each of its rows on the current row with the same label in
 * column 1.  A label the current table lacks gets a new row, placed in
 * sorted order above the "Total Rooms" row, or above "Total Camping" for
 * camping labels.
 *
 * Labels are the text values of column 1; only values are copied (fonts,
 * fills, borders and widths are not part of this model).
 */
module NatMerge {
  import opened Cells
  import opened Sheets

  // ---------------------------------------------------------------------
  // Python's order on strings

  /** `a < b` on Python strings: code point by code point, a proper prefix first. */
  predicate Less(a: string, b: string)
  {
    if b == [] then false
    else if a == [] then true
    else if a[0] != b[0] then a[0] < b[0]
    else Less(a[1..], b[1..])
  }

  lemma {:induction false} LessIrreflexive(a: string)
    ensures !Less(a, a)
  {
    if a != [] {
      LessIrreflexive(a[1..]);
    }
  }

  lemma {:induction false} LessTransitive(a: string, b: string, c: string)
    requires Less(a, b) && Less(b, c)
    ensures Less(a, c)
  {
    if a != [] && a[0] == b[0] && b[0] == c[0] {
      LessTransitive(a[1..], b[1..], c[1..]);
    }
  }

  /** Any two different strings are ordered one way. */
  lemma {:induction false} LessTotal(a: string, b: string)
    requires a != b
    ensures Less(a, b) || Less(b, a)
  {
    if a != [] && b != [] && a[0] == b[0] {
      assert a == [a[0]] + a[1..] && b == [b[0]] + b[1..];
      LessTotal(a[1..], b[1..]);
    }
  }

  /** ... and only one way. */
  lemma {:induction false} LessAsymmetric(a: string, b: string)
    requires Less(a, b)
    ensures !Less(b, a)
  {
    if a != [] && a[0] == b[0] {
      LessAsymmetric(a[1..], b[1..]);
    }
  }

  /** `e` is the least element of `s`. */
  predicate IsLeast(e: string, s: set<string>)
  {
    e in s && forall x :: x in s ==> x == e || Less(e, x)
  }

  /** Every finite non-empty set of strings has a least element. */
  lemma {:induction false} LeastExists(s: set<string>)
    requires s != {}
    ensures exists e :: IsLeast(e, s)
    decreases |s|
  {
    var y :| y in s;
    if s == {y} {
      assert IsLeast(y, s);
    } else {
      LeastExists(s - {y});
      var e :| IsLeast(e, s - {y});
      if Less(y, e) {
        forall x | x in s ensures x == y || Less(y, x) {
          if x != y && x != e {
            LessTransitive(y, e, x);
          }
        }
        assert IsLeast(y, s);
      } else {
        LessTotal(y, e);
        assert IsLeast(e, s);
      }
    }
  }

  /** The least element is unique. */
  lemma LeastUnique(e1: string, e2: string, s: set<string>)
    requires IsLeast(e1, s) && IsLeast(e2, s)
    ensures e1 == e2
  {
    if e1 != e2 {
      LessAsymmetric(e1, e2);
    }
  }

  /** `min` over a set of strings. */
  ghost function Least(s: set<string>): (e: string)
    requires s != {}
    ensures IsLeast(e, s)
  {
    LeastExists(s);
    var e :| IsLeast(e, s); e
  }

  // ---------------------------------------------------------------------
  // The label index (the `countries_stage5` dict)

  /** The label a row carries in column 1: truthy text. */
  function LabelAt(g: Grid, r: int): Option<string>
  {
    var c := Val(g, r, 1);
    if c.Text? && c.s != "" then Some(c.s) else None
  }

  /** The dict built from rows 2 .. n, a later row overwriting an earlier one. */
  function IndexUpTo(g: Grid, n: int): map<string, nat>
    decreases n
  {
    if n < 2 then map[]
    else
      var m := IndexUpTo(g, n - 1);
      match LabelAt(g, n)
      case None => m
      case Some(l) => m[l := n]
  }

  /** Every key of the dict maps to a row in 2 .. n holding that label. */
  lemma {:induction false} IndexRowsHold(g: Grid, n: int)
    ensures forall l :: l in IndexUpTo(g, n) ==> 2 <= IndexUpTo(g, n)[l] <= n && LabelAt(g, IndexUpTo(g, n)[l]) == Some(l)
    decreases n
  {
    if n >= 2 {
      IndexRowsHold(g, n - 1);
      var m := IndexUpTo(g, n - 1);
      match LabelAt(g, n)
      case None =>
        assert IndexUpTo(g, n) == m;
      case Some(l) =>
        assert IndexUpTo(g, n) == m[l := n];
        forall k | k in m[l := n] ensures 2 <= m[l := n][k] <= n && LabelAt(g, m[l := n][k]) == Some(k) {
          if k != l {
            assert m[l := n][k] == m[k];
          }
        }
    }
  }

  /** No row after a key's row holds that label again: a repeated label keeps its last row. */
  lemma {:induction false} IndexKeepsLast(g: Grid, n: int)
    ensures var m := IndexUpTo(g, n);
      forall l, r :: l in m && m[l] < r <= n ==> LabelAt(g, r) != Some(l)
    decreases n
  {
    if n >= 2 {
      IndexKeepsLast(g, n - 1);
      IndexRowsHold(g, n - 1);
    }
  }

  /** Every label in rows 2 .. n is a key. */
  lemma {:induction false} IndexComplete(g: Grid, n: int)
    ensures var m := IndexUpTo(g, n);
      forall r :: 2 <= r <= n && LabelAt(g, r).Some? ==> LabelAt(g, r).value in m
    decreases n
  {
    if n >= 2 {
      IndexComplete(g, n - 1);
    }
  }

  /** The three facts together. */
  lemma IndexMeaning(g: Grid, n: int)
    ensures var m := IndexUpTo(g, n);
      && (forall l :: l in m ==> 2 <= m[l] <= n && LabelAt(g, m[l]) == Some(l))
      && (forall l, r :: l in m && m[l] < r <= n ==> LabelAt(g, r) != Some(l))
      && (forall r :: 2 <= r <= n && LabelAt(g, r).Some? ==> LabelAt(g, r).value in m)
  {
    IndexRowsHold(g, n);
    IndexKeepsLast(g, n);
    IndexComplete(g, n);
  }

  /**
   * The dict over rows 2 .. max_row: each key maps to the last row from 2
   * on that carries it, and every label of those rows is a key.
   */
  function Index(g: Grid): (m: map<string, nat>)
    ensures forall l :: l in m ==> 2 <= m[l] <= MaxRow(g) && LabelAt(g, m[l]) == Some(l)
    ensures forall l, r :: l in m && m[l] < r <= MaxRow(g) ==> LabelAt(g, r) != Some(l)
    ensures forall r :: 2 <= r <= MaxRow(g) && LabelAt(g, r).Some? ==> LabelAt(g, r).value in m
  {
    IndexMeaning(g, MaxRow(g));
    IndexUpTo(g, MaxRow(g))
  }

  /** Two sheets with the same labels in rows 2 .. n have the same dict. */
  lemma {:induction false} IndexSame(g: Grid, h: Grid, n: int)
    requires forall r :: 2 <= r <= n ==> LabelAt(g, r) == LabelAt(h, r)
    ensures IndexUpTo(g, n) == IndexUpTo(h, n)
    decreases n
  {
    if n >= 2 {
      IndexSame(g, h, n - 1);
    }
  }

  /** The rebuild loop of insert_country_row and append_stage6_to_stage5. */
  method RebuildIndex(ws: Worksheet) returns (m: map<string, nat>)
    ensures m == Index(ws.grid)
  {
    m := map[];
    var r := 2;
    while r <= MaxRow(ws.grid)
      invariant 2 <= r && (r <= MaxRow(ws.grid) + 1 || r == 2)
      invariant m == IndexUpTo(ws.grid, r - 1)
    {
      var c := Val(ws.grid, r, 1);
      if c.Text? && c.s != "" {
        m := m[c.s := r];
      }
      r := r + 1;
    }
  }

  // ---------------------------------------------------------------------
  // load_stage5_data and insert_separator_column

  /** The same value at every column. */
  function Constant(v: Cell): nat -> Cell
  {
    j => v
  }

  /** `value is None`. */
  function IsNone(): Cell -> bool
  {
    c => c == Empty
  }

  /**
   * load_stage5_data: the dict is built first, then the first row whose
   * label is None has every column set to "sep_row".
   */
  function Loaded(g: Grid): (r: (Grid, map<string, nat>))
    ensures r.1 == Index(g)
    ensures FirstRow(g, IsNone(), 2, MaxRow(g) + 1).None? ==> r.0 == g
  {
    match FirstRow(g, IsNone(), 2, MaxRow(g) + 1)
    case None => (g, Index(g))
    case Some(e) => (FillRow(g, e, 1, MaxCol(g) + 1, Constant(Text("sep_row"))), Index(g))
  }

  /** The separator row gets "sep_row" across the sheet and nothing else changes. */
  lemma LoadedSeparator(g: Grid)
    requires FirstRow(g, IsNone(), 2, MaxRow(g) + 1).Some?
    ensures var e := FirstRow(g, IsNone(), 2, MaxRow(g) + 1).value;
      && 2 <= e <= MaxRow(g) && Val(g, e, 1) == Empty
      && (forall r :: 2 <= r < e ==> Val(g, r, 1) != Empty)
      && forall i, j :: Val(Loaded(g).0, i, j) == if i == e && 1 <= j <= MaxCol(g) then Text("sep_row") else Val(g, i, j)
  {
  }

  /** The sheet side of load_stage5_data: the "sep_row" write loop. */
  method LoadStage5(ws: Worksheet) returns (index: map<string, nat>)
    modifies ws
    ensures (ws.grid, index) == Loaded(old(ws.grid))
    ensures RowsIn(index, MaxRow(ws.grid))
  {
    index := RebuildIndex(ws);
    IndexRows(ws.grid);
    var e := FirstRow(ws.grid, IsNone(), 2, MaxRow(ws.grid) + 1);
    if e.Some? {
      ghost var g := ws.grid;
      var n := MaxCol(ws.grid);
      for j := 1 to n + 1
        invariant ws.grid == FillRow(g, e.value, 1, j, Constant(Text("sep_row")))
      {
        ws.SetCell(e.value, j, Text("sep_row"));
      }
      FillRowRows(g, e.value, 1, n + 1, Constant(Text("sep_row")));
    }
  }

  /** insert_separator_column: column max_col+1 is black in every row; the next column is returned. */
  method InsertSeparatorColumn(ws: Worksheet, maxCol: nat) returns (c: nat)
    modifies ws
    ensures c == maxCol + 1
    ensures ws.grid == PaintColumn(old(ws.grid), c, 1, MaxRow(old(ws.grid)) + 1)
  {
    c := maxCol + 1;
    ghost var g := ws.grid;
    var n := MaxRow(ws.grid);
    for r := 1 to n + 1
      invariant ws.grid == PaintColumn(g, c, 1, r)
    {
      ws.PaintCell(r, c);
    }
  }

  // ---------------------------------------------------------------------
  // insert_country_row

  /** The row a new label must stay above: its group's Total row, or just past the sheet. */
  function Bound(index: map<string, nat>, country: string, maxRow: nat): nat
  {
    var key := if Contains(country, "Camping") then "Total Camping" else "Total Rooms";
    if key in index then index[key] else maxRow + 1
  }

  /** A key the insertion walks through: a label without "Total". */
  predicate IsCandidate(index: map<string, nat>, c: string)
  {
    c in index && c != "" && !Contains(c, "Total")
  }

  /** A key at which the walk stops: at or past the bound, or sorting after the new label. */
  predicate Halts(index: map<string, nat>, country: string, bound: nat, c: string)
  {
    IsCandidate(index, c) && (index[c] >= bound || Less(country, c))
  }

  ghost function Candidates(index: map<string, nat>): set<string>
  {
    set c | c in index && IsCandidate(index, c)
  }

  ghost function Stops(index: map<string, nat>, country: string, bound: nat): set<string>
  {
    set c | c in index && Halts(index, country, bound, c)
  }

  /**
   * The label at which the walk over the sorted candidates stops: every
   * candidate before it lies above the bound and does not sort after the
   * new label.  None when the walk runs to the end.
   */
  ghost function Stopper(index: map<string, nat>, country: string, bound: nat): (r: Option<string>)
    ensures r.None? <==> forall c :: c in Candidates(index) ==> index[c] < bound && !Less(country, c)
    ensures r.Some? ==> r.value in Candidates(index) && (index[r.value] >= bound || Less(country, r.value))
    ensures r.Some? ==> forall c :: c in Candidates(index) && Less(c, r.value) ==> index[c] < bound && !Less(country, c)
  {
    var s := Stops(index, country, bound);
    if s == {} then
      assert forall c :: c in Candidates(index) ==> index[c] < bound && !Less(country, c) by {
        forall c | c in Candidates(index) ensures index[c] < bound && !Less(country, c) {
          assert c !in s;
        }
      }
      None
    else
      var e := Least(s);
      assert forall c :: c in s && Less(c, e) ==> false by {
        forall c | c in s && Less(c, e) ensures false {
          LessAsymmetric(c, e);
          LessIrreflexive(c);
        }
      }
      Some(e)
  }

  /** The row insert_country_row inserts at. */
  ghost function TargetRow(index: map<string, nat>, country: string, bound: nat): (t: nat)
    ensures t <= bound
  {
    match Stopper(index, country, bound)
    case None => bound
    case Some(e) => if index[e] >= bound then bound else index[e]
  }

  /** The walk stops at a row above the bound only at a label sorting after the new one. */
  lemma TargetAboveBound(index: map<string, nat>, country: string, bound: nat)
    requires TargetRow(index, country, bound) < bound
    ensures var t := TargetRow(index, country, bound);
      exists e :: e in Candidates(index) && index[e] == t && Less(country, e)
  {
    var e := Stopper(index, country, bound).value;
    assert e in Candidates(index) && index[e] == TargetRow(index, country, bound);
  }

  /** The walk, as a scan for the least label at which it stops. */
  method FindStopper(index: map<string, nat>, country: string, bound: nat) returns (best: Option<string>)
    ensures best == Stopper(index, country, bound)
  {
    ghost var s := Stops(index, country, bound);
    var rest := index.Keys;
    best := None;
    while rest != {}
      invariant rest <= index.Keys
      invariant best.None? ==> forall x :: x in s ==> x in rest
      invariant best.Some? ==> best.value in s && best.value !in rest
      invariant best.Some? ==> forall x :: x in s && x !in rest ==> x == best.value || Less(best.value, x)
      decreases |rest|
    {
      var c :| c in rest;
      if c != "" && !Contains(c, "Total") && (index[c] >= bound || Less(country, c)) {
        assert c in s;
        if best.None? || Less(c, best.value) {
          if best.Some? {
            forall x | x in s && x !in rest ensures x == c || Less(c, x) {
              if x != best.value {
                LessTransitive(c, best.value, x);
              }
            }
          }
          best := Some(c);
        } else {
          LessTotal(c, best.value);
        }
      } else {
        assert c !in s;
      }
      rest := rest - {c};
    }
    if best.Some? {
      assert IsLeast(best.value, s);
      LeastUnique(best.value, Least(s), s);
    }
  }

  /** The sheet after `insert_rows(t)` and the new label written in column 1. */
  function WithLabel(g: Grid, t: nat, country: string): (h: Grid)
    requires 1 <= t
    ensures t <= g.rows + 1 ==> h.rows == g.rows + 1
    ensures h.cols == Max(g.cols, 1)
  {
    SetVal(InsertRows(g, t, 1), t, 1, Text(country))
  }

  /** Exactly one row, holding only the new label, is opened at `t`; the rows from `t` on move down. */
  lemma LabelInserted(g: Grid, t: nat, country: string, i: int, j: int)
    requires 1 <= t
    ensures Val(WithLabel(g, t, country), i, j)
      == if i < t then Val(g, i, j) else if i == t then (if j == 1 then Text(country) else Empty) else Val(g, i - 1, j)
  {
    assert At(InsertRows(g, t, 1), i, j) == RowsOpenedAt(g, t, 1, i, j);
  }

  /** Rows of a well-formed dict: every value is a row of the sheet below the header. */
  predicate RowsIn(index: map<string, nat>, maxRow: nat)
  {
    forall l :: l in index ==> 2 <= index[l] <= maxRow
  }

  /** The dict of a sheet is well formed. */
  lemma IndexRows(g: Grid)
    ensures RowsIn(Index(g), MaxRow(g))
  {
    IndexMeaning(g, MaxRow(g));
  }

  /** insert_country_row. */
  method InsertCountryRow(ws: Worksheet, country: string, index: map<string, nat>)
    returns (t: nat, rebuilt: map<string, nat>)
    requires RowsIn(index, MaxRow(ws.grid))
    modifies ws
    ensures t == TargetRow(index, country, Bound(index, country, MaxRow(old(ws.grid))))
    ensures 1 <= t <= MaxRow(old(ws.grid)) + 1
    ensures ws.grid == WithLabel(old(ws.grid), t, country)
    ensures rebuilt == Index(ws.grid)
  {
    var bound := Bound(index, country, MaxRow(ws.grid));
    var stop := FindStopper(index, country, bound);
    t := if stop.None? || index[stop.value] >= bound then bound else index[stop.value];
    ws.InsertRowsAt(t, 1);
    ws.SetCell(t, 1, Text(country));
    rebuilt := RebuildIndex(ws);
  }

  // ---------------------------------------------------------------------
  // append_stage6_to_stage5

  /** The current table with the dict the merge keeps beside it. */
  datatype Merge = Merge(grid: Grid, index: map<string, nat>)

  /** The value written at column j when row `row` of an earlier table goes in from column `start`. */
  function Copied(g6: Grid, row: int, start: int): nat -> Cell
  {
    j => Val(g6, row, j - start + 1)
  }

  /** The values of row `row` of the earlier table, written into row `t` from column `start`. */
  function CopyValues(g: Grid, t: nat, start: nat, g6: Grid, row: int): Grid
    requires 1 <= t && 1 <= start
  {
    FillRow(g, t, start, start + MaxCol(g6), Copied(g6, row, start))
  }

  /** The row a labelled row of the earlier table lands on: its label's row, or a new one. */
  ghost function Landing(m: Merge, country: string): (r: (nat, Merge))
  {
    if country in m.index then (m.index[country], m)
    else
      var t := TargetRow(m.index, country, Bound(m.index, country, MaxRow(m.grid)));
      if t == 0 then (0, m)
      else
        var g := WithLabel(m.grid, t, country);
        (t, Merge(g, Index(g)))
  }

  /**
   * One row of the earlier table: skipped when its label is None, copied
   * onto its label's row otherwise, and None when the label is not text
   * (Python cannot test `"Camping" in` a number).
   */
  ghost function PlaceRow(m: Merge, g6: Grid, row: int, start: nat): (r: Option<Merge>)
    requires 1 <= start
    ensures Val(g6, row, 1) == Empty ==> r == Some(m)
    ensures RowsIn(m.index, MaxRow(m.grid)) ==> (r.None? <==> Unplaceable(Val(g6, row, 1)))
    ensures RowsIn(m.index, MaxRow(m.grid)) && r.Some? ==> RowsIn(r.value.index, MaxRow(r.value.grid))
  {
    var c := Val(g6, row, 1);
    if c == Empty then Some(m)
    else if !c.Text? then None
    else
      var (t, m1) := Landing(m, c.s);
      assert RowsIn(m.index, MaxRow(m.grid)) ==> 1 <= t && RowsIn(m1.index, MaxRow(m1.grid)) by {
        if RowsIn(m.index, MaxRow(m.grid)) {
          LandingRows(m, c.s);
        }
      }
      if t == 0 then None
      else Some(Merge(CopyValues(m1.grid, t, start, g6, row), m1.index))
  }

  /** A label Python cannot test with `"Camping" in`: neither None nor text. */
  predicate Unplaceable(c: Cell)
  {
    c != Empty && !c.Text?
  }

  /** Every row of the earlier table carries None or a text label. */
  predicate Placeable(g6: Grid)
  {
    forall r :: 2 <= r <= MaxRow(g6) ==> !Unplaceable(Val(g6, r, 1))
  }

  /** With a well-formed dict a label always lands on a row, and the dict stays well formed. */
  lemma LandingRows(m: Merge, country: string)
    requires RowsIn(m.index, MaxRow(m.grid))
    ensures var (t, m1) := Landing(m, country);
      1 <= t && RowsIn(m1.index, MaxRow(m1.grid))
  {
    if country !in m.index {
      var bound := Bound(m.index, country, MaxRow(m.grid));
      var stop := Stopper(m.index, country, bound);
      if stop.Some? {
        assert stop.value in m.index;
      }
      var g := WithLabel(m.grid, TargetRow(m.index, country, bound), country);
      IndexRows(g);
    }
  }

  /** Rows 2 .. n of the earlier table, in order. */
  ghost function PlaceRows(m: Merge, g6: Grid, start: nat, n: int): Option<Merge>
    requires 1 <= start
    decreases n
  {
    if n < 2 then Some(m)
    else
      match PlaceRows(m, g6, start, n - 1)
      case None => None
      case Some(p) => PlaceRow(p, g6, n, start)
  }

  /** Placing rows 2 .. n fails exactly when one of them carries a label that is neither None nor text. */
  lemma {:induction false} PlaceRowsOutcome(m: Merge, g6: Grid, start: nat, n: int)
    requires 1 <= start && RowsIn(m.index, MaxRow(m.grid))
    ensures var p := PlaceRows(m, g6, start, n);
      && (p.None? <==> exists r :: 2 <= r <= n && Unplaceable(Val(g6, r, 1)))
      && (p.Some? ==> RowsIn(p.value.index, MaxRow(p.value.grid)))
    decreases n
  {
    if n >= 2 {
      PlaceRowsOutcome(m, g6, start, n - 1);
      if PlaceRows(m, g6, start, n - 1).Some? && Unplaceable(Val(g6, n, 1)) {
        assert PlaceRows(m, g6, start, n).None?;
      }
    }
  }

  /** The header of the earlier table written into row 1 from column max_col+2. */
  function WithHeader(g: Grid, maxCol: nat, g6: Grid): Grid
  {
    CopyValues(g, 1, maxCol + 2, g6, 1)
  }

  /**
   * One earlier table: header, separator at max_col+1, its rows from
   * column max_col+2, then the dict rebuilt and max_col moved to the
   * sheet's width.
   */
  ghost function AppendFile(m: Merge, maxCol: nat, g6: Grid): Option<(Merge, nat)>
  {
    var h := WithHeader(m.grid, maxCol, g6);
    var s := PaintColumn(h, maxCol + 1, 1, MaxRow(h) + 1);
    match PlaceRows(Merge(s, m.index), g6, maxCol + 2, MaxRow(g6))
    case None => None
    case Some(p) => Some((Merge(p.grid, Index(p.grid)), MaxCol(p.grid)))
  }

  /** One earlier table fails exactly when one of its rows carries a label that is neither None nor text. */
  lemma AppendFileOutcome(m: Merge, maxCol: nat, g6: Grid)
    requires RowsIn(m.index, MaxRow(m.grid))
    ensures var a := AppendFile(m, maxCol, g6);
      && (a.None? <==> !Placeable(g6))
      && (a.Some? ==> RowsIn(a.value.0.index, MaxRow(a.value.0.grid)))
  {
    var h := WithHeader(m.grid, maxCol, g6);
    var s := PaintColumn(h, maxCol + 1, 1, MaxRow(h) + 1);
    PlaceRowsOutcome(Merge(s, m.index), g6, maxCol + 2, MaxRow(g6));
    var p := PlaceRows(Merge(s, m.index), g6, maxCol + 2, MaxRow(g6));
    if p.Some? {
      IndexRows(p.value.grid);
    }
  }

  /** The first `n` earlier tables in order. */
  ghost function AppendFiles(m: Merge, maxCol: nat, files: seq<Grid>, n: nat): Option<(Merge, nat)>
    requires n <= |files|
  {
    if n == 0 then Some((m, maxCol))
    else
      match AppendFiles(m, maxCol, files, n - 1)
      case None => None
      case Some(p) => AppendFile(p.0, p.1, files[n - 1])
  }

  /** The first `n` tables fail exactly when one of them has a row Python cannot place. */
  lemma {:induction false} AppendFilesOutcome(m: Merge, maxCol: nat, files: seq<Grid>, n: nat)
    requires n <= |files| && RowsIn(m.index, MaxRow(m.grid))
    ensures var a := AppendFiles(m, maxCol, files, n);
      && (a.None? <==> exists k :: 0 <= k < n && !Placeable(files[k]))
      && (a.Some? ==> RowsIn(a.value.0.index, MaxRow(a.value.0.grid)))
    decreases n
  {
    if n > 0 {
      AppendFilesOutcome(m, maxCol, files, n - 1);
      var a := AppendFiles(m, maxCol, files, n - 1);
      if a.Some? {
        AppendFileOutcome(a.value.0, a.value.1, files[n - 1]);
      }
    }
  }

  /**
   * append_stage6_to_stage5: the saved sheet, or None when a row made
   * Python raise, which happens exactly when some earlier table has a row
   * whose label is neither None nor text.
   */
  ghost function Stage3(g: Grid, files: seq<Grid>): (r: Option<Grid>)
    ensures r.None? <==> exists k :: 0 <= k < |files| && !Placeable(files[k])
    ensures files == [] ==> r == Some(Loaded(g).0)
  {
    var (h, index) := Loaded(g);
    AppendFilesOutcome(Merge(h, index), MaxCol(h), files, |files|);
    match AppendFiles(Merge(h, index), MaxCol(h), files, |files|)
    case None => None
    case Some(p) => Some(p.0.grid)
  }

  // ---------------------------------------------------------------------
  // Properties of the merge

  /** A dict that is the dict of its sheet. */
  predicate Consistent(m: Merge)
  {
    m.index == Index(m.grid)
  }

  /** Copying values into columns from 2 on, in a row that exists, leaves the dict as it was. */
  lemma CopyKeepsIndex(g: Grid, t: nat, start: nat, g6: Grid, row: int)
    requires 1 <= t <= MaxRow(g) && 2 <= start
    ensures Index(CopyValues(g, t, start, g6, row)) == Index(g)
  {
    var h := CopyValues(g, t, start, g6, row);
    FillRowRows(g, t, start, start + MaxCol(g6), Copied(g6, row, start));
    forall r | 2 <= r <= MaxRow(g) ensures LabelAt(g, r) == LabelAt(h, r) {
      assert Val(h, r, 1) == Val(g, r, 1);
    }
    IndexSame(g, h, MaxRow(g));
  }

  /** Writing along an existing row does not add rows. */
  lemma {:induction false} FillRowRows(g: Grid, r: nat, lo: nat, hi: int, e: nat -> Cell)
    requires 1 <= r <= g.rows && 1 <= lo
    ensures FillRow(g, r, lo, hi, e).rows == g.rows
    decreases hi - lo
  {
    if lo < hi {
      FillRowRows(g, r, lo, hi - 1, e);
    }
  }

  /** The row a label lands on holds the label, and the dict stays the dict of the sheet. */
  lemma LandingLabelled(m: Merge, country: string)
    requires Consistent(m)
    ensures var (t, m1) := Landing(m, country);
      1 <= t <= MaxRow(m1.grid) && Consistent(m1) && Val(m1.grid, t, 1) == Text(country)
  {
    IndexMeaning(m.grid, MaxRow(m.grid));
    if country !in m.index {
      var t := Landing(m, country).0;
      LabelInserted(m.grid, t, country, t, 1);
    }
  }

  /**
   * A labelled row of the earlier table lands on the one current row with
   * its label, new or old, at columns start ..; and the dict stays the
   * dict of the sheet.
   */
  lemma PlaceRowLands(m: Merge, g6: Grid, row: int, start: nat, country: string)
    requires Consistent(m) && 2 <= start && Val(g6, row, 1) == Text(country)
    ensures PlaceRow(m, g6, row, start).Some?
    ensures var p := PlaceRow(m, g6, row, start).value;
      var t := Landing(m, country).0;
      && Consistent(p)
      && Val(p.grid, t, 1) == Text(country)
      && forall j :: 1 <= j <= MaxCol(g6) ==> Val(p.grid, t, start + j - 1) == Val(g6, row, j)
  {
    var (t, m1) := Landing(m, country);
    LandingLabelled(m, country);
    PlaceRowText(m, g6, row, start, country);
    CopyKeepsIndex(m1.grid, t, start, g6, row);
    CopiedCells(m1.grid, t, start, g6, row);
  }

  /** A row labelled with text is copied onto its landing row. */
  lemma PlaceRowText(m: Merge, g6: Grid, row: int, start: nat, country: string)
    requires Consistent(m) && 1 <= start && Val(g6, row, 1) == Text(country)
    ensures var (t, m1) := Landing(m, country);
      1 <= t && PlaceRow(m, g6, row, start) == Some(Merge(CopyValues(m1.grid, t, start, g6, row), m1.index))
  {
    LandingLabelled(m, country);
  }

  /** The copy puts column j of the earlier row at column start + j - 1. */
  lemma CopiedCells(g: Grid, t: nat, start: nat, g6: Grid, row: int)
    requires 1 <= t && 1 <= start
    ensures forall j :: 1 <= j <= MaxCol(g6) ==> Val(CopyValues(g, t, start, g6, row), t, start + j - 1) == Val(g6, row, j)
  {
    forall j | 1 <= j <= MaxCol(g6) ensures Val(CopyValues(g, t, start, g6, row), t, start + j - 1) == Val(g6, row, j) {
      assert Copied(g6, row, start)(start + j - 1) == Val(g6, row, j);
    }
  }

  /** Placing rows never narrows the sheet. */
  lemma {:induction false} PlaceRowsWidth(m: Merge, g6: Grid, start: nat, n: int)
    requires 1 <= start && PlaceRows(m, g6, start, n).Some?
    ensures MaxCol(PlaceRows(m, g6, start, n).value.grid) >= MaxCol(m.grid)
    decreases n
  {
    if n >= 2 {
      PlaceRowsWidth(m, g6, start, n - 1);
    }
  }

  /** After a table, max_col is at least the separator column, so the next table starts further right. */
  lemma AppendFileWidth(m: Merge, maxCol: nat, g6: Grid)
    requires MaxRow(m.grid) >= 1 && AppendFile(m, maxCol, g6).Some?
    ensures AppendFile(m, maxCol, g6).value.1 >= maxCol + 1
  {
    var h := WithHeader(m.grid, maxCol, g6);
    var s := PaintColumn(h, maxCol + 1, 1, MaxRow(h) + 1);
    PlaceRowsWidth(Merge(s, m.index), g6, maxCol + 2, MaxRow(g6));
  }

  // ---------------------------------------------------------------------
  // The merge on the sheet

  /** The copy loop of one row: values only. */
  method CopyRow(ws: Worksheet, t: nat, start: nat, g6: Grid, row: int)
    requires 1 <= t && 1 <= start
    modifies ws
    ensures ws.grid == CopyValues(old(ws.grid), t, start, g6, row)
  {
    ghost var g := ws.grid;
    for j := start to start + MaxCol(g6)
      invariant ws.grid == FillRow(g, t, start, j, Copied(g6, row, start))
    {
      ws.SetCell(t, j, Val(g6, row, j - start + 1));
    }
  }

  /** The body of the row loop of append_stage6_to_stage5. */
  method PlaceRowOnSheet(ws: Worksheet, index: map<string, nat>, g6: Grid, row: int, start: nat)
    returns (ok: bool, index': map<string, nat>)
    requires 1 <= start && RowsIn(index, MaxRow(ws.grid))
    modifies ws
    ensures var p := PlaceRow(Merge(old(ws.grid), index), g6, row, start);
      ok == p.Some? && (ok ==> Merge(ws.grid, index') == p.value)
    ensures ok ==> RowsIn(index', MaxRow(ws.grid))
  {
    var c := Val(g6, row, 1);
    index' := index;
    if c == Empty {
      return true, index;
    }
    if !c.Text? {
      return false, index;
    }
    var t: nat;
    if c.s in index {
      t := index[c.s];
    } else {
      t, index' := InsertCountryRow(ws, c.s, index);
      IndexRows(ws.grid);
    }
    ghost var before := ws.grid;
    CopyRow(ws, t, start, g6, row);
    FillRowRows(before, t, start, start + MaxCol(g6), Copied(g6, row, start));
    return true, index';
  }

  /** The row loop over rows 2 .. max_row of the earlier table. */
  method PlaceAllRows(ws: Worksheet, index: map<string, nat>, g6: Grid, start: nat)
    returns (ok: bool, index': map<string, nat>)
    requires 1 <= start && RowsIn(index, MaxRow(ws.grid))
    modifies ws
    ensures var p := PlaceRows(Merge(old(ws.grid), index), g6, start, MaxRow(g6));
      ok == p.Some? && (ok ==> Merge(ws.grid, index') == p.value)
  {
    ghost var g := ws.grid;
    index' := index;
    var n := MaxRow(g6);
    var row := 2;
    while row <= n
      invariant 2 <= row && (row <= n + 1 || row == 2)
      invariant PlaceRows(Merge(g, index), g6, start, row - 1) == Some(Merge(ws.grid, index'))
      invariant RowsIn(index', MaxRow(ws.grid))
    {
      var step;
      step, index' := PlaceRowOnSheet(ws, index', g6, row, start);
      if !step {
        PlaceRowsFail(Merge(g, index), g6, start, row, n);
        return false, index';
      }
      row := row + 1;
    }
    return true, index';
  }

  /** Once a row fails, the whole table fails. */
  lemma {:induction false} PlaceRowsFail(m: Merge, g6: Grid, start: nat, k: int, n: int)
    requires 1 <= start && 2 <= k <= n && PlaceRows(m, g6, start, k).None?
    ensures PlaceRows(m, g6, start, n).None?
    decreases n - k
  {
    if k < n {
      PlaceRowsFail(m, g6, start, k, n - 1);
    }
  }

  /** The body of the file loop of append_stage6_to_stage5. */
  method AppendFileOnSheet(ws: Worksheet, index: map<string, nat>, maxCol: nat, g6: Grid)
    returns (ok: bool, index': map<string, nat>, maxCol': nat)
    requires RowsIn(index, MaxRow(ws.grid))
    modifies ws
    ensures var r := AppendFile(Merge(old(ws.grid), index), maxCol, g6);
      ok == r.Some? && (ok ==> Merge(ws.grid, index') == r.value.0 && maxCol' == r.value.1)
    ensures ok ==> RowsIn(index', MaxRow(ws.grid))
  {
    CopyRow(ws, 1, maxCol + 2, g6, 1);
    var c := InsertSeparatorColumn(ws, maxCol);
    ok, index' := PlaceAllRows(ws, index, g6, c + 1);
    maxCol' := maxCol;
    if !ok {
      return;
    }
    index' := RebuildIndex(ws);
    IndexRows(ws.grid);
    maxCol' := MaxCol(ws.grid);
  }

  /** Once a table fails, the whole merge fails. */
  lemma {:induction false} AppendFilesFail(m: Merge, maxCol: nat, files: seq<Grid>, k: nat, n: nat)
    requires 1 <= k <= n <= |files| && AppendFiles(m, maxCol, files, k).None?
    ensures AppendFiles(m, maxCol, files, n).None?
    decreases n - k
  {
    if k < n {
      AppendFilesFail(m, maxCol, files, k, n - 1);
    }
  }

  /** append_stage6_to_stage5; false when a row makes Python raise and nothing is saved. */
  method AppendStage6ToStage5(ws: Worksheet, files: seq<Grid>) returns (saved: bool)
    modifies ws
    ensures var r := Stage3(old(ws.grid), files);
      saved == r.Some? && (saved ==> ws.grid == r.value)
  {
    ghost var g := ws.grid;
    var index := LoadStage5(ws);
    var maxCol := MaxCol(ws.grid);
    ghost var m0 := Merge(ws.grid, index);
    ghost var c0 := maxCol;
    for n := 0 to |files|
      invariant AppendFiles(m0, c0, files, n) == Some((Merge(ws.grid, index), maxCol))
      invariant RowsIn(index, MaxRow(ws.grid))
    {
      var ok;
      ok, index, maxCol := AppendFileOnSheet(ws, index, maxCol, files[n]);
      if !ok {
        AppendFilesFail(m0, c0, files, n + 1, |files|);
        return false;
      }
    }
    return true;
  }
}
