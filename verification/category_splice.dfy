/**
 * Stage 2 of the per-zone pipeline: the rows of the per-type availability
 * table whose category carries one of the filter keywords replace the
 * single summary row ".Beach Apt / for 5.2.6" of the per-zone table.
 *
 * per_zone_per_type_stage2.py and stage2.py share this logic.  They differ
 * in what happens on an error: the first catches it (an unreadable type
 * table becomes an empty frame, a failed replacement leaves the zone table
 * as it was), the second lets it end the stage with nothing saved.  They
 * also rename the type table's date columns to different texts
 * (`strftime("%a %d/%m/%Y")` and `strftime("%a %d/%m")`); which text a
 * label becomes is the parameter `dateLabel`, None for a label that
 * `pd.to_datetime` does not take for a date.
 */
module CategorySplice {
  import opened Cells

  const TargetCategory := ".Beach Apt / for 5.2.6"
  const FilterKeywords: seq<string> := ["APT", "Beach", "for2", "for5", "for6"]

  /** The two copies of the stage. */
  datatype Variant =
    | Guarded   // per_zone_per_type_stage2.py: exceptions are caught
    | Plain     // stage2.py: exceptions propagate

  /** A DataFrame: its column labels and its rows, each as wide as the labels. */
  datatype Frame = Frame(columns: seq<string>, rows: Table)

  predicate WellFormed(f: Frame)
  {
    Shaped(f.rows, |f.columns|)
  }

  /** `pd.DataFrame()` */
  const NoFrame := Frame([], [])

  // ---------------------------------------------------------------------
  // The keyword filter of load_filtered_data

  /** `any(kw in x for kw in keywords)`: a case-sensitive substring test. */
  predicate HasKeyword(s: string, ks: seq<string>)
  {
    exists i :: 0 <= i < |ks| && Contains(s, ks[i])
  }

  /** The row with its category turned into text (`df.iloc[:, 0].astype(str)`). */
  function AsStrLabel(row: seq<Cell>): (r: seq<Cell>)
    requires |row| >= 1
    ensures |r| == |row| && r[0].Text? && r[1..] == row[1..]
  {
    [Text(Render(row[0]))] + row[1..]
  }

  predicate Matching(row: seq<Cell>, ks: seq<string>)
    requires |row| >= 1
  {
    HasKeyword(Render(row[0]), ks)
  }

  /** The rows whose category text carries a keyword, in table order, with that text as their category. */
  function KeywordRows(t: Table, ks: seq<string>): (r: Table)
    requires forall i :: 0 <= i < |t| ==> |t[i]| >= 1
    ensures |r| <= |t|
  {
    if t == [] then []
    else
      var row := t[|t| - 1];
      KeywordRows(t[..|t| - 1], ks) + (if Matching(row, ks) then [AsStrLabel(row)] else [])
  }

  /** The filter works row by row: the kept rows of a concatenation are those of each part, in order. */
  lemma {:induction false} KeywordRowsConcat(a: Table, b: Table, ks: seq<string>)
    requires forall i :: 0 <= i < |a| ==> |a[i]| >= 1
    requires forall i :: 0 <= i < |b| ==> |b[i]| >= 1
    ensures KeywordRows(a + b, ks) == KeywordRows(a, ks) + KeywordRows(b, ks)
    decreases |b|
  {
    if b == [] {
      assert a + b == a;
    } else {
      var b' := b[..|b| - 1];
      assert (a + b)[..|a + b| - 1] == a + b';
      KeywordRowsConcat(a, b', ks);
    }
  }

  /**
   * A row is kept exactly when it comes from a row of the table whose
   * category carries a keyword.
   */
  lemma {:induction false} KeywordRowsExactly(t: Table, ks: seq<string>, row: seq<Cell>)
    requires forall i :: 0 <= i < |t| ==> |t[i]| >= 1
    ensures row in KeywordRows(t, ks) <==> exists i :: 0 <= i < |t| && Matching(t[i], ks) && row == AsStrLabel(t[i])
    decreases |t|
  {
    if t != [] {
      var t', n := t[..|t| - 1], |t| - 1;
      KeywordRowsExactly(t', ks, row);
      var tail := if Matching(t[n], ks) then [AsStrLabel(t[n])] else [];
      assert KeywordRows(t, ks) == KeywordRows(t', ks) + tail;
      assert row in KeywordRows(t, ks) <==> row in KeywordRows(t', ks) || row in tail;
      if exists i :: 0 <= i < |t| && Matching(t[i], ks) && row == AsStrLabel(t[i]) {
        var i :| 0 <= i < |t| && Matching(t[i], ks) && row == AsStrLabel(t[i]);
        if i < |t'| {
          assert t'[i] == t[i];
        }
      }
      if exists i :: 0 <= i < |t'| && Matching(t'[i], ks) && row == AsStrLabel(t'[i]) {
        var i :| 0 <= i < |t'| && Matching(t'[i], ks) && row == AsStrLabel(t'[i]);
        assert t[i] == t'[i];
      }
    }
  }

  /** A table all of whose rows carry a keyword keeps every row. */
  lemma {:induction false} KeywordRowsAll(t: Table, ks: seq<string>)
    requires forall i :: 0 <= i < |t| ==> |t[i]| >= 1 && Matching(t[i], ks)
    ensures |KeywordRows(t, ks)| == |t|
    ensures forall i :: 0 <= i < |t| ==> KeywordRows(t, ks)[i] == AsStrLabel(t[i])
    decreases |t|
  {
    if t != [] {
      KeywordRowsAll(t[..|t| - 1], ks);
    }
  }

  /**
   * The labels after `rename(columns={col: ... for col in date_cols})`: a
   * date label becomes its `strftime` text, any other label stays.
   */
  function Renamed(cols: seq<string>, dateLabel: string -> Option<string>): (r: seq<string>)
    ensures |r| == |cols|
  {
    seq(|cols|, j requires 0 <= j < |cols| => match dateLabel(cols[j]) case Some(l) => l case None => cols[j])
  }

  /**
   * load_filtered_data on a sheet that was read (`Some`) or could not be
   * (`None`).  Reading fails, or the first column is missing: the guarded
   * copy returns an empty frame and the plain copy raises (`None`).
   * Otherwise the kept rows come under the renamed labels.
   */
  function LoadFiltered(v: Variant, sheet: Option<Frame>, ks: seq<string>, dateLabel: string -> Option<string>): (r: Option<Frame>)
    requires sheet.Some? ==> WellFormed(sheet.value)
    ensures r.Some? ==> WellFormed(r.value)
    ensures r.None? <==> (v.Plain? && (sheet.None? || sheet.value.columns == []))
    ensures r.Some? && sheet.Some? && sheet.value.columns != [] ==>
      r.value.columns == Renamed(sheet.value.columns, dateLabel) && r.value.rows == KeywordRows(sheet.value.rows, ks)
    ensures v == Guarded && (sheet.None? || sheet.value.columns == []) ==> r == Some(NoFrame)
  {
    if sheet.None? || sheet.value.columns == [] then
      if v == Guarded then Some(NoFrame) else None
    else
      var f := sheet.value;
      var kept := KeywordRows(f.rows, ks);
      assert Shaped(kept, |f.columns|) by { KeptShaped(f.rows, ks, |f.columns|); }
      Some(Frame(Renamed(f.columns, dateLabel), kept))
  }

  /** Filtering keeps the table's width. */
  lemma {:induction false} KeptShaped(t: Table, ks: seq<string>, w: nat)
    requires w >= 1 && Shaped(t, w)
    ensures Shaped(KeywordRows(t, ks), w)
    decreases |t|
  {
    if t != [] {
      KeptShaped(t[..|t| - 1], ks, w);
    }
  }

  // ---------------------------------------------------------------------
  // replace_category_row

  /** The first row whose category is exactly the text (`mask.idxmax()` when `mask.any()`). */
  function FirstLabelled(t: Table, s: string): (r: Option<nat>)
    ensures r.Some? ==> r.value < |t| && Label(t[r.value]) == Text(s)
    ensures r.Some? ==> forall j :: 0 <= j < r.value ==> Label(t[j]) != Text(s)
    ensures r.None? ==> forall j :: 0 <= j < |t| ==> Label(t[j]) != Text(s)
  {
    if t == [] then None
    else if Label(t[0]) == Text(s) then Some(0)
    else match FirstLabelled(t[1..], s)
      case None => None
      case Some(k) => Some(k + 1)
  }

  predicate Distinct(cols: seq<string>)
  {
    forall i, j :: 0 <= i < j < |cols| ==> cols[i] != cols[j]
  }

  /** The first column with the label. */
  function ColumnOf(cols: seq<string>, name: string): (r: Option<nat>)
    ensures r.Some? ==> r.value < |cols| && cols[r.value] == name
    ensures r.None? <==> name !in cols
  {
    if cols == [] then None
    else if cols[0] == name then Some(0)
    else match ColumnOf(cols[1..], name)
      case None => None
      case Some(k) => Some(k + 1)
  }

  /** The entry a reindexed row has under the label: the entry of that column, or "". */
  function Pick(row: seq<Cell>, from: seq<string>, name: string): Cell
    requires |row| == |from|
  {
    match ColumnOf(from, name)
    case None => Text("")
    case Some(k) => row[k]
  }

  /** One row of `reindex(columns=to, fill_value="")` over columns `from`. */
  function AlignRow(row: seq<Cell>, from: seq<string>, to: seq<string>): (r: seq<Cell>)
    requires |row| == |from|
    ensures |r| == |to|
    ensures forall j :: 0 <= j < |to| && to[j] !in from ==> r[j] == Text("")
    ensures Distinct(from) ==>
      forall j, k :: 0 <= j < |to| && 0 <= k < |from| && from[k] == to[j] ==> r[j] == row[k]
  {
    seq(|to|, j requires 0 <= j < |to| => Pick(row, from, to[j]))
  }

  /**
   * The type rows reindexed to the zone's columns.  Reindexing to the very
   * same labels leaves the rows as they are.
   */
  function Aligned(typ: Frame, to: seq<string>): (r: Table)
    requires WellFormed(typ)
    ensures |r| == |typ.rows| && Shaped(r, |to|)
  {
    if typ.columns == to then typ.rows
    else seq(|typ.rows|, i requires 0 <= i < |typ.rows| => AlignRow(typ.rows[i], typ.columns, to))
  }

  /**
   * pandas refuses to reindex a frame whose column labels repeat, unless
   * they already are the requested labels.
   */
  predicate ReindexFails(typ: Frame, to: seq<string>)
  {
    !Distinct(typ.columns) && typ.columns != to
  }

  /**
   * replace_category_row; `None` is the exception: a zone table with no
   * first column, or a type table that cannot be reindexed.
   */
  function ReplaceCategoryRow(zone: Frame, typ: Frame, target: string): (r: Option<Frame>)
    requires WellFormed(zone) && WellFormed(typ)
    ensures r.Some? ==> WellFormed(r.value) && r.value.columns == zone.columns
    ensures r.None? <==>
      (zone.columns == [] || (FirstLabelled(zone.rows, target).Some? && ReindexFails(typ, zone.columns)))
    ensures r.Some? && FirstLabelled(zone.rows, target).None? ==> r.value == zone
    ensures r.Some? && FirstLabelled(zone.rows, target).Some? ==>
      |r.value.rows| == |zone.rows| - 1 + |typ.rows|
  {
    if zone.columns == [] then None
    else match FirstLabelled(zone.rows, target)
      case None => Some(zone)
      case Some(i) =>
        if ReindexFails(typ, zone.columns) then None
        else
          var rows := zone.rows[..i] + Aligned(typ, zone.columns) + zone.rows[i + 1..];
          assert Shaped(rows, |zone.columns|) by {
            forall k | 0 <= k < |rows| ensures |rows[k]| == |zone.columns| {
              if k >= i + |typ.rows| {
                assert rows[k] == zone.rows[k - |typ.rows| + 1];
              }
            }
          }
          Some(Frame(zone.columns, rows))
  }

  /**
   * Where the target row was, the aligned type rows now stand; the rows
   * before and after it keep their order.
   */
  lemma Spliced(zone: Frame, typ: Frame, target: string, i: nat)
    requires WellFormed(zone) && WellFormed(typ) && zone.columns != []
    requires FirstLabelled(zone.rows, target) == Some(i) && !ReindexFails(typ, zone.columns)
    ensures var r := ReplaceCategoryRow(zone, typ, target).value.rows;
      var m := |typ.rows|;
      && r[..i] == zone.rows[..i]
      && r[i..i + m] == Aligned(typ, zone.columns)
      && r[i + m..] == zone.rows[i + 1..]
  {
  }

  /**
   * Putting the target row back in place of the spliced block gives the
   * zone table back.
   */
  lemma SpliceUndone(zone: Frame, typ: Frame, target: string, i: nat)
    requires WellFormed(zone) && WellFormed(typ) && zone.columns != []
    requires FirstLabelled(zone.rows, target) == Some(i) && !ReindexFails(typ, zone.columns)
    ensures var r := ReplaceCategoryRow(zone, typ, target).value.rows;
      r[..i] + [zone.rows[i]] + r[i + |typ.rows|..] == zone.rows
  {
    Spliced(zone, typ, target, i);
    assert zone.rows == zone.rows[..i] + [zone.rows[i]] + zone.rows[i + 1..];
  }

  /** How many rows carry exactly the category. */
  function CountLabelled(t: Table, s: string): (n: nat)
    ensures n <= |t|
  {
    if t == [] then 0
    else CountLabelled(t[..|t| - 1], s) + (if Label(t[|t| - 1]) == Text(s) then 1 else 0)
  }

  lemma {:induction false} CountConcat(a: Table, b: Table, s: string)
    ensures CountLabelled(a + b, s) == CountLabelled(a, s) + CountLabelled(b, s)
    decreases |b|
  {
    if b == [] {
      assert a + b == a;
    } else {
      var b' := b[..|b| - 1];
      assert (a + b)[..|a + b| - 1] == a + b';
      CountConcat(a, b', s);
    }
  }

  /**
   * Exactly one row carrying the category goes: the first.  Any later ones
   * stay, joined by those among the type rows.
   */
  lemma ReplaceRemovesOne(zone: Frame, typ: Frame, target: string)
    requires WellFormed(zone) && WellFormed(typ)
    requires ReplaceCategoryRow(zone, typ, target).Some? && FirstLabelled(zone.rows, target).Some?
    ensures CountLabelled(ReplaceCategoryRow(zone, typ, target).value.rows, target)
      == CountLabelled(zone.rows, target) - 1 + CountLabelled(Aligned(typ, zone.columns), target)
  {
    var i := FirstLabelled(zone.rows, target).value;
    Spliced(zone, typ, target, i);
    assert zone.rows == zone.rows[..i] + [zone.rows[i]] + zone.rows[i + 1..];
    CountSplice(zone.rows[..i], zone.rows[i], zone.rows[i + 1..], Aligned(typ, zone.columns), target);
  }

  /** Swapping one row that carries the category for a block of rows. */
  lemma CountSplice(before: Table, x: seq<Cell>, after: Table, block: Table, s: string)
    requires Label(x) == Text(s)
    ensures CountLabelled(before + block + after, s) == CountLabelled(before + [x] + after, s) - 1 + CountLabelled(block, s)
  {
    CountConcat(before + block, after, s);
    CountConcat(before, block, s);
    CountConcat(before + [x], after, s);
    CountConcat(before, [x], s);
    assert [x][..0] == [];
  }

  /** With no type rows the target row is simply deleted. */
  lemma NoTypeRowsDeletes(zone: Frame, typ: Frame, target: string, i: nat)
    requires WellFormed(zone) && WellFormed(typ) && zone.columns != [] && typ.rows == []
    requires FirstLabelled(zone.rows, target) == Some(i) && !ReindexFails(typ, zone.columns)
    ensures ReplaceCategoryRow(zone, typ, target).value.rows == zone.rows[..i] + zone.rows[i + 1..]
  {
    Spliced(zone, typ, target, i);
  }

  // ---------------------------------------------------------------------
  // The stage

  /**
   * per_zone_per_type_stage2 / stage2 between loading and saving: the zone
   * table as read, and the type sheet as read or not.  `None` is a stage
   * that raised, so that nothing is saved.
   */
  function Stage2(v: Variant, zone: Frame, typeSheet: Option<Frame>, dateLabel: string -> Option<string>): (r: Option<Frame>)
    requires WellFormed(zone) && (typeSheet.Some? ==> WellFormed(typeSheet.value))
    ensures r.Some? ==> WellFormed(r.value)
    ensures v == Guarded ==> r.Some?
    ensures r.Some? && FirstLabelled(zone.rows, TargetCategory).None? ==> r.value == zone
  {
    match LoadFiltered(v, typeSheet, FilterKeywords, dateLabel)
    case None => None
    case Some(typ) =>
      match ReplaceCategoryRow(zone, typ, TargetCategory)
      case None => if v == Guarded then Some(zone) else None
      case Some(f) => Some(f)
  }

  /**
   * In the guarded copy an unreadable type sheet acts as an empty one: the
   * target row is deleted and nothing takes its place.
   */
  lemma UnreadableTypeSheet(zone: Frame, i: nat, dateLabel: string -> Option<string>)
    requires WellFormed(zone) && zone.columns != []
    requires FirstLabelled(zone.rows, TargetCategory) == Some(i)
    ensures Stage2(Guarded, zone, None, dateLabel) == Some(Frame(zone.columns, zone.rows[..i] + zone.rows[i + 1..]))
  {
    assert Distinct(NoFrame.columns);
    NoTypeRowsDeletes(zone, NoFrame, TargetCategory, i);
  }

  /**
   * Each spliced type row holds, under a zone column, the entry of the type
   * column whose label after renaming is that column's label, and "" under
   * a zone column that no renamed label matches.  So a zone column headed
   * with a date label as the type sheet had it before renaming stays empty
   * whenever renaming changed that label.
   */
  lemma SplicedUnderRenamed(v: Variant, zone: Frame, sheet: Frame, dateLabel: string -> Option<string>, i: nat, r: nat, j: nat)
    requires WellFormed(zone) && WellFormed(sheet) && sheet.columns != []
    requires FirstLabelled(zone.rows, TargetCategory) == Some(i)
    requires Distinct(Renamed(sheet.columns, dateLabel))
    requires r < |KeywordRows(sheet.rows, FilterKeywords)| && j < |zone.columns|
    ensures Stage2(v, zone, Some(sheet), dateLabel).Some?
    ensures var out := Stage2(v, zone, Some(sheet), dateLabel).value.rows;
      i + r < |out| && j < |out[i + r]|
      && (zone.columns[j] !in Renamed(sheet.columns, dateLabel) ==> out[i + r][j] == Text(""))
      && (forall k :: 0 <= k < |sheet.columns| && Renamed(sheet.columns, dateLabel)[k] == zone.columns[j] ==>
            out[i + r][j] == KeywordRows(sheet.rows, FilterKeywords)[r][k])
  {
    var typ := LoadFiltered(v, Some(sheet), FilterKeywords, dateLabel).value;
    assert typ == Frame(Renamed(sheet.columns, dateLabel), KeywordRows(sheet.rows, FilterKeywords));
    assert !ReindexFails(typ, zone.columns);
    Spliced(zone, typ, TargetCategory, i);
    var out := ReplaceCategoryRow(zone, typ, TargetCategory).value.rows;
    assert Stage2(v, zone, Some(sheet), dateLabel).value.rows == out;
    assert out[i + r] == Aligned(typ, zone.columns)[r] by {
      assert out[i..i + |typ.rows|][r] == out[i + r];
    }
    if typ.columns != zone.columns {
      assert out[i + r] == AlignRow(typ.rows[r], typ.columns, zone.columns);
    }
  }
}
