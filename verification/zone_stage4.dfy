/**
 * Fourth per-zone stage (per_zone_stage4.py).  The zone table is read with no
 * header row, so row 0 is the sheet's first row.  It is cut into groups at its
 * all-empty rows; every group gets a "Total {name} {year}" row followed by a
 * "Πληρότητα" (occupancy) row, and a last column headed "Total" is appended.
 *
 * Rows are 0-based positions in the table, as pandas numbers them; a group's
 * `start` and `end` are the 1-based sheet rows the source stores in its dict.
 */
module ZoneStage4 {
  import opened Cells

  /** `row.isnull().all()`: every entry is NaN (true of a row with no entries). */
  predicate BlankRow(row: seq<Cell>)
    decreases |row|
  {
    |row| == 0 || (row[0] == Empty && BlankRow(row[1..]))
  }

  /** The first-column entries of rows lo .. hi-1, in order. */
  function LabelsFrom(t: Table, lo: nat, hi: nat): (ls: seq<Cell>)
    requires lo <= hi <= |t|
    ensures |ls| == hi - lo
    decreases hi
  {
    if hi == lo then [] else LabelsFrom(t, lo, hi - 1) + [Label(t[hi - 1])]
  }

  /**
   * A group as detect_groups records it: its first and end rows (1-based),
   * the first-column entries of its rows and its name.
   */
  datatype Group = Group(start: nat, end: Row1, types: seq<Cell>, name: string)

  /** A 1-based row number. */
  type Row1 = n: nat | n >= 1 witness 1

  // ---------------------------------------------------------------------
  // detect_groups

  /**
   * The name the k-th closed group gets from the `first_group` /
   * `second_group` flags: the first is the accommodations, the second the
   * youth hostel, and every later one keeps "".
   */
  function ClosedName(k: nat): string
  {
    if k == 0 then "Accommodations" else if k == 1 then "Youth Hostel" else ""
  }

  /** The loop's state: the closed groups and the open group, if any. */
  datatype Scan = Scan(closed: seq<Group>, start: Option<nat>, types: seq<Cell>)

  /** One turn of the loop, for the row at position `index`. */
  function ScanStep(s: Scan, row: seq<Cell>, index: nat): Scan
  {
    if BlankRow(row) then
      if s.start.Some? then Scan(s.closed + [Group(s.start.value, index + 1, s.types, ClosedName(|s.closed|))], None, [])
      else s
    else Scan(s.closed, if s.start.None? then Some(index + 1) else s.start, s.types + [Label(row)])
  }

  /** The state once the rows 1 .. k-1 have been seen (row 0 is skipped). */
  function ScanTo(t: Table, k: nat): Scan
    requires 1 <= k <= |t|
  {
    if k == 1 then Scan([], None, []) else ScanStep(ScanTo(t, k - 1), t[k - 1], k - 1)
  }

  /**
   * The groups: the closed ones in order, then a group still open at the
   * end, named "Camping" and ending at row len(df).  All but the last are
   * closed by a blank row, the last is closed too or the trailing
   * "Camping" group; they come in row order; and none of them is empty, so
   * a run of blank rows opens no group.
   */
  function DetectGroups(t: Table): (gs: seq<Group>)
    ensures WellGrouped(t, gs)
    ensures forall i :: 0 <= i < |gs| ==> |gs[i].types| >= 1
  {
    if |t| == 0 then []
    else
      var s := ScanTo(t, |t|);
      ScanHolds(t, |t|);
      if s.start.Some? then
        var g := Group(s.start.value, |t|, s.types, "Camping");
        LeftOpen(t, s);
        TrailingAppend(t, s.closed, g);
        s.closed + [g]
      else
        ClosedOnly(t, s.closed);
        s.closed
  }

  /** detect_groups, with its two flags. */
  method FindGroups(t: Table) returns (groups: seq<Group>)
    ensures groups == DetectGroups(t)
  {
    groups := [];
    if |t| == 0 {
      return;
    }
    var start: Option<nat> := None;
    var types: seq<Cell> := [];
    var firstGroup, secondGroup := true, true;
    var index := 1;
    while index < |t|
      invariant 1 <= index <= |t|
      invariant ScanTo(t, index) == Scan(groups, start, types)
      invariant firstGroup == (|groups| == 0) && secondGroup == (|groups| <= 1)
    {
      var row := t[index];
      if BlankRow(row) {
        if start.Some? {
          var name := "";
          if firstGroup {
            name := "Accommodations";
            firstGroup := false;
            secondGroup := true;
          } else if secondGroup {
            name := "Youth Hostel";
            secondGroup := false;
          }
          groups := groups + [Group(start.value, index + 1, types, name)];
          start, types := None, [];
        }
      } else {
        if start.None? {
          start := Some(index + 1);
        }
        types := types + [Label(row)];
      }
      index := index + 1;
    }
    if start.Some? {
      groups := groups + [Group(start.value, |t|, types, "Camping")];
    }
  }

  // ---------------------------------------------------------------------
  // What the groups are

  /** Rows lo .. hi-1 are all non-blank. */
  predicate Filled(t: Table, lo: nat, hi: nat)
    requires lo <= hi <= |t|
  {
    forall r :: lo <= r < hi ==> !BlankRow(t[r])
  }

  /** The group starts on the first data row or right after a blank row. */
  predicate OpensAfterBlank(t: Table, start: nat)
    requires 2 <= start <= |t|
  {
    start == 2 || BlankRow(t[start - 2])
  }

  /**
   * g is the k-th group, closed by the blank row at position end-1: it is a
   * non-empty run of non-blank rows right above it, and its types are their
   * first-column entries.
   */
  predicate ClosedGroup(t: Table, g: Group, k: nat)
  {
    && 2 <= g.start < g.end <= |t|
    && OpensAfterBlank(t, g.start)
    && Filled(t, g.start - 1, g.end - 1)
    && BlankRow(t[g.end - 1])
    && g.types == LabelsFrom(t, g.start - 1, g.end - 1)
    && g.name == ClosedName(k)
  }

  /** g is the "Camping" group left open: a run of non-blank rows to the end. */
  predicate TrailingGroup(t: Table, g: Group)
  {
    && 2 <= g.start <= g.end == |t|
    && OpensAfterBlank(t, g.start)
    && Filled(t, g.start - 1, |t|)
    && g.types == LabelsFrom(t, g.start - 1, |t|)
    && g.name == "Camping"
  }

  /** Every group but the last is closed; the groups come in row order. */
  ghost predicate WellGrouped(t: Table, gs: seq<Group>)
  {
    && (forall i :: 0 <= i < |gs| - 1 ==> ClosedGroup(t, gs[i], i))
    && (|gs| > 0 ==> ClosedGroup(t, gs[|gs| - 1], |gs| - 1) || TrailingGroup(t, gs[|gs| - 1]))
    && (forall i :: 0 <= i < |gs| - 1 ==> gs[i].end < gs[i + 1].start)
  }

  /** The closed groups after rows 1 .. k-1, in row order. */
  ghost predicate ClosedSoFar(t: Table, cs: seq<Group>, k: nat)
  {
    && (forall i :: 0 <= i < |cs| ==> ClosedGroup(t, cs[i], i) && cs[i].end <= k)
    && (forall i :: 0 <= i < |cs| - 1 ==> cs[i].end < cs[i + 1].start)
  }

  /** The open group, if any, is the run of non-blank rows ending at row k-1. */
  ghost predicate OpenSoFar(t: Table, k: nat, s: Scan)
    requires 1 <= k <= |t|
  {
    && (s.start.None? ==> s.types == [] && (k == 1 || BlankRow(t[k - 1])))
    && (s.start.Some? ==>
          && 2 <= s.start.value <= k
          && OpensAfterBlank(t, s.start.value)
          && Filled(t, s.start.value - 1, k)
          && s.types == LabelsFrom(t, s.start.value - 1, k)
          && (|s.closed| > 0 ==> s.closed[|s.closed| - 1].end < s.start.value))
  }

  /** What the scan knows after rows 1 .. k-1. */
  ghost predicate ScanInv(t: Table, k: nat, s: Scan)
    requires 1 <= k <= |t|
  {
    ClosedSoFar(t, s.closed, k) && OpenSoFar(t, k, s)
  }

  lemma {:induction false} ScanHolds(t: Table, k: nat)
    requires 1 <= k <= |t|
    ensures ScanInv(t, k, ScanTo(t, k))
    decreases k
  {
    if k > 1 {
      ScanHolds(t, k - 1);
      ScanStepHolds(t, k - 1, ScanTo(t, k - 1));
    }
  }

  /** One turn of the loop keeps what the scan knows. */
  lemma ScanStepHolds(t: Table, k: nat, s: Scan)
    requires 1 <= k < |t| && ScanInv(t, k, s)
    ensures ScanInv(t, k + 1, ScanStep(s, t[k], k))
  {
    if !BlankRow(t[k]) {
      ScanExtends(t, k, s);
    } else if s.start.Some? {
      ScanCloses(t, k, s);
    } else {
      ScanIdles(t, k, s);
    }
  }

  /** A non-blank row opens a group or extends the open one. */
  lemma ScanExtends(t: Table, k: nat, s: Scan)
    requires 1 <= k < |t| && ScanInv(t, k, s) && !BlankRow(t[k])
    ensures ScanInv(t, k + 1, ScanStep(s, t[k], k))
  {
    ClosedLater(t, s.closed, k);
    assert |s.closed| > 0 ==> s.closed[|s.closed| - 1].end <= k;
    OpenExtends(t, k, s);
  }

  lemma ClosedLater(t: Table, cs: seq<Group>, k: nat)
    requires ClosedSoFar(t, cs, k)
    ensures ClosedSoFar(t, cs, k + 1)
  {
  }

  lemma OpenExtends(t: Table, k: nat, s: Scan)
    requires 1 <= k < |t| && OpenSoFar(t, k, s) && !BlankRow(t[k])
    requires |s.closed| > 0 ==> s.closed[|s.closed| - 1].end <= k
    ensures OpenSoFar(t, k + 1, ScanStep(s, t[k], k))
  {
    var st := if s.start.None? then k + 1 else s.start.value;
    assert ScanStep(s, t[k], k) == Scan(s.closed, Some(st), s.types + [Label(t[k])]);
    FilledSnoc(t, st - 1, k);
  }

  lemma FilledSnoc(t: Table, lo: nat, k: nat)
    requires lo <= k < |t| && Filled(t, lo, k) && !BlankRow(t[k])
    ensures Filled(t, lo, k + 1)
  {
  }

  /** A blank row closes the open group. */
  lemma ScanCloses(t: Table, k: nat, s: Scan)
    requires 1 <= k < |t| && ScanInv(t, k, s) && BlankRow(t[k]) && s.start.Some?
    ensures ScanInv(t, k + 1, ScanStep(s, t[k], k))
  {
    var s' := ScanStep(s, t[k], k);
    var g := Group(s.start.value, k + 1, s.types, ClosedName(|s.closed|));
    assert s' == Scan(s.closed + [g], None, []);
    assert ClosedGroup(t, g, |s.closed|);
    ClosedAppend(t, s.closed, g, k);
  }

  lemma ClosedAppend(t: Table, cs: seq<Group>, g: Group, k: nat)
    requires ClosedSoFar(t, cs, k) && ClosedGroup(t, g, |cs|) && g.end == k + 1
    requires |cs| > 0 ==> cs[|cs| - 1].end < g.start
    ensures ClosedSoFar(t, cs + [g], k + 1)
  {
    var gs := cs + [g];
    forall i | 0 <= i < |gs|
      ensures ClosedGroup(t, gs[i], i) && gs[i].end <= k + 1
    {
      if i < |cs| {
        assert gs[i] == cs[i];
      }
    }
  }

  /** A blank row with no group open changes nothing. */
  lemma ScanIdles(t: Table, k: nat, s: Scan)
    requires 1 <= k < |t| && ScanInv(t, k, s) && BlankRow(t[k]) && s.start.None?
    ensures ScanInv(t, k + 1, ScanStep(s, t[k], k))
  {
    ClosedLater(t, s.closed, k);
  }

  /** A group still open once every row has been seen is the trailing one. */
  lemma LeftOpen(t: Table, s: Scan)
    requires 1 <= |t| && OpenSoFar(t, |t|, s) && s.start.Some?
    ensures var g := Group(s.start.value, |t|, s.types, "Camping");
      TrailingGroup(t, g) &&
      (|s.closed| > 0 ==> s.closed[|s.closed| - 1].end < g.start)
  {
  }

  /** Closed groups alone, with nothing left open, are well grouped. */
  lemma ClosedOnly(t: Table, cs: seq<Group>)
    requires ClosedSoFar(t, cs, |t|)
    ensures WellGrouped(t, cs)
    ensures forall i :: 0 <= i < |cs| ==> |cs[i].types| >= 1
  {
  }

  lemma TrailingAppend(t: Table, cs: seq<Group>, g: Group)
    requires ClosedSoFar(t, cs, |t|) && TrailingGroup(t, g)
    requires |cs| > 0 ==> cs[|cs| - 1].end < g.start
    ensures WellGrouped(t, cs + [g])
    ensures forall i :: 0 <= i < |cs| + 1 ==> |(cs + [g])[i].types| >= 1
  {
    var gs := cs + [g];
    forall i | 0 <= i < |gs| - 1
      ensures ClosedGroup(t, gs[i], i) && gs[i].end < gs[i + 1].start
    {
      assert gs[i] == cs[i];
    }
  }

  // ---------------------------------------------------------------------
  // add_totals_and_occupancy_rows

  /** `n` empty-string entries. */
  function Blanks(n: nat): seq<Cell>
  {
    seq(n, _ => Text(""))
  }

  /** `f"Total {name} {year}"`, then "" for the capacity and every day column. */
  function TotalsRow(name: string, year: int, w: nat): seq<Cell>
    requires w >= 2
  {
    [Text("Total " + name + " " + IntText(year)), Text("")] + Blanks(w - 2)
  }

  /** "Πληρότητα", then "" for the capacity and every day column. */
  function OccupancyRow(w: nat): seq<Cell>
    requires w >= 2
  {
    [Text("Πληρότητα"), Text("")] + Blanks(w - 2)
  }

  /**
   * Where the two rows go in a table of n rows.  The totals row gets the
   * fractional label end-1.5 (end-0.5 for the last group) and sort_index puts
   * it before the row labelled end-1 (after it); the occupancy row's label
   * puts it right after the totals row.
   */
  function InsertPoint(g: Group, last: bool, n: nat): (at: nat)
    ensures at <= n
  {
    var p := if last then g.end else g.end - 1;
    if p > n then n else p
  }

  /**
   * add_totals_and_occupancy_rows: the totals and occupancy rows spliced in
   * together.  A table of fewer than two columns cannot take the rows, which
   * always hold two entries, and pandas raises.
   */
  function AddTotalsAndOccupancy(t: Table, w: nat, g: Group, last: bool, year: int): (r: Option<Table>)
    requires Shaped(t, w)
    ensures r.Some? <==> w >= 2
    ensures r.Some? ==> Shaped(r.value, w) && |r.value| == |t| + 2
  {
    if w < 2 then None
    else
      var at := InsertPoint(g, last, |t|);
      Some(t[..at] + [TotalsRow(g.name, year, w), OccupancyRow(w)] + t[at..])
  }

  /** A group as the driver holds it once `d` rows were added above it. */
  function Moved(g: Group, d: nat): Group
  {
    g.(start := g.start + d, end := g.end + d)
  }

  /** The inner loop of the driver: every group from `from` on moves 2 rows down. */
  method ShiftLater(groups: seq<Group>, from: nat) returns (gs: seq<Group>)
    ensures |gs| == |groups|
    ensures forall j :: 0 <= j < |groups| ==> gs[j] == if j >= from then Moved(groups[j], 2) else groups[j]
  {
    gs := groups;
    var j := from;
    while j < |gs|
      invariant |gs| == |groups|
      invariant forall i :: 0 <= i < |groups| ==> gs[i] == if from <= i < j then Moved(groups[i], 2) else groups[i]
    {
      gs := gs[j := Moved(gs[j], 2)];
      j := j + 1;
    }
  }

  /**
   * The table after the driver's loop has handled groups 0 .. k-1; group i
   * is handled as it stands then, moved down by the 2i rows added before.
   */
  function Placed(t: Table, w: nat, gs: seq<Group>, year: int, k: nat): (r: Option<Table>)
    requires Shaped(t, w) && k <= |gs|
    ensures r.Some? <==> w >= 2 || k == 0
    ensures r.Some? ==> Shaped(r.value, w) && |r.value| == |t| + 2 * k
  {
    if k == 0 then Some(t)
    else
      var p := Placed(t, w, gs, year, k - 1);
      if p.None? then None
      else AddTotalsAndOccupancy(p.value, w, Moved(gs[k - 1], 2 * (k - 1)), k - 1 == |gs| - 1, year)
  }

  // ---------------------------------------------------------------------
  // Where the rows land

  /** Group i's insertion point in the original table (before any row was added). */
  function Point(gs: seq<Group>, i: nat): int
    requires i < |gs|
  {
    if i == |gs| - 1 then gs[i].end else gs[i].end - 1
  }

  /** The insertion points lie in the table and strictly increase. */
  ghost predicate Ascending(gs: seq<Group>, n: nat)
  {
    InTable(gs, n) && Increasing(gs)
  }

  ghost predicate InTable(gs: seq<Group>, n: nat)
  {
    forall i :: 0 <= i < |gs| ==> 0 <= Point(gs, i) <= n
  }

  ghost predicate Increasing(gs: seq<Group>)
  {
    forall i, j :: 0 <= i < j < |gs| ==> Point(gs, i) < Point(gs, j)
  }

  /** How many of the groups 0 .. k-1 go in at or above original row r. */
  function Before(gs: seq<Group>, k: nat, r: int): (c: nat)
    requires k <= |gs|
    ensures c <= k
  {
    if k == 0 then 0 else Before(gs, k - 1, r) + (if Point(gs, k - 1) <= r then 1 else 0)
  }

  /** Group i's two rows sit at its insertion point moved down by 2i. */
  ghost predicate RowsPlaced(u: Table, gs: seq<Group>, year: int, w: nat, k: nat)
    requires k <= |gs| && w >= 2
  {
    forall i {:trigger Point(gs, i)} :: 0 <= i < k ==>
                  && 0 <= Point(gs, i) + 2 * i < |u| - 1
                  && u[Point(gs, i) + 2 * i] == TotalsRow(gs[i].name, year, w)
                  && u[Point(gs, i) + 2 * i + 1] == OccupancyRow(w)
  }

  /** Original row r sits 2 rows lower for every group inserted at or above it. */
  ghost predicate RowsKept(u: Table, t: Table, gs: seq<Group>, k: nat)
    requires k <= |gs|
  {
    forall r {:trigger Before(gs, k, r)} :: 0 <= r < |t| ==> r + 2 * Before(gs, k, r) < |u| && u[r + 2 * Before(gs, k, r)] == t[r]
  }

  /**
   * Where the driver's loop puts every row: group i's totals and occupancy
   * rows at its insertion point plus 2i, and every original row 2 lower for
   * each group inserted at or above it.
   */
  lemma {:induction false} Layout(t: Table, w: nat, gs: seq<Group>, year: int, k: nat) returns (u: Table)
    requires Shaped(t, w) && w >= 2 && k <= |gs| && Ascending(gs, |t|)
    ensures Placed(t, w, gs, year, k) == Some(u)
    ensures RowsPlaced(u, gs, year, w, k) && RowsKept(u, t, gs, k)
    decreases k
  {
    if k == 0 {
      u := t;
      assert RowsKept(t, t, gs, 0) by {
        forall r | 0 <= r < |t| ensures Before(gs, 0, r) == 0 { }
      }
    } else {
      var p := Layout(t, w, gs, year, k - 1);
      u := PlacedNext(t, w, gs, year, k, p);
      LayoutStep(t, w, gs, year, k, p, u);
    }
  }

  /** Handling group k-1 splices its two rows in at its point moved down by 2(k-1). */
  lemma PlacedNext(t: Table, w: nat, gs: seq<Group>, year: int, k: nat, p: Table) returns (u: Table)
    requires Shaped(t, w) && w >= 2 && 1 <= k <= |gs| && InTable(gs, |t|)
    requires Placed(t, w, gs, year, k - 1) == Some(p)
    ensures Placed(t, w, gs, year, k) == Some(u)
    ensures u == p[..Point(gs, k - 1) + 2 * (k - 1)] + [TotalsRow(gs[k - 1].name, year, w), OccupancyRow(w)] + p[Point(gs, k - 1) + 2 * (k - 1)..]
  {
    assert InsertPoint(Moved(gs[k - 1], 2 * (k - 1)), k - 1 == |gs| - 1, |p|) == Point(gs, k - 1) + 2 * (k - 1);
    u := Placed(t, w, gs, year, k).value;
  }

  /** The rows of p, with a and b spliced in at `at`. */
  lemma Spliced(p: Table, at: nat, a: seq<Cell>, b: seq<Cell>, u: Table)
    requires at <= |p| && u == p[..at] + [a, b] + p[at..]
    ensures |u| == |p| + 2 && u[at] == a && u[at + 1] == b
    ensures forall x :: 0 <= x < at ==> u[x] == p[x]
    ensures forall x :: at <= x < |p| ==> u[x + 2] == p[x]
  {
  }

  lemma LayoutStep(t: Table, w: nat, gs: seq<Group>, year: int, k: nat, p: Table, u: Table)
    requires w >= 2 && 1 <= k <= |gs| && Ascending(gs, |t|)
    requires |p| == |t| + 2 * (k - 1) && RowsPlaced(p, gs, year, w, k - 1) && RowsKept(p, t, gs, k - 1)
    requires u == p[..Point(gs, k - 1) + 2 * (k - 1)] + [TotalsRow(gs[k - 1].name, year, w), OccupancyRow(w)] + p[Point(gs, k - 1) + 2 * (k - 1)..]
    ensures RowsPlaced(u, gs, year, w, k)
    ensures RowsKept(u, t, gs, k)
  {
    var at := Point(gs, k - 1) + 2 * (k - 1);
    Spliced(p, at, TotalsRow(gs[k - 1].name, year, w), OccupancyRow(w), u);
    PlacedStep(t, w, gs, year, k, p, u);
    KeptStep(t, gs, k, p, u);
  }

  /** The rows of groups already handled lie above the new ones and stay. */
  lemma PlacedStep(t: Table, w: nat, gs: seq<Group>, year: int, k: nat, p: Table, u: Table)
    requires w >= 2 && 1 <= k <= |gs| && Ascending(gs, |t|)
    requires |p| == |t| + 2 * (k - 1) && RowsPlaced(p, gs, year, w, k - 1)
    requires var at := Point(gs, k - 1) + 2 * (k - 1);
      && |u| == |p| + 2 && u[at] == TotalsRow(gs[k - 1].name, year, w) && u[at + 1] == OccupancyRow(w)
      && forall x :: 0 <= x < at ==> u[x] == p[x]
    ensures RowsPlaced(u, gs, year, w, k)
  {
    forall i | 0 <= i < k
      ensures 0 <= Point(gs, i) + 2 * i < |u| - 1
      ensures u[Point(gs, i) + 2 * i] == TotalsRow(gs[i].name, year, w)
      ensures u[Point(gs, i) + 2 * i + 1] == OccupancyRow(w)
    {
      if i < k - 1 {
        assert Point(gs, i) < Point(gs, k - 1);
      }
    }
  }

  /** An original row moves down by 2 exactly when the new rows go in at or above it. */
  lemma KeptStep(t: Table, gs: seq<Group>, k: nat, p: Table, u: Table)
    requires 1 <= k <= |gs| && Ascending(gs, |t|)
    requires |p| == |t| + 2 * (k - 1) && RowsKept(p, t, gs, k - 1)
    requires var at := Point(gs, k - 1) + 2 * (k - 1);
      && |u| == |p| + 2
      && (forall x :: 0 <= x < at ==> u[x] == p[x])
      && (forall x :: at <= x < |p| ==> u[x + 2] == p[x])
    ensures RowsKept(u, t, gs, k)
  {
    forall r | 0 <= r < |t|
      ensures r + 2 * Before(gs, k, r) < |u| && u[r + 2 * Before(gs, k, r)] == t[r]
    {
      if Point(gs, k - 1) <= r {
        BeforeAll(gs, k - 1, r);
      }
    }
  }

  /** Every group before k goes in above group k. */
  lemma {:induction false} BeforeAll(gs: seq<Group>, k: nat, r: int)
    requires k < |gs| && Increasing(gs) && Point(gs, k) <= r
    ensures Before(gs, k, r) == k
    decreases k
  {
    if k > 0 {
      BeforeAll(gs, k - 1, r);
    }
  }

  /** Group i goes in below row r and above group i+1: it is counted from its own point on. */
  lemma {:induction false} BeforeAt(gs: seq<Group>, k: nat, i: nat)
    requires Increasing(gs) && i < k <= |gs|
    ensures Before(gs, k, Point(gs, i)) == i + 1
    ensures Before(gs, k, Point(gs, i) - 1) == i
    decreases k
  {
    if k == i + 1 {
      if i > 0 {
        BeforeAll(gs, i - 1, Point(gs, i) - 1);
        BeforeAll(gs, i - 1, Point(gs, i));
      }
    } else {
      BeforeAt(gs, k - 1, i);
    }
  }

  /** Insertion points that increase step by step increase throughout. */
  lemma Chained(gs: seq<Group>)
    requires forall i :: 0 <= i < |gs| - 1 ==> Point(gs, i) < Point(gs, i + 1)
    ensures Increasing(gs)
  {
    forall i, j | 0 <= i < j < |gs|
      ensures Point(gs, i) < Point(gs, j)
    {
      ChainedFrom(gs, i, j);
    }
  }

  lemma {:induction false} ChainedFrom(gs: seq<Group>, i: nat, j: nat)
    requires forall i :: 0 <= i < |gs| - 1 ==> Point(gs, i) < Point(gs, i + 1)
    requires i < j < |gs|
    ensures Point(gs, i) < Point(gs, j)
    decreases j - i
  {
    if j > i + 1 {
      ChainedFrom(gs, i, j - 1);
    }
  }

  /**
   * The detected groups give insertion points inside the table that strictly
   * increase: each closed group's blank delimiter, and for the last group
   * the row after its end row.
   */
  lemma DetectedAscending(t: Table)
    ensures Ascending(DetectGroups(t), |t|)
  {
    GroupedAscending(t, DetectGroups(t));
  }

  /** Well-grouped groups have insertion points in the table, increasing. */
  lemma GroupedAscending(t: Table, gs: seq<Group>)
    requires WellGrouped(t, gs)
    ensures Ascending(gs, |t|)
  {
    forall i | 0 <= i < |gs| - 1
      ensures Point(gs, i) < Point(gs, i + 1)
    {
      GroupedStep(t, gs, i);
    }
    Chained(gs);
    forall i | 0 <= i < |gs|
      ensures 0 <= Point(gs, i) <= |t|
    {
      GroupedPoint(t, gs, i);
    }
  }

  lemma GroupedStep(t: Table, gs: seq<Group>, i: nat)
    requires WellGrouped(t, gs) && i < |gs| - 1
    ensures Point(gs, i) < Point(gs, i + 1)
  {
    assert ClosedGroup(t, gs[i], i);
    if i + 1 < |gs| - 1 {
      assert ClosedGroup(t, gs[i + 1], i + 1);
    }
  }

  lemma GroupedPoint(t: Table, gs: seq<Group>, i: nat)
    requires WellGrouped(t, gs) && i < |gs|
    ensures 0 <= Point(gs, i) <= |t|
  {
    if i < |gs| - 1 {
      assert ClosedGroup(t, gs[i], i);
    }
  }

  /**
   * add_totals_and_occupancy_rows over the detected groups, as the driver
   * calls it: group i's totals and occupancy rows land at its insertion
   * point moved down by the 2i rows added before it.
   */
  lemma DetectedLayout(t: Table, w: nat, year: int) returns (u: Table)
    requires Shaped(t, w) && w >= 2
    ensures Placed(t, w, DetectGroups(t), year, |DetectGroups(t)|) == Some(u)
    ensures RowsPlaced(u, DetectGroups(t), year, w, |DetectGroups(t)|)
    ensures RowsKept(u, t, DetectGroups(t), |DetectGroups(t)|)
  {
    DetectedAscending(t);
    u := Layout(t, w, DetectGroups(t), year, |DetectGroups(t)|);
  }

  /**
   * A group other than the last gets its two rows between its last data row
   * and its blank delimiter.
   */
  lemma ClosedGroupFramed(t: Table, w: nat, year: int, i: nat) returns (u: Table)
    requires Shaped(t, w) && w >= 2 && i < |DetectGroups(t)| - 1
    ensures Placed(t, w, DetectGroups(t), year, |DetectGroups(t)|) == Some(u)
    ensures var g := DetectGroups(t)[i];
      && 3 <= g.end <= |t| && !BlankRow(t[g.end - 2]) && BlankRow(t[g.end - 1])
      && Framed(u, t, g.end, i, TotalsRow(g.name, year, w), OccupancyRow(w))
  {
    var gs := DetectGroups(t);
    DetectedClosed(t, i);
    assert Increasing(gs) by {
      DetectedAscending(t);
    }
    u := DetectedLayout(t, w, year);
    FramedAt(t, w, gs, year, u, i, gs[i].end);
  }

  /** Group i of the detected groups, when not the last, is closed. */
  lemma DetectedClosed(t: Table, i: nat)
    requires i < |DetectGroups(t)| - 1
    ensures ClosedGroup(t, DetectGroups(t)[i], i)
  {
  }

  /**
   * Around original row e-1 (2 <= e <= |t|), moved down by 2i: the row above
   * it, then the totals and occupancy rows, then the row itself.
   */
  ghost predicate Framed(u: Table, t: Table, e: nat, i: nat, totals: seq<Cell>, occupancy: seq<Cell>)
  {
    && 2 <= e <= |t| && e + 2 * i + 1 < |u|
    && u[e - 2 + 2 * i] == t[e - 2]
    && u[e - 1 + 2 * i] == totals
    && u[e + 2 * i] == occupancy
    && u[e + 2 * i + 1] == t[e - 1]
  }

  /** The rows around a group's insertion point e-1 once all groups are in. */
  lemma FramedAt(t: Table, w: nat, gs: seq<Group>, year: int, u: Table, i: nat, e: nat)
    requires w >= 2 && Increasing(gs) && i < |gs| && Point(gs, i) == e - 1 && 2 <= e <= |t|
    requires RowsPlaced(u, gs, year, w, |gs|) && RowsKept(u, t, gs, |gs|)
    ensures Framed(u, t, e, i, TotalsRow(gs[i].name, year, w), OccupancyRow(w))
  {
    BeforeAt(gs, |gs|, i);
    KeptAt(u, t, gs, |gs|, e - 2, i);
    assert u[e - 2 + 2 * i] == t[e - 2];
    KeptAt(u, t, gs, |gs|, e - 1, i + 1);
    assert u[e - 1 + 2 * (i + 1)] == t[e - 1];
    PlacedAt(u, gs, year, w, |gs|, i);
    assert u[e - 1 + 2 * i] == TotalsRow(gs[i].name, year, w);
    assert u[e - 1 + 2 * i + 1] == OccupancyRow(w);
  }

  lemma KeptAt(u: Table, t: Table, gs: seq<Group>, k: nat, r: nat, b: nat)
    requires k <= |gs| && RowsKept(u, t, gs, k) && r < |t| && b == Before(gs, k, r)
    ensures r + 2 * b < |u| && u[r + 2 * b] == t[r]
  {
  }

  lemma PlacedAt(u: Table, gs: seq<Group>, year: int, w: nat, k: nat, i: nat)
    requires k <= |gs| && w >= 2 && RowsPlaced(u, gs, year, w, k) && i < k
    ensures 0 <= Point(gs, i) + 2 * i < |u| - 1
    ensures u[Point(gs, i) + 2 * i] == TotalsRow(gs[i].name, year, w)
    ensures u[Point(gs, i) + 2 * i + 1] == OccupancyRow(w)
  {
  }

  /** The trailing "Camping" group's two rows are the last rows of the table. */
  lemma TrailingGroupLast(t: Table, w: nat, year: int, u: Table)
    requires Shaped(t, w) && w >= 2 && |DetectGroups(t)| > 0
    requires TrailingGroup(t, DetectGroups(t)[|DetectGroups(t)| - 1])
    requires Placed(t, w, DetectGroups(t), year, |DetectGroups(t)|) == Some(u)
    ensures |u| >= 2 && u[|u| - 2] == TotalsRow("Camping", year, w) && u[|u| - 1] == OccupancyRow(w)
  {
    var gs := DetectGroups(t);
    DetectedAscending(t);
    var v := Layout(t, w, gs, year, |gs|);
    assert Point(gs, |gs| - 1) == |t|;
  }

  // ---------------------------------------------------------------------
  // The driver

  /**
   * The "Total" column: `df[n] = ""` puts "" in every row and row 0 gets
   * "Total".  The loop that follows writes "" into labelled rows other than
   * "Πληρότητα", which already hold it, so it leaves the column as it is.
   * On a table with no rows, `df.at[0, n]` adds row 0.
   */
  function TotalColumn(t: Table, w: nat): (u: Table)
    requires Shaped(t, w)
    ensures Shaped(u, w + 1) && |u| == if |t| == 0 then 1 else |t|
    ensures forall i :: 0 <= i < |t| ==> u[i][..w] == t[i]
    ensures u[0][w] == Text("Total")
    ensures forall i :: 1 <= i < |u| ==> u[i][w] == Text("")
  {
    if |t| == 0 then [seq(w, _ => Empty) + [Text("Total")]]
    else seq(|t|, i requires 0 <= i < |t| => t[i] + [if i == 0 then Text("Total") else Text("")])
  }

  /**
   * per_zone_stage4 on a table of width w: None when pandas raises, which
   * happens exactly when there is a group and the table is narrower than two
   * columns.  Otherwise every group adds two rows and the Total column is
   * one more column, headed "Total".
   */
  function Stage4(t: Table, w: nat, year: int): (r: Option<Table>)
    requires Shaped(t, w)
    ensures r.Some? <==> w >= 2 || DetectGroups(t) == []
    ensures r.Some? ==> |r.value| == if |t| == 0 then 1 else |t| + 2 * |DetectGroups(t)|
    ensures r.Some? ==> Shaped(r.value, w + 1) && r.value[0][w] == Text("Total")
  {
    var gs := DetectGroups(t);
    var p := Placed(t, w, gs, year, |gs|);
    if p.None? then None else Some(TotalColumn(p.value, w))
  }

  /** per_zone_stage4: detect the groups, add their rows, then the Total column. */
  method ProcessStage4(t: Table, w: nat, year: int) returns (r: Option<Table>)
    requires Shaped(t, w)
    ensures r == Stage4(t, w, year)
  {
    var groups := FindGroups(t);
    r := AddGroupRows(t, w, groups, year);
  }

  /** The driver's loop over the groups, each moved down by the rows added before it, then the Total column. */
  method AddGroupRows(t: Table, w: nat, gs: seq<Group>, year: int) returns (r: Option<Table>)
    requires Shaped(t, w)
    ensures var p := Placed(t, w, gs, year, |gs|);
      r == if p.None? then None else Some(TotalColumn(p.value, w))
  {
    var groups := gs;
    var df := t;
    var i := 0;
    while i < |groups|
      invariant 0 <= i <= |groups| == |gs|
      invariant Placed(t, w, gs, year, i) == Some(df)
      invariant forall j :: i <= j < |gs| ==> groups[j] == Moved(gs[j], 2 * i)
    {
      var next := AddTotalsAndOccupancy(df, w, groups[i], i == |groups| - 1, year);
      if next.None? {
        return None;
      }
      df := next.value;
      groups := ShiftLater(groups, i + 1);
      i := i + 1;
    }
    r := Some(TotalColumn(df, w));
  }
}
