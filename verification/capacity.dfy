/**
 * Stage 3 of the per-zone pipeline: column 1 of the zone table receives the
 * capacity of each accommodation type and camping area, from two fixed
 * tables.  Accommodation labels are matched as they are; camping labels are
 * first stripped, have Greek Ζ and Κ turned into Latin Z and K, and get the
 * prefix "area " when they lack it.
 *
 * per_zone_per_type_stage3.py and per_zone_stage3.py compute the same
 * thing; the first wraps each function in a handler that returns its input
 * unchanged, and none of these operations raises on a table that loaded.
 */
module Capacity {
  import opened Cells

  const AccommodationCapacities: map<string, int> := map[
    "APT" := 2, "Beach" := 3, "for2" := 7, "for5" := 14, "for6" := 5,
    ".LUX for 4" := 51, ".Safari Tent 5pax" := 12, ".Sea Safari 4pax" := 31,
    ".Skyline 3pax" := 11, ".Standard Mobile Home" := 31,
    ".ΤΡΟΧΟΣΠΙΤΑ DELUXE" := 8, ".ΤΡΟΧΟΣΠΙΤΑ SEA VIEW" := 24, ".ΤΡΟΧΟΣΠΙΤΑ standard" := 8
  ]

  const CampingCapacities: map<string, int> := map[
    "area 1" := 0, "area 2" := 20, "area 3" := 81, "area 4" := 23, "area 5" := 44,
    "area 6" := 11, "area 7" := 32, "area Z" := 27, "area K" := 80,
    "area Δ" := 12, "area Ε" := 14, "area Ι" := 4
  ]

  /** The two calls of update_capacity_column. */
  datatype Kind = Accommodations | CampingAreas

  function Capacities(kind: Kind): map<string, int>
  {
    match kind
    case Accommodations => AccommodationCapacities
    case CampingAreas => CampingCapacities
  }

  // ---------------------------------------------------------------------
  // Name normalisation

  /** GREEK_TO_ENGLISH on one character: Greek capital Zeta and Kappa only. */
  function Latin(ch: char): char
  {
    if ch == 'Ζ' then 'Z' else if ch == 'Κ' then 'K' else ch
  }

  function ToLatin(s: string): (r: string)
  {
    seq(|s|, i requires 0 <= i < |s| => Latin(s[i]))
  }

  /** The replacement neither makes nor removes white space. */
  lemma LatinSpace(ch: char)
    ensures IsSpace(Latin(ch)) <==> IsSpace(ch)
  {
  }

  /** normalize_letters on the text of a cell: stripped, then Ζ and Κ replaced. */
  function Letters(s: string): (r: string)
    ensures |r| == |Strip(s)|
  {
    ToLatin(Strip(s))
  }

  /** normalize_letters: `None` for NaN, otherwise the letters of `str(name)`. */
  function NormalizeLetters(c: Cell): (r: Option<string>)
    ensures r.None? <==> c.Empty?
  {
    if c.Empty? then None else Some(Letters(Render(c)))
  }

  /**
   * What normalize_letters returns is the stripped text, character for
   * character, except that no Greek Ζ or Κ is left; and it is already
   * stripped.
   */
  lemma LettersNormalised(s: string)
    ensures var t := Strip(s);
      var r := Letters(s);
      && (forall i :: 0 <= i < |r| ==> r[i] == Latin(t[i]))
      && (forall i :: 0 <= i < |r| ==> r[i] != 'Ζ' && r[i] != 'Κ')
      && Strip(r) == r
  {
    StripIdempotent(s);
    LatinStripped(Strip(s));
  }

  /** normalize_camping_area_name on a name that is not NaN. */
  function AreaName(s: string): (r: string)
    ensures StartsWith(r, "area ")
  {
    var n := Strip(s);
    if StartsWith(n, "area ") then n else "area " + n
  }

  function NormalizeCampingAreaName(name: Option<string>): (r: Option<string>)
    ensures r.None? <==> name.None?
    ensures r.Some? ==> r.value == AreaName(name.value)
  {
    match name
    case None => None
    case Some(s) => Some(AreaName(s))
  }

  /** A stripped name without the prefix gets it. */
  lemma Prefixed(n: string)
    requires Strip(n) == n && !StartsWith(n, "area ")
    ensures AreaName(n) == "area " + n
  {
  }

  /** A one-character name that is not white space is already stripped. */
  lemma StripOne(ch: char)
    requires !IsSpace(ch)
    ensures Strip([ch]) == [ch]
  {
    StripKeeps([ch]);
  }

  /** Naming an area twice names it once, for any name that is not blank. */
  lemma AreaNameIdempotent(s: string)
    requires Strip(s) != []
    ensures AreaName(AreaName(s)) == AreaName(s)
  {
    var n := Strip(s);
    StripIdempotent(s);
    if !StartsWith(n, "area ") {
      StripEnds(s);
      var r := "area " + n;
      assert r[0] == 'a' && r[|r| - 1] == n[|n| - 1];
      StripKeeps(r);
    }
  }

  /**
   * A blank name is where idempotence stops: it becomes "area ", whose
   * trailing space `strip()` removes, so a second call prefixes it again.
   */
  lemma AreaNameBlank()
    ensures AreaName("") == "area "
    ensures AreaName(AreaName("")) == "area area"
  {
    assert Strip("") == "";
    var r := "area ";
    assert TrimLeft(r) == r;
    assert TrimRight(r[..4]) == "area";
    assert Strip(r) == "area";
    assert !StartsWith("area", "area ");
  }

  // ---------------------------------------------------------------------
  // Lookup

  /**
   * The key a label is looked up under (`None`: the row is skipped):
   * accommodations use the label as it is, camping areas the normalised
   * area name.
   */
  function Key(category: Cell, kind: Kind): (r: Option<string>)
    ensures kind.Accommodations? ==> (r.Some? <==> category.Text?)
    ensures kind.CampingAreas? ==> (r.Some? <==> !category.Empty?)
  {
    match kind
    case Accommodations => if category.Text? then Some(category.s) else None
    case CampingAreas => NormalizeCampingAreaName(NormalizeLetters(category))
  }

  /** A camping label that is text is looked up under the area name of its letters. */
  lemma CampingTextKey(s: string)
    ensures Key(Text(s), CampingAreas) == Some(AreaName(Letters(s)))
  {
  }

  /** Only Greek Zeta and Kappa are replaced; every other character, Δ, Ε and Ι among them, stays. */
  lemma LatinChanges(ch: char)
    ensures Latin(ch) != ch <==> ch == 'Ζ' || ch == 'Κ'
  {
  }

  /** Stripped text stays stripped when its letters are replaced. */
  lemma LatinStripped(s: string)
    requires Strip(s) == s
    ensures Strip(ToLatin(s)) == ToLatin(s)
  {
    var r := ToLatin(s);
    StripEnds(s);
    if r != [] {
      LatinSpace(s[0]);
      LatinSpace(s[|s| - 1]);
    }
    StripKeeps(r);
  }

  /** A stripped name shorter than the prefix gets it. */
  lemma PrefixedShort(n: string)
    requires Strip(n) == n && |n| < 5
    ensures AreaName(n) == "area " + n
  {
  }

  /** A one-letter camping label is looked up as "area " and that letter in Latin form. */
  lemma OneLetter(ch: char)
    requires !IsSpace(ch)
    ensures AreaName(Letters([ch])) == "area " + [Latin(ch)]
  {
    var x := Latin(ch);
    LettersOfOne(ch);
    LatinSpace(ch);
    StripOne(x);
    PrefixedShort([x]);
  }

  lemma LettersOfOne(ch: char)
    requires !IsSpace(ch)
    ensures Letters([ch]) == [Latin(ch)]
  {
    StripOne(ch);
    ToLatinOne(ch);
  }

  lemma ToLatinOne(ch: char)
    ensures ToLatin([ch]) == [Latin(ch)]
  {
    assert ToLatin([ch])[0] == Latin(ch);
  }

  /** Greek Zeta and Latin Z both find "area Z". */
  lemma ZetaSpellings(ch: char)
    requires ch == 'Ζ' || ch == 'Z'
    ensures AreaName(Letters([ch])) == "area Z" && "area Z" in CampingCapacities
  {
    OneLetter(ch);
    assert Latin(ch) == 'Z';
  }

  /** Greek Kappa and Latin K both find "area K". */
  lemma KappaSpellings(ch: char)
    requires ch == 'Κ' || ch == 'K'
    ensures AreaName(Letters([ch])) == "area K" && "area K" in CampingCapacities
  {
    OneLetter(ch);
    assert Latin(ch) == 'K';
  }

  /** Greek Delta, Epsilon and Iota, which are not replaced, find their areas. */
  lemma UnmappedGreek(ch: char)
    requires ch == 'Δ' || ch == 'Ε' || ch == 'Ι'
    ensures AreaName(Letters([ch])) == "area " + [ch] && "area " + [ch] in CampingCapacities
  {
    OneLetter(ch);
    GreekAreas(ch);
  }

  lemma GreekAreas(ch: char)
    requires ch == 'Δ' || ch == 'Ε' || ch == 'Ι'
    ensures Latin(ch) == ch && "area " + [ch] in CampingCapacities
  {
    if ch == 'Δ' {
      assert "area " + [ch] == "area Δ";
    } else if ch == 'Ε' {
      assert "area " + [ch] == "area Ε";
    } else {
      assert "area " + [ch] == "area Ι";
    }
  }

  /** Their Latin look-alikes D, E and I find nothing. */
  lemma LatinLookalikes(ch: char)
    requires ch == 'D' || ch == 'E' || ch == 'I'
    ensures AreaName(Letters([ch])) == "area " + [ch] && "area " + [ch] !in CampingCapacities
  {
    OneLetter(ch);
    var k := "area " + [ch];
    forall a | a in CampingCapacities ensures a != k {
      assert |a| != |k| || a[5] != k[5];
    }
  }

  lemma ToLatinConcat(a: string, b: string)
    ensures ToLatin(a + b) == ToLatin(a) + ToLatin(b)
  {
  }

  /**
   * A label that already carries the prefix finds the same area as the
   * bare name: "area Ζ" and "Ζ" both find "area Z".
   */
  lemma PrefixedSpelling(n: string)
    requires Strip(n) == n && n != [] && !StartsWith(ToLatin(n), "area ")
    ensures AreaName(Letters("area " + n)) == AreaName(Letters(n))
  {
    LettersPrefixed(n);
    LatinStripped(n);
    KeepsPrefix(ToLatin(n));
  }

  /** The letters of a prefixed stripped name are the prefix and the name's letters. */
  lemma LettersPrefixed(n: string)
    requires Strip(n) == n && n != []
    ensures Letters("area " + n) == "area " + ToLatin(n)
    ensures Letters(n) == ToLatin(n)
  {
    PrefixStripped(n);
    ToLatinConcat("area ", n);
    assert ToLatin("area ") == "area ";
  }

  /** Prefixing a stripped, non-empty name keeps it stripped. */
  lemma PrefixStripped(n: string)
    requires Strip(n) == n && n != []
    ensures Strip("area " + n) == "area " + n
  {
    var p := "area " + n;
    StripEnds(n);
    assert p[|p| - 1] == n[|n| - 1];
    StripKeeps(p);
  }

  /** Both spellings of a stripped name end as the prefixed name. */
  lemma KeepsPrefix(m: string)
    requires Strip(m) == m && m != [] && !StartsWith(m, "area ")
    ensures AreaName("area " + m) == "area " + m && AreaName(m) == "area " + m
  {
    PrefixStripped(m);
  }

  // ---------------------------------------------------------------------
  // update_capacity_column

  /**
   * The key under which a row is found: its label's key, when the table
   * of capacities holds it.
   */
  function Hit(row: seq<Cell>, norm: Cell -> Option<string>, caps: map<string, int>): Option<string>
    requires |row| >= 1
  {
    var k := norm(row[0]);
    if k.Some? && k.value in caps then k else None
  }

  /** The key each row is found under, row by row. */
  function Keys(t: Table, norm: Cell -> Option<string>, caps: map<string, int>): (r: seq<Option<string>>)
    requires forall i :: 0 <= i < |t| ==> |t[i]| >= 1
    ensures |r| == |t| && Found(r, caps)
    ensures forall i :: 0 <= i < |t| ==> r[i] == Hit(t[i], norm, caps)
  {
    seq(|t|, i requires 0 <= i < |t| => Hit(t[i], norm, caps))
  }

  /** Every key found is in the table of capacities. */
  predicate Found(keys: seq<Option<string>>, caps: map<string, int>)
  {
    forall i :: 0 <= i < |keys| && keys[i].Some? ==> keys[i].value in caps
  }

  /**
   * A row after the pass, the table being `width` columns wide by then: it
   * is padded with empty cells up to that width and, when it has been
   * handled and was found, column 1 holds the capacity.
   */
  function Written(row: seq<Cell>, key: Option<string>, caps: map<string, int>, width: nat): (r: seq<Cell>)
    requires 1 <= |row| <= width && (key.Some? ==> 2 <= width && key.value in caps)
    ensures |r| == width
  {
    var padded := row + seq(width - |row|, _ => Empty);
    if key.Some? then padded[1 := Num(caps[key.value] as real)] else padded
  }

  /** Some row before `n` was found. */
  predicate HitBefore(keys: seq<Option<string>>, n: nat)
    requires n <= |keys|
  {
    exists j :: 0 <= j < n && keys[j].Some?
  }

  /**
   * How wide the table is once rows before `n` are handled: a table with no
   * column 1 gains one at the first write (`df.at` enlarges the frame).
   */
  function WidthAfter(keys: seq<Option<string>>, n: nat, w: nat): nat
    requires n <= |keys|
  {
    if w < 2 && HitBefore(keys, n) then 2 else w
  }

  /** The rows, those before `n` handled, at the given width. */
  function Rows(t: Table, n: nat, keys: seq<Option<string>>, caps: map<string, int>, w: nat, width: nat): (r: Table)
    requires n <= |t| == |keys| && 1 <= w <= width && Shaped(t, w) && Found(keys, caps)
    requires HitBefore(keys, n) ==> 2 <= width
    ensures |r| == |t| && Shaped(r, width)
  {
    seq(|t|, i requires 0 <= i < |t| => Written(t[i], if i < n then keys[i] else None, caps, width))
  }

  /** The pass over the whole table, with a given way of finding keys. */
  function Pass(t: Table, w: nat, norm: Cell -> Option<string>, caps: map<string, int>): (r: Table)
    requires w >= 1 && Shaped(t, w)
    ensures |r| == |t| && Shaped(r, WidthAfter(Keys(t, norm, caps), |t|, w))
  {
    var keys := Keys(t, norm, caps);
    Rows(t, |t|, keys, caps, w, WidthAfter(keys, |t|, w))
  }

  /**
   * The table widens only when it has no column 1 and some row is found;
   * it then gains exactly that column.
   */
  lemma PassWidth(t: Table, w: nat, norm: Cell -> Option<string>, caps: map<string, int>)
    requires w >= 1 && Shaped(t, w)
    ensures Shaped(Pass(t, w, norm, caps), if w < 2 && exists i :: 0 <= i < |t| && Hit(t[i], norm, caps).Some? then 2 else w)
  {
    var keys := Keys(t, norm, caps);
    if HitBefore(keys, |t|) {
      var i :| 0 <= i < |t| && keys[i].Some?;
      assert Hit(t[i], norm, caps).Some?;
    }
  }

  /**
   * Row by row, the pass changes only column 1 of the rows found, which
   * then hold their capacity; every other cell keeps its value, and cells
   * added by widening are empty.
   */
  lemma PassRow(t: Table, w: nat, norm: Cell -> Option<string>, caps: map<string, int>, i: nat)
    requires w >= 1 && Shaped(t, w) && i < |t|
    ensures var r := Pass(t, w, norm, caps);
      var k := Hit(t[i], norm, caps);
      && (k.Some? ==> 2 <= |r[i]| && r[i][1] == Num(caps[k.value] as real))
      && (forall j :: 0 <= j < |r[i]| && (k.None? || j != 1) ==> r[i][j] == (if j < w then t[i][j] else Empty))
  {
  }

  /** The labels in column 0 are never written. */
  lemma PassKeepsLabels(t: Table, w: nat, norm: Cell -> Option<string>, caps: map<string, int>)
    requires w >= 1 && Shaped(t, w)
    ensures var r := Pass(t, w, norm, caps);
      forall i :: 0 <= i < |t| ==> |r[i]| >= 1 && r[i][0] == t[i][0]
  {
    var r := Pass(t, w, norm, caps);
    forall i | 0 <= i < |t| ensures |r[i]| >= 1 && r[i][0] == t[i][0] {
      PassRow(t, w, norm, caps, i);
    }
  }

  /** A second pass finds the same rows and writes the same values: the pass is idempotent. */
  lemma PassIdempotent(t: Table, w: nat, norm: Cell -> Option<string>, caps: map<string, int>)
    requires w >= 1 && Shaped(t, w)
    ensures var r := Pass(t, w, norm, caps);
      Shaped(r, WidthAfter(Keys(t, norm, caps), |t|, w))
      && Pass(r, WidthAfter(Keys(t, norm, caps), |t|, w), norm, caps) == r
  {
    var keys := Keys(t, norm, caps);
    var width := WidthAfter(keys, |t|, w);
    var r := Pass(t, w, norm, caps);
    PassKeepsLabels(t, w, norm, caps);
    var keys' := Keys(r, norm, caps);
    assert keys' == keys by {
      forall i | 0 <= i < |t| ensures keys'[i] == keys[i] {
        assert r[i][0] == t[i][0];
      }
    }
    var r' := Pass(r, width, norm, caps);
    assert WidthAfter(keys, |t|, width) == width;
    forall i | 0 <= i < |t| ensures r'[i] == r[i] {
      RewriteRow(t[i], keys[i], caps, w, width);
    }
  }

  /** Writing a row a second time, at its own width, leaves it as it is. */
  lemma RewriteRow(row: seq<Cell>, key: Option<string>, caps: map<string, int>, w: nat, width: nat)
    requires 1 <= |row| == w <= width && (key.Some? ==> 2 <= width && key.value in caps)
    ensures Written(Written(row, key, caps, width), key, caps, width) == Written(row, key, caps, width)
  {
    var once := Written(row, key, caps, width);
    assert once + seq(0, _ => Empty) == once;
  }

  /** How each kind of label is turned into a key. */
  function Normaliser(kind: Kind): Cell -> Option<string>
  {
    c => Key(c, kind)
  }

  /** The capacity pass of one kind over the whole table. */
  function CapacityPass(t: Table, kind: Kind, w: nat): (r: Table)
    requires w >= 1 && Shaped(t, w)
    ensures |r| == |t|
  {
    Pass(t, w, Normaliser(kind), Capacities(kind))
  }

  /** per_zone_per_type_stage3: accommodations first, then camping areas. */
  function Stage3(t: Table, w: nat): (r: Table)
    requires w >= 1 && Shaped(t, w)
    ensures |r| == |t|
  {
    var a := CapacityPass(t, Accommodations, w);
    CapacityPass(a, CampingAreas, WidthAfter(Keys(t, Normaliser(Accommodations), AccommodationCapacities), |t|, w))
  }

  /** The two passes of stage 3 over a loaded table of `w` columns. */
  method PerZoneStage3(t: Table, w: nat) returns (df: Table)
    requires w >= 1 && Shaped(t, w)
    ensures df == Stage3(t, w)
  {
    var accommodations, found := UpdateCapacityColumn(t, w, Accommodations);
    var width := if w < 2 && found != {} then 2 else w;
    FoundWidth(t, w, Normaliser(Accommodations), AccommodationCapacities, found);
    var areas;
    df, areas := UpdateCapacityColumn(accommodations, width, CampingAreas);
  }

  /** Some key was collected exactly when some row was found. */
  lemma FoundWidth(t: Table, w: nat, norm: Cell -> Option<string>, caps: map<string, int>, found: set<string>)
    requires forall i :: 0 <= i < |t| ==> |t[i]| >= 1
    requires forall k :: k in found <==> exists i :: 0 <= i < |t| && Hit(t[i], norm, caps) == Some(k)
    ensures WidthAfter(Keys(t, norm, caps), |t|, w) == if w < 2 && found != {} then 2 else w
  {
    var keys := Keys(t, norm, caps);
    if found != {} {
      var k :| k in found;
      var i :| 0 <= i < |t| && Hit(t[i], norm, caps) == Some(k);
      assert keys[i].Some?;
    }
    if HitBefore(keys, |t|) {
      var i :| 0 <= i < |t| && keys[i].Some?;
      assert keys[i].value in found;
    }
  }

  /** Accommodation rows are found only by a label equal to a key. */
  lemma ExactAccommodations(row: seq<Cell>, k: string)
    requires |row| >= 1
    ensures Hit(row, Normaliser(Accommodations), AccommodationCapacities) == Some(k)
      <==> row[0] == Text(k) && k in AccommodationCapacities
  {
  }

  /** Camping rows whose label is NaN are skipped. */
  lemma EmptyAreaSkipped(row: seq<Cell>)
    requires |row| >= 1 && row[0] == Empty
    ensures Hit(row, Normaliser(CampingAreas), CampingCapacities) == None
  {
  }

  /** "Ζ", "Z" and "area Ζ" all find area Z. */
  lemma ZetaLabels()
    ensures Key(Text("Ζ"), CampingAreas) == Some("area Z")
    ensures Key(Text("Z"), CampingAreas) == Some("area Z")
    ensures Key(Text("area Ζ"), CampingAreas) == Some("area Z")
  {
    CampingTextKey("Ζ");
    CampingTextKey("Z");
    CampingTextKey("area Ζ");
    ZetaSpellings('Ζ');
    ZetaSpellings('Z');
    ZetaPrefixed();
  }

  lemma ZetaPrefixed()
    ensures AreaName(Letters("area Ζ")) == "area Z"
  {
    StripOne('Ζ');
    ToLatinOne('Ζ');
    ZetaSpellings('Ζ');
    PrefixedSpelling("Ζ");
    assert "area " + "Ζ" == "area Ζ";
  }

  /**
   * update_capacity_column: one row at a time, write the capacity of each
   * row that is found, and collect the keys that were.
   */
  method UpdateCapacityColumn(t: Table, w: nat, kind: Kind) returns (df: Table, updated: set<string>)
    requires w >= 1 && Shaped(t, w)
    ensures df == CapacityPass(t, kind, w)
    ensures forall k :: k in updated <==> exists i :: 0 <= i < |t| && Hit(t[i], Normaliser(kind), Capacities(kind)) == Some(k)
  {
    df, updated := WriteCapacities(t, w, Normaliser(kind), Capacities(kind));
  }

  /** The loop of update_capacity_column, for any way of finding keys. */
  method WriteCapacities(t: Table, w: nat, norm: Cell -> Option<string>, caps: map<string, int>)
    returns (df: Table, updated: set<string>)
    requires w >= 1 && Shaped(t, w)
    ensures df == Pass(t, w, norm, caps)
    ensures forall k :: k in updated <==> exists i :: 0 <= i < |t| && Hit(t[i], norm, caps) == Some(k)
  {
    ghost var keys := Keys(t, norm, caps);
    df := t;
    updated := {};
    var width := w;
    NothingYet(t, keys, caps, w);
    for n := 0 to |t|
      invariant width == WidthAfter(keys, n, w)
      invariant df == Rows(t, n, keys, caps, w, width)
      invariant forall k :: k in updated <==> exists i :: 0 <= i < n && keys[i] == Some(k)
    {
      var key := norm(t[n][0]);
      WidthStep(keys, n, w);
      if key.Some? && key.value in caps {
        if width < 2 {
          WidenRows(t, n, keys, caps, w, width, 2);
          df := Widen(df, 2);
          width := 2;
        }
        WriteRow(t, n, keys, caps, w, width);
        df := df[n := df[n][1 := Num(caps[key.value] as real)]];
        updated := updated + {key.value};
      } else {
        MissRow(t, n, keys, caps, w, width);
      }
    }
  }

  /** Every row padded with empty cells to `width`. */
  function Widen(t: Table, width: nat): (r: Table)
    requires forall i :: 0 <= i < |t| ==> |t[i]| <= width
    ensures |r| == |t| && Shaped(r, width)
    ensures forall i :: 0 <= i < |t| ==> r[i] == t[i] + seq(width - |t[i]|, _ => Empty)
  {
    seq(|t|, i requires 0 <= i < |t| => t[i] + seq(width - |t[i]|, _ => Empty))
  }

  lemma NothingYet(t: Table, keys: seq<Option<string>>, caps: map<string, int>, w: nat)
    requires |t| == |keys| && w >= 1 && Shaped(t, w) && Found(keys, caps)
    ensures WidthAfter(keys, 0, w) == w && Rows(t, 0, keys, caps, w, w) == t
  {
    var p := Rows(t, 0, keys, caps, w, w);
    forall i | 0 <= i < |t| ensures p[i] == t[i] {
      assert t[i] + seq(0, _ => Empty) == t[i];
    }
  }

  /** The width after one more row: it reaches 2 at the first row found. */
  lemma WidthStep(keys: seq<Option<string>>, n: nat, w: nat)
    requires n < |keys|
    ensures keys[n].Some? ==> (HitBefore(keys, n + 1) && WidthAfter(keys, n + 1, w) == (if w < 2 then 2 else w))
    ensures keys[n].None? ==> WidthAfter(keys, n + 1, w) == WidthAfter(keys, n, w)
  {
    if keys[n].None? && HitBefore(keys, n + 1) {
      var j :| 0 <= j < n + 1 && keys[j].Some?;
      assert j < n;
    }
  }

  /** Before the first row found the rows are only padded, so widening them is padding them further. */
  lemma WidenRows(t: Table, n: nat, keys: seq<Option<string>>, caps: map<string, int>, w: nat, width: nat, width': nat)
    requires n <= |t| == |keys| && 1 <= w <= width <= width' && Shaped(t, w) && Found(keys, caps)
    requires !HitBefore(keys, n)
    ensures Widen(Rows(t, n, keys, caps, w, width), width') == Rows(t, n, keys, caps, w, width')
  {
    var a := Widen(Rows(t, n, keys, caps, w, width), width');
    var b := Rows(t, n, keys, caps, w, width');
    forall i | 0 <= i < |t| ensures a[i] == b[i] {
      if i < n {
        assert keys[i].None?;
      }
      assert seq(width - w, _ => Empty) + seq(width' - width, _ => Empty) == seq(width' - w, _ => Empty);
    }
  }

  /** Handling a row that is found writes its capacity into column 1. */
  lemma WriteRow(t: Table, n: nat, keys: seq<Option<string>>, caps: map<string, int>, w: nat, width: nat)
    requires n < |t| == |keys| && 1 <= w <= width && 2 <= width && Shaped(t, w) && Found(keys, caps)
    requires keys[n].Some?
    ensures var before := Rows(t, n, keys, caps, w, width);
      Rows(t, n + 1, keys, caps, w, width) == before[n := before[n][1 := Num(caps[keys[n].value] as real)]]
  {
  }

  /** Handling a row that is not found changes nothing. */
  lemma MissRow(t: Table, n: nat, keys: seq<Option<string>>, caps: map<string, int>, w: nat, width: nat)
    requires n < |t| == |keys| && 1 <= w <= width && Shaped(t, w) && Found(keys, caps)
    requires keys[n].None? && (HitBefore(keys, n) ==> 2 <= width)
    ensures HitBefore(keys, n + 1) ==> 2 <= width
    ensures Rows(t, n + 1, keys, caps, w, width) == Rows(t, n, keys, caps, w, width)
  {
    if HitBefore(keys, n + 1) {
      var j :| 0 <= j < n + 1 && keys[j].Some?;
      assert j < n;
    }
  }
}
