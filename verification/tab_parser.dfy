/**
 * test.py: `process_data` reads a pasted block of tab-separated text into a
 * dictionary of dictionaries.  The whole text is stripped, cut into lines,
 * the first line gives the column names, and every later line is stored
 * under its first field as `{column name: field}` for the remaining fields.
 * All values stay text.
 */
module TabParser {
  import opened Cells
  import opened Dicts

  // ---------------------------------------------------------------------
  // str.split with a one-character separator

  /** `s.split(sep)`: the pieces between separators, at least one, possibly empty. */
  function Split(s: string, sep: char): (parts: seq<string>)
    ensures |parts| >= 1
    ensures forall k :: 0 <= k < |parts| ==> sep !in parts[k]
    decreases |s|
  {
    if s == [] then [""]
    else
      var rest := Split(s[1..], sep);
      if s[0] == sep then [""] + rest
      else [[s[0]] + rest[0]] + rest[1..]
  }

  /** `sep.join(parts)` */
  function Join(parts: seq<string>, sep: char): string
    requires |parts| >= 1
    decreases |parts|
  {
    if |parts| == 1 then parts[0] else parts[0] + [sep] + Join(parts[1..], sep)
  }

  /** Splitting loses nothing: joining the pieces gives the text back. */
  lemma {:induction false} JoinSplit(s: string, sep: char)
    ensures Join(Split(s, sep), sep) == s
    decreases |s|
  {
    if s != [] {
      var rest := Split(s[1..], sep);
      JoinSplit(s[1..], sep);
      if s[0] == sep {
        assert ([""] + rest)[1..] == rest;
      } else {
        var parts := [[s[0]] + rest[0]] + rest[1..];
        if |rest| > 1 {
          assert parts[1..] == rest[1..];
          assert rest == [rest[0]] + rest[1..];
        }
      }
    }
  }

  /** Pieces free of the separator are exactly what splitting their join gives. */
  lemma {:induction false} SplitJoin(parts: seq<string>, sep: char)
    requires |parts| >= 1
    requires forall k :: 0 <= k < |parts| ==> sep !in parts[k]
    ensures Split(Join(parts, sep), sep) == parts
    decreases |parts|, |parts[0]|
  {
    var p := parts[0];
    if p != [] {
      // peel the first character off the first piece
      var shorter := [p[1..]] + parts[1..];
      assert forall k :: 0 <= k < |shorter| ==> sep !in shorter[k] by {
        forall k | 0 <= k < |shorter| ensures sep !in shorter[k] {
          if k == 0 {
            assert forall c :: c in p[1..] ==> c in p;
          } else {
            assert shorter[k] == parts[k];
          }
        }
      }
      SplitJoin(shorter, sep);
      JoinHead(parts, sep);
      JoinHead(shorter, sep);
      assert Join(parts, sep) == [p[0]] + Join(shorter, sep);
      assert Join(parts, sep)[1..] == Join(shorter, sep);
      assert p == [p[0]] + p[1..];
    } else if |parts| > 1 {
      SplitJoin(parts[1..], sep);
      assert Join(parts, sep) == [sep] + Join(parts[1..], sep);
      assert Join(parts, sep)[1..] == Join(parts[1..], sep);
    }
  }

  /** The join starts with the first piece, followed by the join of the rest. */
  lemma JoinHead(parts: seq<string>, sep: char)
    requires |parts| >= 1
    ensures Join(parts, sep) == parts[0] + (if |parts| == 1 then [] else [sep] + Join(parts[1..], sep))
  {
  }

  // ---------------------------------------------------------------------
  // dict(zip(...)) and the data loop

  /** Storing (key, value) pairs one after another, as `dict(pairs)` and a `d[k] = v` loop do. */
  function StoreAll<V>(ps: seq<(string, V)>): (d: Dict<V>)
    ensures |d| <= |ps|
    decreases |ps|
  {
    if ps == [] then [] else Store(StoreAll(ps[..|ps| - 1]), ps[|ps| - 1].0, ps[|ps| - 1].1)
  }

  /** The last position among the pairs whose key is k. */
  function LastWithKey<V>(ps: seq<(string, V)>, k: string): (t: Option<nat>)
    ensures t.None? <==> forall u :: 0 <= u < |ps| ==> ps[u].0 != k
    ensures t.Some? ==>
      t.value < |ps| && ps[t.value].0 == k && forall u :: t.value < u < |ps| ==> ps[u].0 != k
    decreases |ps|
  {
    if ps == [] then None
    else if ps[|ps| - 1].0 == k then Some(|ps| - 1)
    else LastWithKey(ps[..|ps| - 1], k)
  }

  /** A key finds the value of its last pair: a repeated key overwrites the earlier one. */
  lemma {:induction false} StoreAllLookup<V>(ps: seq<(string, V)>, k: string)
    ensures LastWithKey(ps, k).None? ==> Lookup(StoreAll(ps), k).None?
    ensures LastWithKey(ps, k).Some? ==> Lookup(StoreAll(ps), k) == Some(ps[LastWithKey(ps, k).value].1)
    decreases |ps|
  {
    if ps != [] {
      var p := ps[..|ps| - 1];
      StoreAllLookup(p, k);
      StoreLookupAt(StoreAll(p), ps[|ps| - 1].0, ps[|ps| - 1].1, k);
    }
  }

  /** The last pair with key k is the one k finds. */
  lemma StoreAllFinds<V>(ps: seq<(string, V)>, k: string, t: nat)
    requires t < |ps| && ps[t].0 == k
    requires forall u :: t < u < |ps| ==> ps[u].0 != k
    ensures Lookup(StoreAll(ps), k) == Some(ps[t].1)
  {
    StoreAllLookup(ps, k);
    var last := LastWithKey(ps, k);
    assert last.Some?;
    assert !(last.value < t) && !(t < last.value);
  }

  /** A key no pair carries finds nothing, and only such a key. */
  lemma StoreAllMisses<V>(ps: seq<(string, V)>, k: string)
    ensures Lookup(StoreAll(ps), k).None? <==> forall u :: 0 <= u < |ps| ==> ps[u].0 != k
  {
    StoreAllLookup(ps, k);
  }

  /** The stored dictionary never holds a key twice. */
  lemma {:induction false} StoreAllUnique<V>(ps: seq<(string, V)>)
    ensures UniqueKeys(StoreAll(ps))
    decreases |ps|
  {
    if ps != [] {
      var p := ps[..|ps| - 1];
      StoreAllUnique(p);
      StoreUnique(StoreAll(p), ps[|ps| - 1].0, ps[|ps| - 1].1);
    }
  }

  /** The length of the shorter list. */
  function Min(a: nat, b: nat): nat { if a < b then a else b }

  /** `zip(keys, values)`: pairs up to the shorter of the two. */
  function Zip(keys: seq<string>, values: seq<string>): (ps: seq<(string, string)>)
    ensures |ps| == Min(|keys|, |values|)
    ensures forall t :: 0 <= t < |ps| ==> ps[t] == (keys[t], values[t])
  {
    seq(Min(|keys|, |values|), t requires 0 <= t < Min(|keys|, |values|) => (keys[t], values[t]))
  }

  /** `dict(zip(headers[1:], row_data[1:]))`: one line's fields under the column names. */
  function RowDict(headers: seq<string>, fields: seq<string>): Dict<string>
    requires |headers| >= 1 && |fields| >= 1
  {
    StoreAll(Zip(headers[1..], fields[1..]))
  }

  /** A column name is found exactly when some column after the first carries it, within both lists. */
  lemma RowDictMisses(headers: seq<string>, fields: seq<string>, h: string)
    requires |headers| >= 1 && |fields| >= 1
    ensures Lookup(RowDict(headers, fields), h).None? <==>
      forall t :: 1 <= t < Min(|headers|, |fields|) ==> headers[t] != h
  {
    var ps := Zip(headers[1..], fields[1..]);
    StoreAllMisses(ps, h);
    assert forall t :: 1 <= t < Min(|headers|, |fields|) ==> ps[t - 1].0 == headers[t];
  }

  /** A column name finds the field of the last column carrying it; the first column never counts. */
  lemma RowDictFinds(headers: seq<string>, fields: seq<string>, h: string, t: nat)
    requires 1 <= t < Min(|headers|, |fields|) && headers[t] == h
    requires forall u :: t < u < Min(|headers|, |fields|) ==> headers[u] != h
    ensures Lookup(RowDict(headers, fields), h) == Some(fields[t])
  {
    var ps := Zip(headers[1..], fields[1..]);
    assert forall u :: t - 1 < u < |ps| ==> ps[u].0 == headers[u + 1];
    StoreAllFinds(ps, h, t - 1);
  }

  /** The lines of the text: `raw_data.strip().split("\n")`. */
  function Lines(raw: string): (rows: seq<string>)
    ensures |rows| >= 1
  {
    Split(Strip(raw), '\n')
  }

  /** The column names: `rows[0].split("\t")`. */
  function HeaderFields(raw: string): (hs: seq<string>)
    ensures |hs| >= 1
  {
    Split(Lines(raw)[0], '\t')
  }

  /** Line `t` of the data (after the header line) and what it is stored as. */
  function Entry(headers: seq<string>, row: string): (string, Dict<string>)
    requires |headers| >= 1
  {
    var fields := Split(row, '\t');
    (fields[0], RowDict(headers, fields))
  }

  /** Every data line paired with its key, in order. */
  function Entries(headers: seq<string>, rows: seq<string>): (es: seq<(string, Dict<string>)>)
    requires |headers| >= 1
    ensures |es| == |rows|
    ensures forall t :: 0 <= t < |rows| ==> es[t] == Entry(headers, rows[t])
  {
    seq(|rows|, t requires 0 <= t < |rows| => Entry(headers, rows[t]))
  }

  /** What process_data returns for the text: no key twice, and never more keys than data lines. */
  function Parsed(raw: string): (d: Dict<Dict<string>>)
    ensures UniqueKeys(d)
    ensures |d| <= |Lines(raw)| - 1
  {
    var es := Entries(HeaderFields(raw), Lines(raw)[1..]);
    StoreAllUnique(es);
    StoreAll(es)
  }

  /** The data loop of process_data. */
  method ProcessData(raw: string) returns (data: Dict<Dict<string>>)
    ensures data == Parsed(raw)
  {
    var rows := Split(Strip(raw), '\n');
    var headers := Split(rows[0], '\t');
    ghost var es := Entries(headers, rows[1..]);
    data := [];
    var t := 1;
    while t < |rows|
      invariant 1 <= t <= |rows|
      invariant data == StoreAll(es[..t - 1])
    {
      var rowData := Split(rows[t], '\t');
      var category := rowData[0];
      ghost var prefix := es[..t];
      assert prefix[..|prefix| - 1] == es[..t - 1] && prefix[|prefix| - 1] == (category, RowDict(headers, rowData));
      data := Store(data, category, RowDict(headers, rowData));
      assert data == StoreAll(prefix);
      t := t + 1;
    }
    assert es[..|rows| - 1] == es;
    assert rows == Lines(raw) && headers == HeaderFields(raw);
  }

  /** The first field of data line t, the key process_data stores it under. */
  function Key(raw: string, t: nat): string
    requires 1 <= t < |Lines(raw)|
  {
    Split(Lines(raw)[t], '\t')[0]
  }

  /** A key is present exactly when some data line starts with it; leading spaces stay part of it. */
  lemma ParsedMisses(raw: string, key: string)
    ensures Lookup(Parsed(raw), key).None? <==> forall t :: 1 <= t < |Lines(raw)| ==> Key(raw, t) != key
  {
    var rows := Lines(raw);
    var es := Entries(HeaderFields(raw), rows[1..]);
    StoreAllMisses(es, key);
    if Lookup(Parsed(raw), key).None? {
      forall t | 1 <= t < |rows| ensures Key(raw, t) != key {
        assert es[t - 1].0 == Key(raw, t);
      }
    } else {
      var u :| 0 <= u < |es| && es[u].0 == key;
      assert Key(raw, u + 1) == key;
    }
  }

  /** A key holds the fields of the last data line starting with it. */
  lemma ParsedFinds(raw: string, key: string, t: nat)
    requires 1 <= t < |Lines(raw)| && Key(raw, t) == key
    requires forall u :: t < u < |Lines(raw)| ==> Key(raw, u) != key
    ensures Lookup(Parsed(raw), key) == Some(RowDict(HeaderFields(raw), Split(Lines(raw)[t], '\t')))
  {
    var rows := Lines(raw);
    var es := Entries(HeaderFields(raw), rows[1..]);
    assert forall u :: t - 1 < u < |es| ==> es[u].0 == Key(raw, u + 1);
    StoreAllFinds(es, key, t - 1);
  }
}
