/**
 * Python dictionaries with string keys, as the passes use them: a list of
 * (key, value) entries in insertion order.  Storing under a key that is
 * already present replaces its value where it stands; a new key is appended.
 * Iterating over the dictionary (`.values()`, `.items()`) follows that order.
 */
module Dicts {
  import opened Cells

  type Dict<V> = seq<(string, V)>

  /** `list(d.keys())` */
  function Keys<V>(d: Dict<V>): (ks: seq<string>)
    ensures |ks| == |d| && forall t :: 0 <= t < |d| ==> ks[t] == d[t].0
  {
    if d == [] then [] else Keys(d[..|d| - 1]) + [d[|d| - 1].0]
  }

  /** `list(d.values())` */
  function Values<V>(d: Dict<V>): (vs: seq<V>)
    ensures |vs| == |d| && forall t :: 0 <= t < |d| ==> vs[t] == d[t].1
  {
    if d == [] then [] else Values(d[..|d| - 1]) + [d[|d| - 1].1]
  }

  /** No key occurs twice, as in every Python dictionary. */
  predicate UniqueKeys<V>(d: Dict<V>)
  {
    forall s, t :: 0 <= s < t < |d| ==> d[s].0 != d[t].0
  }

  /** `d.get(k)` */
  function Lookup<V>(d: Dict<V>, k: string): (r: Option<V>)
    ensures r.None? <==> k !in Keys(d)
    decreases |d|
  {
    if d == [] then None
    else if d[|d| - 1].0 == k then Some(d[|d| - 1].1)
    else
      assert Keys(d) == Keys(d[..|d| - 1]) + [d[|d| - 1].0];
      Lookup(d[..|d| - 1], k)
  }

  /** A value found under k is the value of an entry for k. */
  lemma {:induction false} LookupEntry<V>(d: Dict<V>, k: string)
    requires Lookup(d, k).Some?
    ensures exists t :: 0 <= t < |d| && d[t] == (k, Lookup(d, k).value)
    decreases |d|
  {
    if d[|d| - 1].0 != k {
      var p := d[..|d| - 1];
      LookupEntry(p, k);
      var t :| 0 <= t < |p| && p[t] == (k, Lookup(p, k).value);
      assert d[t] == p[t];
    }
  }

  /** With unique keys, every entry is what its key finds. */
  lemma {:induction false} LookupUnique<V>(d: Dict<V>, t: nat)
    requires UniqueKeys(d) && t < |d|
    ensures Lookup(d, d[t].0) == Some(d[t].1)
    decreases |d|
  {
    if t < |d| - 1 {
      var p := d[..|d| - 1];
      assert UniqueKeys(p);
      LookupUnique(p, t);
    }
  }

  /** Every entry for k gets the value v; the others stay. */
  function Replace<V>(d: Dict<V>, k: string, v: V): (e: Dict<V>)
    ensures |e| == |d| && Keys(e) == Keys(d)
    ensures forall t :: 0 <= t < |d| ==> e[t] == if d[t].0 == k then (k, v) else d[t]
    decreases |d|
  {
    if d == [] then []
    else Replace(d[..|d| - 1], k, v) + [if d[|d| - 1].0 == k then (k, v) else d[|d| - 1]]
  }

  /** `d[k] = v`: an existing key keeps its place, a new one goes last. */
  function Store<V>(d: Dict<V>, k: string, v: V): (e: Dict<V>)
    ensures k in Keys(d) ==> Keys(e) == Keys(d)
    ensures k !in Keys(d) ==> e == d + [(k, v)]
  {
    if k in Keys(d) then Replace(d, k, v) else d + [(k, v)]
  }

  /** Replacing reads back and leaves every other key alone. */
  lemma {:induction false} ReplaceLookup<V>(d: Dict<V>, k: string, v: V)
    requires k in Keys(d)
    ensures Lookup(Replace(d, k, v), k) == Some(v)
    ensures forall k' :: k' != k ==> Lookup(Replace(d, k, v), k') == Lookup(d, k')
    decreases |d|
  {
    var p := d[..|d| - 1];
    var e := Replace(d, k, v);
    assert e[..|e| - 1] == Replace(p, k, v);
    assert Keys(d) == Keys(p) + [d[|d| - 1].0];
    if d[|d| - 1].0 != k {
      ReplaceLookup(p, k, v);
    } else if k in Keys(p) {
      ReplaceLookup(p, k, v);
    } else {
      forall k' | k' != k
        ensures Lookup(e, k') == Lookup(d, k')
      {
        ReplaceOther(p, k, v, k');
      }
    }
  }

  /** Replacing k does not change what another key finds. */
  lemma {:induction false} ReplaceOther<V>(d: Dict<V>, k: string, v: V, k': string)
    requires k' != k
    ensures Lookup(Replace(d, k, v), k') == Lookup(d, k')
    decreases |d|
  {
    if d != [] {
      var e := Replace(d, k, v);
      assert e[..|e| - 1] == Replace(d[..|d| - 1], k, v);
      ReplaceOther(d[..|d| - 1], k, v, k');
    }
  }

  /** Storing reads back and leaves every other key alone. */
  lemma StoreLookup<V>(d: Dict<V>, k: string, v: V)
    ensures Lookup(Store(d, k, v), k) == Some(v)
    ensures forall k' :: k' != k ==> Lookup(Store(d, k, v), k') == Lookup(d, k')
  {
    if k in Keys(d) {
      ReplaceLookup(d, k, v);
    } else {
      var e := Store(d, k, v);
      assert e[..|e| - 1] == d;
    }
  }

  /** What a key finds after a store, one key at a time. */
  lemma StoreLookupAt<V>(d: Dict<V>, k: string, v: V, k': string)
    ensures Lookup(Store(d, k, v), k') == if k' == k then Some(v) else Lookup(d, k')
  {
    StoreLookup(d, k, v);
  }

  /** Storing keeps the keys unique. */
  lemma StoreUnique<V>(d: Dict<V>, k: string, v: V)
    requires UniqueKeys(d)
    ensures UniqueKeys(Store(d, k, v))
  {
    var e := Store(d, k, v);
    forall s, t | 0 <= s < t < |e|
      ensures e[s].0 != e[t].0
    {
      if k in Keys(d) {
        assert e[s].0 == Keys(e)[s] == Keys(d)[s] == d[s].0;
        assert e[t].0 == Keys(e)[t] == Keys(d)[t] == d[t].0;
      } else if t == |d| {
        assert d[s].0 == Keys(d)[s];
      }
    }
  }
}
