/**
 * Values that a spreadsheet cell or a DataFrame entry can hold, and the few
 * Python string operations the passes apply to them.
 *
 * A cell is a number, some text, a formula written by a pass, or nothing
 * (openpyxl's None, pandas' NaN).  The empty string `Text("")` is text, not
 * nothing: pandas writes it into spacer rows and it stays distinct from None.
 */
module Cells {

  datatype Option<T> = None | Some(value: T)

  /** A 1-based cell reference, `row` and `col` as openpyxl numbers them. */
  datatype Ref = Ref(row: nat, col: nat)

  /**
   * The formulas the passes write, kept symbolic instead of as A1 text.
   *   SumRange(a, b)        =SUM(a:b)
   *   SumOf(refs)           =SUM(r1,r2,...)
   *   Quotient(n, d)        =n/d
   *   GuardedQuotient(n, d) =IF(d<>0, n/d, 0)
   *   GuardedChange(c, p)   =IF(p<>0,(c-p)/p,0)
   */
  datatype Formula =
    | SumRange(first: Ref, last: Ref)
    | SumOf(refs: seq<Ref>)
    | Quotient(num: Ref, den: Ref)
    | GuardedQuotient(num: Ref, den: Ref)
    | GuardedChange(cur: Ref, prev: Ref)

  datatype Cell = Num(r: real) | Text(s: string) | Fx(f: Formula) | Empty

  /** `isinstance(v, (int, float))` */
  predicate IsNumber(c: Cell) { c.Num? }

  /** The contribution of a cell to a sum that only adds numbers. */
  function NumOr0(c: Cell): real { if c.Num? then c.r else 0.0 }

  /** `isinstance(v, str)`: a formula cell holds its text, so it is a string too. */
  predicate IsStr(c: Cell) { c.Text? || c.Fx? }

  /** Python truthiness of the value held by the cell. */
  predicate Truthy(c: Cell)
  {
    match c
    case Num(r) => r != 0.0
    case Text(s) => s != ""
    case Fx(_) => true
    case Empty => false
  }

  /** The cell holds exactly this text. */
  predicate IsText(c: Cell, s: string) { c == Text(s) }

  // ---------------------------------------------------------------------
  // Strings

  predicate StartsWith(s: string, p: string) { p <= s }

  predicate EndsWith(s: string, p: string) { |p| <= |s| && s[|s| - |p|..] == p }

  /** `p in s` for strings */
  predicate Contains(s: string, p: string)
  {
    exists i :: 0 <= i <= |s| - |p| && OccursAt(s, p, i)
  }

  /** `p` occurs in `s` starting at index `i`. */
  predicate OccursAt(s: string, p: string, i: int)
  {
    0 <= i && i + |p| <= |s| && s[i..i + |p|] == p
  }

  lemma ContainsPrefix(s: string, p: string)
    requires StartsWith(s, p)
    ensures Contains(s, p)
  {
    assert OccursAt(s, p, 0);
  }

  /** Python's `str.isspace` for one character. */
  predicate IsSpace(ch: char)
  {
    ch == ' ' || ('\t' <= ch <= '\r') || ('\U{1c}' <= ch <= '\U{1f}')
    || ch == '\U{85}' || ch == '\U{a0}' || ch == '\U{1680}'
    || ('\U{2000}' <= ch <= '\U{200a}') || ch == '\U{2028}' || ch == '\U{2029}'
    || ch == '\U{202f}' || ch == '\U{205f}' || ch == '\U{3000}'
  }

  function TrimLeft(s: string): (r: string)
    ensures |r| <= |s|
    ensures r == [] || !IsSpace(r[0])
  {
    if s == [] || !IsSpace(s[0]) then s else TrimLeft(s[1..])
  }

  function TrimRight(s: string): (r: string)
    ensures |r| <= |s|
    ensures r == [] || !IsSpace(r[|r| - 1])
  {
    if s == [] || !IsSpace(s[|s| - 1]) then s else TrimRight(s[..|s| - 1])
  }

  /** `lstrip()` keeps a suffix of the text. */
  lemma {:induction false} TrimLeftSuffix(s: string)
    ensures TrimLeft(s) == s[|s| - |TrimLeft(s)|..]
    decreases |s|
  {
    if s != [] && IsSpace(s[0]) {
      TrimLeftSuffix(s[1..]);
    }
  }

  /** `rstrip()` keeps a prefix of the text. */
  lemma {:induction false} TrimRightPrefix(s: string)
    ensures TrimRight(s) == s[..|TrimRight(s)|]
    decreases |s|
  {
    if s != [] && IsSpace(s[|s| - 1]) {
      TrimRightPrefix(s[..|s| - 1]);
    }
  }

  /** What `lstrip()` removes is white space only. */
  lemma {:induction false} TrimLeftSpaces(s: string)
    ensures forall i :: 0 <= i < |s| - |TrimLeft(s)| ==> IsSpace(s[i])
    decreases |s|
  {
    if s != [] && IsSpace(s[0]) {
      var t := s[1..];
      TrimLeftSpaces(t);
      forall i | 1 <= i < |s| - |TrimLeft(s)| ensures IsSpace(s[i]) {
        assert s[i] == t[i - 1];
      }
    }
  }

  /** What `rstrip()` removes is white space only. */
  lemma {:induction false} TrimRightSpaces(s: string)
    ensures forall i :: |TrimRight(s)| <= i < |s| ==> IsSpace(s[i])
    decreases |s|
  {
    if s != [] && IsSpace(s[|s| - 1]) {
      var t := s[..|s| - 1];
      TrimRightSpaces(t);
      forall i | |TrimRight(s)| <= i < |s| - 1 ensures IsSpace(s[i]) {
        assert s[i] == t[i];
      }
    }
  }

  /** `str.strip()` with no argument */
  function Strip(s: string): (r: string)
  {
    TrimRight(TrimLeft(s))
  }

  /** Text whose ends are not white space is left alone by `strip()`. */
  lemma StripKeeps(s: string)
    requires s == [] || (!IsSpace(s[0]) && !IsSpace(s[|s| - 1]))
    ensures Strip(s) == s
  {
  }

  /** `strip()` leaves text that does not start or end with white space. */
  lemma StripEnds(s: string)
    ensures Strip(s) == [] || (!IsSpace(Strip(s)[0]) && !IsSpace(Strip(s)[|Strip(s)| - 1]))
  {
    var l := TrimLeft(s);
    var r := TrimRight(l);
    TrimRightPrefix(l);
    if r != [] {
      assert r[0] == l[0];
    }
  }

  /** `strip()` twice is `strip()` once. */
  lemma StripIdempotent(s: string)
    ensures Strip(Strip(s)) == Strip(s)
  {
    StripEnds(s);
    StripKeeps(Strip(s));
  }

  /**
   * `str.lower()` for one character: ASCII letters and the Greek capitals,
   * with and without tonos.  Other characters are returned unchanged.
   */
  function LowerChar(ch: char): char
  {
    if 'A' <= ch <= 'Z' then (ch as int + 32) as char
    else if '\U{391}' <= ch <= '\U{3ab}' && ch != '\U{3a2}' then (ch as int + 32) as char
    else if ch == '\U{386}' then '\U{3ac}'
    else if '\U{388}' <= ch <= '\U{38a}' then (ch as int + 37) as char
    else if ch == '\U{38c}' then '\U{3cc}'
    else if ch == '\U{38e}' || ch == '\U{38f}' then (ch as int + 63) as char
    else ch
  }

  function Lower(s: string): (r: string)
    ensures |r| == |s| && forall i :: 0 <= i < |s| ==> r[i] == LowerChar(s[i])
  {
    if s == [] then [] else [LowerChar(s[0])] + Lower(s[1..])
  }

  /** Case-insensitive substring test, as `k.lower() in v.lower()`. */
  predicate ContainsIgnoringCase(s: string, k: string)
  {
    Contains(Lower(s), Lower(k))
  }

  // ---------------------------------------------------------------------
  // Number rendering

  function DigitChar(d: nat): char
    requires d < 10
  {
    ['0', '1', '2', '3', '4', '5', '6', '7', '8', '9'][d]
  }

  predicate IsDigit(ch: char) { '0' <= ch <= '9' }

  /** `str(n)` for a natural number */
  function NatText(n: nat): (r: string)
    ensures |r| >= 1 && forall i :: 0 <= i < |r| ==> IsDigit(r[i])
  {
    if n < 10 then [DigitChar(n)] else NatText(n / 10) + [DigitChar(n % 10)]
  }

  /** `str(i)` for an integer */
  function IntText(i: int): (r: string)
    ensures |r| >= 1 && (IsDigit(r[0]) || r[0] == '-')
  {
    if i < 0 then "-" + NatText(-i) else NatText(i)
  }

  /**
   * `prefix + text`, the way the passes build a column header.  `steps`
   * only counts down to it, so that proofs compare such headers as wholes
   * and spell one out, through Spelling, where they need its characters.
   */
  function Spelled(prefix: string, text: string, steps: nat): string
    decreases steps
  {
    if steps == 0 then prefix + text else Spelled(prefix, text, steps - 1)
  }

  lemma {:induction false} Spelling(prefix: string, text: string, steps: nat)
    ensures Spelled(prefix, text, steps) == prefix + text
    decreases steps
  {
    if steps > 0 {
      Spelling(prefix, text, steps - 1);
    }
  }

  /** `str(n).zfill(2)` */
  function ZFill2(n: nat): (r: string)
    ensures |r| >= 2 && forall i :: 0 <= i < |r| ==> IsDigit(r[i])
  {
    if n < 10 then "0" + NatText(n) else NatText(n)
  }

  /** The digits of n, padded on the left with zeros to width w. */
  function ZeroPad(n: nat, w: nat): (r: string)
    ensures |r| >= w && |r| >= 1 && forall i :: 0 <= i < |r| ==> IsDigit(r[i])
    ensures |NatText(n)| <= w ==> |r| == w
    decreases w - |NatText(n)|
  {
    if |NatText(n)| >= w then NatText(n) else "0" + ZeroPad(n, w - 1)
  }

  /** Fraction digits without their trailing zeros; one digit is always kept. */
  function TrimZeros(d: string): (r: string)
    requires |d| >= 1
    ensures 1 <= |r| <= |d| && r == d[..|r|]
    ensures |r| > 1 ==> r[|r| - 1] != '0'
  {
    if |d| > 1 && d[|d| - 1] == '0' then TrimZeros(d[..|d| - 1]) else d
  }

  /**
   * `str(x)` of a number.  A whole number renders as its decimal digits; a
   * fraction renders as its whole part, a point and its first six fraction
   * digits without trailing zeros, so 0.05 renders as "0.05".
   */
  function NumText(r: real): (t: string)
    ensures |t| >= 1 && (IsDigit(t[0]) || t[0] == '-')
    ensures r == r.Floor as real && r >= 0.0 ==> t == NatText(r.Floor)
    ensures r != r.Floor as real ==> '.' in t
  {
    if r == r.Floor as real then IntText(r.Floor)
    else
      var a := if r < 0.0 then -r else r;
      var whole := a.Floor;
      var frac := ((a - whole as real) * 1000000.0).Floor;
      var t := (if r < 0.0 then "-" else "") + NatText(whole) + "." + TrimZeros(ZeroPad(frac, 6));
      assert t[|t| - |TrimZeros(ZeroPad(frac, 6))| - 1] == '.';
      t
  }

  /** `str(v)` / `astype(str)` of a cell; NaN renders as "nan". */
  function Render(c: Cell): string
  {
    match c
    case Num(r) => NumText(r)
    case Text(s) => s
    case Fx(_) => "="
    case Empty => "nan"
  }

  /** The rendered text starts with the given word; only text can start with a capital letter. */
  lemma RenderStartsWithCapital(c: Cell, p: string)
    requires |p| >= 1 && 'A' <= p[0] <= 'Z'
    ensures StartsWith(Render(c), p) <==> c.Text? && StartsWith(c.s, p)
  {
    match c
    case Num(r) =>
      var t := NumText(r);
      assert t[0] != p[0];
    case Text(s) =>
    case Fx(_) =>
    case Empty =>
  }

  // ---------------------------------------------------------------------
  // DataFrames

  /** The rows of a pandas DataFrame, each a list of entries. */
  type Table = seq<seq<Cell>>

  /** Every row has `width` cells, as in every DataFrame. */
  predicate Shaped(rows: Table, width: nat)
  {
    forall i :: 0 <= i < |rows| ==> |rows[i]| == width
  }

  /** The first-column entry of a row (`df.iloc[:, 0]`). */
  function Label(row: seq<Cell>): Cell
  {
    if |row| == 0 then Empty else row[0]
  }
}
