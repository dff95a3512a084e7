/** A parsed table as the scraper's data-frame library holds it: an ordered
    list of column labels and, per row, one cell per column. */
module Frames {

  /** One cell after parsing: an empty source cell is missing, any other cell
      keeps its text. The library's numeric typing of cells is not modelled. */
  datatype Cell = Missing | Text(text: string)

  predicate Distinct<T(==)>(s: seq<T>)
  {
    forall i, j :: 0 <= i < j < |s| ==> s[i] != s[j]
  }

  function Elements<T>(s: seq<T>): set<T>
  {
    set x | x in s
  }

  datatype Frame = Frame(columns: seq<string>, rows: seq<seq<Cell>>)

  /** Column labels are distinct and every row has one cell per column. */
  predicate WellFormed(f: Frame)
  {
    Distinct(f.columns) && forall k :: 0 <= k < |f.rows| ==> |f.rows[k]| == |f.columns|
  }

  /** Position of the first occurrence of `x`. */
  function IndexOf(s: seq<string>, x: string): (i: nat)
    requires x in s
    ensures i < |s| && s[i] == x
    ensures forall j :: 0 <= j < i ==> s[j] != x
  {
    if s[0] == x then 0 else 1 + IndexOf(s[1..], x)
  }

  lemma IndexOfDistinct(s: seq<string>, i: nat)
    requires Distinct(s) && i < |s|
    ensures IndexOf(s, s[i]) == i
  {
  }

  /** `df[c][k]`: the cell of row `k` under label `c`. */
  function Lookup(f: Frame, k: nat, c: string): Cell
    requires WellFormed(f) && k < |f.rows| && c in f.columns
  {
    f.rows[k][IndexOf(f.columns, c)]
  }

  /** `df[c]`: the whole column under label `c`, one cell per row. */
  function Column(f: Frame, c: string): (col: seq<Cell>)
    requires WellFormed(f) && c in f.columns
    ensures |col| == |f.rows|
    ensures forall k :: 0 <= k < |col| ==> col[k] == Lookup(f, k, c)
  {
    seq(|f.rows|, k requires 0 <= k < |f.rows| => Lookup(f, k, c))
  }

  /** `df[c] = values`: overwrites the column in place when the label exists,
      otherwise appends it as the last column. */
  function SetColumn(f: Frame, c: string, values: seq<Cell>): (r: Frame)
    requires WellFormed(f) && |values| == |f.rows|
    ensures WellFormed(r) && |r.rows| == |f.rows|
    ensures r.columns == if c in f.columns then f.columns else f.columns + [c]
    ensures forall k :: 0 <= k < |r.rows| ==> Lookup(r, k, c) == values[k]
    ensures forall k, d :: 0 <= k < |r.rows| && d in f.columns && d != c ==>
      Lookup(r, k, d) == Lookup(f, k, d)
  {
    if c in f.columns then
      var p := IndexOf(f.columns, c);
      Frame(f.columns, seq(|f.rows|, k requires 0 <= k < |f.rows| => f.rows[k][p := values[k]]))
    else
      var r := Frame(f.columns + [c], seq(|f.rows|, k requires 0 <= k < |f.rows| => f.rows[k] + [values[k]]));
      assert forall d :: d in f.columns ==> IndexOf(r.columns, d) == IndexOf(f.columns, d);
      r
  }

  /** One row as a record: each column label mapped to the row's cell. */
  function Record(columns: seq<string>, row: seq<Cell>): map<string, Cell>
  {
    map c | c in columns && IndexOf(columns, c) < |row| :: row[IndexOf(columns, c)]
  }

  /** The rows of a frame as records, in row order; this is what an append
      to a store table writes. */
  function Records(f: Frame): seq<map<string, Cell>>
  {
    seq(|f.rows|, k requires 0 <= k < |f.rows| => Record(f.columns, f.rows[k]))
  }

  /** Each record holds exactly the frame's labels, each mapped to the row's
      cell under that label. */
  lemma RecordsLookup(f: Frame)
    requires WellFormed(f)
    ensures |Records(f)| == |f.rows|
    ensures forall k :: 0 <= k < |f.rows| ==> Records(f)[k].Keys == Elements(f.columns)
    ensures forall k, c :: 0 <= k < |f.rows| && c in f.columns ==>
      c in Records(f)[k] && Records(f)[k][c] == Lookup(f, k, c)
  {
  }
}
