/**
 * The tabular data the dashboard works on: a frame is its column labels and
 * its rows, each row holding one cell per column, positionally, as a pandas
 * DataFrame keeps its labels apart from its data. A cell is a string, a
 * number, or missing (pandas' NaN / None).
 */
module Frames {
  import opened Wrappers

  /** Numbers are exact reals, not IEEE doubles. */
  datatype Value = Str(text: string) | Num(number: real)

  type Cell = Option<Value>

  type Row = seq<Cell>

  datatype Frame = Frame(columns: seq<string>, rows: seq<Row>)

  /** Every row has one cell per column. */
  predicate Rectangular(f: Frame)
  {
    forall row :: row in f.rows ==> |row| == |f.columns|
  }

  /** The cell of column `k`; a position past the end of the row reads as missing. */
  function CellAt(row: Row, k: nat): Cell
  {
    if k < |row| then row[k] else None
  }

  /** The number in column `k`, if that cell holds one. */
  function NumAt(row: Row, k: nat): (r: Option<real>)
    ensures r.Some? <==> CellAt(row, k).Some? && CellAt(row, k).value.Num?
    ensures r.Some? ==> CellAt(row, k) == Some(Num(r.value))
  {
    match CellAt(row, k)
    case Some(Num(x)) => Some(x)
    case _ => None
  }

  /** A cell that is missing or a number, as every cell of a coerced column is. */
  predicate NumericOrMissing(row: Row, k: nat)
  {
    CellAt(row, k).None? || CellAt(row, k).value.Num?
  }

  /**
   * Label lookup (`name in df.columns`, `df[name]`): the position of the first
   * column labelled `name`, or None when there is none.
   */
  function ColumnIndex(columns: seq<string>, name: string): (r: Option<nat>)
    ensures r.Some? <==> name in columns
    ensures r.Some? ==> r.value < |columns| && columns[r.value] == name && name !in columns[..r.value]
  {
    if columns == [] then None
    else if columns[0] == name then Some(0)
    else
      match ColumnIndex(columns[1..], name)
      case Some(k) =>
        assert columns[..k + 1] == [columns[0]] + columns[1..][..k];
        Some(k + 1)
      case None => None
  }

  /**
   * Row for row, `a` and `b` hold the same cell in column `col` and the same
   * number in column `target`: what grouping `col` over `target` reads.
   */
  predicate AgreeOn(a: seq<Row>, b: seq<Row>, col: nat, target: nat)
  {
    |a| == |b| && forall i :: 0 <= i < |a| ==> CellAt(a[i], col) == CellAt(b[i], col) && NumAt(a[i], target) == NumAt(b[i], target)
  }

  /** Agreement on the key column and the numeric target is transitive. */
  lemma AgreeOnTrans(a: seq<Row>, b: seq<Row>, c: seq<Row>, col: nat, target: nat)
    requires AgreeOn(a, b, col, target) && AgreeOn(b, c, col, target)
    ensures AgreeOn(a, c, col, target)
  {
  }
}
