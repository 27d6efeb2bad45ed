/**
 * Numeric coercion (`pd.to_numeric(..., errors="coerce")`) and null dropping
 * (`df.dropna(subset=...)`), hello.py lines 26-27, 40, 47-49.
 */
module Cleaning {
  import opened Wrappers
  import opened Frames
  import opened Sequences

  /**
   * The string parser of `pd.to_numeric` is not modelled; it is a parameter:
   * Some(x) when the text reads as the number x, None when it does not.
   */
  type Parser = string -> Option<real>

  /**
   * One cell through `to_numeric` with `errors="coerce"`: never fails; the
   * result is a number or missing; a number is kept as it is; a string
   * becomes the number it parses to, or missing; a missing cell stays missing.
   */
  function ToNumeric(parse: Parser, c: Cell): (r: Cell)
    ensures r.None? || r.value.Num?
    ensures c.Some? && c.value.Num? ==> r == c
    ensures c.None? ==> r.None?
    ensures c.Some? && c.value.Str? ==> r == if parse(c.value.text).Some? then Some(Num(parse(c.value.text).value)) else None
  {
    match c
    case None => None
    case Some(Num(x)) => c
    case Some(Str(s)) =>
      match parse(s)
      case Some(x) => Some(Num(x))
      case None => None
  }

  /** Coercing an already coerced cell changes nothing. */
  lemma ToNumericIdempotent(parse: Parser, c: Cell)
    ensures ToNumeric(parse, ToNumeric(parse, c)) == ToNumeric(parse, c)
  {
  }

  /** A row with its column `k` coerced; a row too short to have column `k` is left alone. */
  function CoerceCell(row: Row, k: nat, parse: Parser): (r: Row)
    ensures |r| == |row|
    ensures forall j :: CellAt(r, j) == if j == k then ToNumeric(parse, CellAt(row, k)) else CellAt(row, j)
  {
    if k < |row| then row[k := ToNumeric(parse, row[k])] else row
  }

  /**
   * `df[col] = pd.to_numeric(df[col], errors="coerce")` for the column at
   * position `k`: same labels, same number of rows in the same order, every
   * row the same length, column `k` coerced and every other cell unchanged.
   */
  function CoerceColumn(f: Frame, k: nat, parse: Parser): (r: Frame)
    ensures r.columns == f.columns && |r.rows| == |f.rows|
    ensures forall i :: 0 <= i < |f.rows| ==> |r.rows[i]| == |f.rows[i]|
    ensures forall i, j :: 0 <= i < |f.rows| ==>
      CellAt(r.rows[i], j) == if j == k then ToNumeric(parse, CellAt(f.rows[i], k)) else CellAt(f.rows[i], j)
    ensures Rectangular(f) ==> Rectangular(r)
  {
    Frame(f.columns, Map(f.rows, row => CoerceCell(row, k, parse)))
  }

  /** No cell of the listed columns is missing. */
  predicate Complete(row: Row, subset: seq<nat>)
  {
    forall k :: k in subset ==> CellAt(row, k).Some?
  }

  /**
   * `df.dropna(subset=...)`: the rows, in their order, whose cells in the
   * listed columns are all present; every such row is kept, with its
   * multiplicity, and every other row is removed. Labels are unchanged.
   */
  function DropNa(f: Frame, subset: seq<nat>): (r: Frame)
    ensures r.columns == f.columns
    ensures IsSubsequence(r.rows, f.rows)
    ensures forall row :: row in r.rows ==> Complete(row, subset)
    ensures forall row :: multiset(r.rows)[row] == if Complete(row, subset) then multiset(f.rows)[row] else 0
    ensures Rectangular(f) ==> Rectangular(r)
  {
    Frame(f.columns, Filter(f.rows, row => Complete(row, subset)))
  }

  /** Lines 26-27: a row survives when its country is present and its target coerces to a number. */
  predicate Survives(row: Row, country: nat, target: nat, parse: Parser)
  {
    CellAt(row, country).Some? && ToNumeric(parse, CellAt(row, target)).Some?
  }

  /** The input rows that survive lines 26-27, in their order. */
  function Survivors(rows: seq<Row>, country: nat, target: nat, parse: Parser): (r: seq<Row>)
    ensures IsSubsequence(r, rows)
    ensures forall row :: row in r ==> Survives(row, country, target, parse)
    ensures forall row :: multiset(r)[row] == if Survives(row, country, target, parse) then multiset(rows)[row] else 0
  {
    Filter(rows, row => Survives(row, country, target, parse))
  }

  /**
   * Coercing the target and then dropping rows with a missing country or
   * target keeps exactly the input rows that survive, in their order, each
   * with its target coerced.
   */
  lemma CleanTargetExact(f: Frame, country: nat, target: nat, parse: Parser)
    ensures var cleaned, survivors := DropNa(CoerceColumn(f, target, parse), [country, target]).rows, Survivors(f.rows, country, target, parse);
      && |cleaned| == |survivors|
      && forall i :: 0 <= i < |survivors| ==> cleaned[i] == CoerceCell(survivors[i], target, parse)
  {
    var coerce := row => CoerceCell(row, target, parse);
    var keep := row => Complete(row, [country, target]);
    var survives := row => Survives(row, country, target, parse);
    forall row | true ensures survives(row) == keep(coerce(row)) {
      var c := coerce(row);
      assert CellAt(c, target) == ToNumeric(parse, CellAt(row, target));
      assert country != target ==> CellAt(c, country) == CellAt(row, country);
      if country == target {
        assert survives(row) == ToNumeric(parse, CellAt(row, target)).Some?;
      }
    }
    FilterMap(f.rows, coerce, keep, survives);
  }

  /** After coercion and dropping, every row has a country and a numeric target. */
  predicate Cleaned(rows: seq<Row>, country: nat, target: nat)
  {
    forall row :: row in rows ==> CellAt(row, country).Some? && NumAt(row, target).Some?
  }

  /** The frame produced by lines 26-27 satisfies `Cleaned`, and has no more rows than its input. */
  lemma CleanTargetSound(f: Frame, country: nat, target: nat, parse: Parser)
    ensures Cleaned(DropNa(CoerceColumn(f, target, parse), [country, target]).rows, country, target)
    ensures |DropNa(CoerceColumn(f, target, parse), [country, target]).rows| <= |f.rows|
  {
    var g := CoerceColumn(f, target, parse);
    var r := DropNa(g, [country, target]);
    forall row | row in r.rows ensures NumAt(row, target).Some? {
      assert row in g.rows by {
        assert multiset(r.rows)[row] > 0;
      }
      var i :| 0 <= i < |g.rows| && g.rows[i] == row;
      assert CellAt(row, target) == ToNumeric(parse, CellAt(f.rows[i], target));
    }
    SubsequenceShorter(r.rows, g.rows);
  }

  /**
   * Coercing a column other than `col` leaves column `col` alone, and leaves
   * a target that is already numeric in every row the same number, even when
   * the coerced column is the target itself.
   */
  lemma CoerceAgrees(f: Frame, k: nat, col: nat, target: nat, parse: Parser)
    requires k != col
    requires forall row :: row in f.rows ==> NumAt(row, target).Some?
    ensures AgreeOn(f.rows, CoerceColumn(f, k, parse).rows, col, target)
  {
    var r := CoerceColumn(f, k, parse);
    forall i | 0 <= i < |f.rows|
      ensures CellAt(f.rows[i], col) == CellAt(r.rows[i], col)
      ensures NumAt(f.rows[i], target) == NumAt(r.rows[i], target)
    {
      assert f.rows[i] in f.rows;
    }
  }

  /** Every cell of a coerced column is a number or missing. */
  lemma CoercedColumnNumeric(f: Frame, k: nat, parse: Parser)
    ensures forall row :: row in CoerceColumn(f, k, parse).rows ==> NumericOrMissing(row, k)
  {
    var r := CoerceColumn(f, k, parse);
    forall row | row in r.rows ensures NumericOrMissing(row, k) {
      var i :| 0 <= i < |r.rows| && r.rows[i] == row;
    }
  }

  /**
   * Coercing another column in place (`Year`, `Latitude`, `Longitude`) keeps
   * every row and keeps `Cleaned`: the country is untouched and a numeric
   * target stays the same number.
   */
  lemma CoercePreservesCleaned(f: Frame, k: nat, country: nat, target: nat, parse: Parser)
    requires k != country
    requires Cleaned(f.rows, country, target)
    ensures Cleaned(CoerceColumn(f, k, parse).rows, country, target)
    ensures AgreeOn(f.rows, CoerceColumn(f, k, parse).rows, country, target)
  {
    CoerceAgrees(f, k, country, target, parse);
    var r := CoerceColumn(f, k, parse);
    forall row | row in r.rows ensures CellAt(row, country).Some? && NumAt(row, target).Some? {
      var i :| 0 <= i < |r.rows| && r.rows[i] == row;
      assert f.rows[i] in f.rows;
    }
  }
}
