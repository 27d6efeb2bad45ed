/**
 * The script itself (hello.py lines 7-87) as one run: load, rename the
 * columns, check for `Country` and a PM2.5 column, clean, summarise, derive
 * the year-wise trend and the map points, and filter by the slider's
 * threshold. The data source and the slider are inputs; the renderers,
 * the CSV export and the SQL query are not part of this model.
 */
module Dashboard {
  import opened Wrappers
  import opened Frames
  import opened Sequences
  import opened Columns
  import opened Cleaning
  import opened Summary

  const COUNTRY := "Country"
  const YEAR := "Year"
  const LATITUDE := "Latitude"
  const LONGITUDE := "Longitude"

  /** Where the two required columns are: `df["Country"]` and `df[pm_col]`. */
  datatype Located = Located(country: nat, target: nat)

  /**
   * Line 25, `"Country" in df.columns and pm_col`: present exactly when a
   * `Country` column exists and the target was detected; then it gives the
   * first `Country` column and the first column whose label contains the
   * marker, which is also the first column labelled `pm_col`.
   */
  function Guard(columns: seq<string>): (r: Option<Located>)
    ensures r.Some? <==> COUNTRY in columns && DetectTarget(columns).Some?
    ensures r.Some? ==> (r.value.country < |columns| && columns[r.value.country] == COUNTRY
                         && COUNTRY !in columns[..r.value.country])
    ensures r.Some? ==> IsFirstTarget(columns, r.value.target) && columns[r.value.target] == DetectTarget(columns).value
  {
    match (ColumnIndex(columns, COUNTRY), DetectTarget(columns))
    case (Some(c), Some(name)) =>
      var k :| IsFirstTarget(columns, k) && columns[k] == name;
      var t := ColumnIndex(columns, name).value;
      assert t == k;
      Some(Located(c, t))
    case _ => None
  }

  /** Line 78, `df[pm_col] > threshold`: the target is a number strictly above the threshold (NaN compares false). */
  predicate Exceeds(row: Row, target: nat, threshold: real): (r: bool)
    ensures r <==> CellAt(row, target).Some? && CellAt(row, target).value.Num? && CellAt(row, target).value.number > threshold
  {
    NumAt(row, target).Some? && NumAt(row, target).value > threshold
  }

  /**
   * `df[df[pm_col] > threshold]`: the rows whose target exceeds the
   * threshold, in their order, every such row kept and no other.
   */
  function Above(rows: seq<Row>, target: nat, threshold: real): (r: seq<Row>)
    ensures IsSubsequence(r, rows)
    ensures forall row :: row in r ==> Exceeds(row, target, threshold)
    ensures forall row :: multiset(r)[row] == if Exceeds(row, target, threshold) then multiset(rows)[row] else 0
  {
    Filter(rows, row => Exceeds(row, target, threshold))
  }

  /** Raising the threshold can only remove rows: the result for `t2` is a subsequence of the result for `t1 <= t2`. */
  lemma AboveMonotone(rows: seq<Row>, target: nat, t1: real, t2: real)
    requires t1 <= t2
    ensures IsSubsequence(Above(rows, target, t2), Above(rows, target, t1))
  {
    FilterWeaker(rows, row => Exceeds(row, target, t1), row => Exceeds(row, target, t2));
  }

  /** What one run of the script shows. */
  datatype Outcome =
    /** Line 11: no dataset. */
    | LoadFailed
    /** Line 87: a required column is missing; the renamed labels are listed. */
    | MissingColumns(available: seq<string>)
    /**
     * Lines 26-84. `cleaned` is the frame after line 27 (summarised and
     * charted); `exported` is it after the in-place coercions of lines 40
     * and 47-48 (written out at line 64 and filtered at line 78).
     */
    | Report(available: seq<string>, country: nat, target: nat,
             cleaned: Frame, summary: seq<Group>, yearwise: Option<seq<Group>>,
             exported: Frame, mapPoints: Option<Frame>, filtered: seq<Row>)

  /** The column `name`, which the caller knows to be present. */
  function IndexOf(columns: seq<string>, name: string): nat
    requires name in columns
  {
    ColumnIndex(columns, name).value
  }

  /**
   * The columns that lines 39-40 and 46-48 coerce in place: `Year` when it
   * is present, and `Latitude` and `Longitude` when both are present.
   */
  predicate Converted(columns: seq<string>, j: nat)
  {
    || (YEAR in columns && j == IndexOf(columns, YEAR))
    || (LATITUDE in columns && LONGITUDE in columns && (j == IndexOf(columns, LATITUDE) || j == IndexOf(columns, LONGITUDE)))
  }

  /**
   * The frame after the in-place coercions of lines 40 and 47-48 (the one
   * written out at line 64 and filtered at line 78): the same labels and
   * rows, each converted column coerced and every other cell unchanged.
   */
  function Exported(f: Frame, parse: Parser): (r: Frame)
    ensures r.columns == f.columns && |r.rows| == |f.rows|
    ensures forall i, j :: 0 <= i < |f.rows| ==>
      CellAt(r.rows[i], j) == if Converted(f.columns, j) then ToNumeric(parse, CellAt(f.rows[i], j)) else CellAt(f.rows[i], j)
  {
    var dated := if YEAR in f.columns then CoerceColumn(f, IndexOf(f.columns, YEAR), parse) else f;
    if LATITUDE in f.columns && LONGITUDE in f.columns then
      var lat, lon := IndexOf(f.columns, LATITUDE), IndexOf(f.columns, LONGITUDE);
      assert YEAR in f.columns ==> IndexOf(f.columns, YEAR) != lat && IndexOf(f.columns, YEAR) != lon;
      assert lat != lon;
      CoerceColumn(CoerceColumn(dated, lat, parse), lon, parse)
    else
      dated
  }

  /**
   * One run. `loaded` is what `get_df("air_pollution")` returned, `parse` is
   * `to_numeric`'s reading of a string, `threshold` is the slider's value.
   */
  method RunDashboard(loaded: Option<Frame>, parse: Parser, threshold: real) returns (out: Outcome)
    // lines 10-11 and 86-87: which branch runs
    ensures out.LoadFailed? <==> loaded.None?
    ensures out.MissingColumns? <==> loaded.Some? && Guard(NormalizeColumns(loaded.value.columns)).None?
    ensures !out.LoadFailed? ==> out.available == NormalizeColumns(loaded.value.columns)
    ensures out.Report? ==> Guard(out.available) == Some(Located(out.country, out.target))
    ensures out.Report? ==> ReportHolds(loaded.value, parse, threshold, out)
  {
    if loaded.None? {
      return LoadFailed;
    }
    var df := loaded.value;

    // line 16
    df := Frame(NormalizeColumns(df.columns), df.rows);
    var available := df.columns;

    // lines 23, 25, 86-87
    var located := Guard(available);
    if located.None? {
      return MissingColumns(available);
    }
    var country, target := located.value.country, located.value.target;

    // lines 26-27
    CleanTargetExact(df, country, target, parse);
    CleanTargetSound(df, country, target, parse);
    df := CoerceColumn(df, target, parse);
    df := DropNa(df, [country, target]);
    var cleaned := df;

    // lines 30-32
    DisplayedSummary(cleaned.rows, country, target);
    var summary := SortDesc(Aggregate(cleaned.rows, country, target), MeanOf);

    // lines 39-41
    var yearwise: Option<seq<Group>> := None;
    if YEAR in available {
      var year := IndexOf(available, YEAR);
      CoercePreservesCleaned(df, year, country, target, parse);
      CoercedColumnNumeric(df, year, parse);
      df := CoerceColumn(df, year, parse);
      yearwise := Some(YearTrend(df, year, target));
    }
    assert AgreeOn(cleaned.rows, df.rows, country, target);
    assert Rectangular(loaded.value) ==> Rectangular(df);

    // lines 46-49
    var mapPoints: Option<Frame> := None;
    if LATITUDE in available && LONGITUDE in available {
      var lat, lon := IndexOf(available, LATITUDE), IndexOf(available, LONGITUDE);
      var before := df;
      CoordinatesCoerced(df, lat, lon, parse);
      CoercePreservesCleaned(df, lat, country, target, parse);
      df := CoerceColumn(df, lat, parse);
      CoercePreservesCleaned(df, lon, country, target, parse);
      var mid := df;
      df := CoerceColumn(df, lon, parse);
      AgreeOnTrans(before.rows, mid.rows, df.rows, country, target);
      AgreeOnTrans(cleaned.rows, before.rows, df.rows, country, target);
      if YEAR in available {
        var year := IndexOf(available, YEAR);
        CoerceAgrees(before, lat, year, target, parse);
        CoerceAgrees(mid, lon, year, target, parse);
        AgreeOnTrans(before.rows, mid.rows, df.rows, year, target);
        GroupsOfTransfers(before.rows, df.rows, year, target, yearwise.value);
      }
      MapPointsNumeric(df, lat, lon);
      mapPoints := Some(DropNa(df, [lat, lon]));
    }

    // line 78
    var filtered := Above(df.rows, target, threshold);

    assert df == Exported(cleaned, parse);
    out := Report(available, country, target, cleaned, summary, yearwise, df, mapPoints, filtered);
    // each promise of lines 26-84 in turn
    assert CleanedFrom(loaded.value, parse, out);
    assert SummaryHolds(out);
    assert ExportHolds(loaded.value, parse, out);
    assert YearwiseHolds(out);
    assert MapHolds(out);
  }

  /**
   * Lines 26-27: exactly the surviving input rows, in their order, each with
   * its target coerced; so each has a country and a numeric target.
   */
  ghost predicate CleanedFrom(loaded: Frame, parse: Parser, out: Outcome)
    requires out.Report?
  {
    var survivors := Survivors(loaded.rows, out.country, out.target, parse);
    && out.cleaned.columns == out.available
    && |out.cleaned.rows| == |survivors|
    && (forall i :: 0 <= i < |survivors| ==> out.cleaned.rows[i] == CoerceCell(survivors[i], out.target, parse))
    && Cleaned(out.cleaned.rows, out.country, out.target)
    && (Rectangular(loaded) ==> Rectangular(out.cleaned))
  }

  /** Lines 30-32: one correct row per country, by non-increasing mean. */
  ghost predicate SummaryHolds(out: Outcome)
    requires out.Report?
  {
    SortedDesc(out.summary, MeanOf) && GroupsOf(out.cleaned.rows, out.country, out.target, out.summary)
  }

  /**
   * Lines 40 and 47-48: the cleaned frame with its converted columns
   * coerced; this never removes a row, nor touches country or target.
   */
  ghost predicate ExportHolds(loaded: Frame, parse: Parser, out: Outcome)
    requires out.Report?
  {
    && out.exported == Exported(out.cleaned, parse)
    && out.exported.columns == out.available
    && AgreeOn(out.cleaned.rows, out.exported.rows, out.country, out.target)
    && Cleaned(out.exported.rows, out.country, out.target)
    && (Rectangular(loaded) ==> Rectangular(out.exported))
  }

  /** Lines 41-42: one correct mean per distinct present year, in ascending year order. */
  ghost predicate YearwiseHolds(out: Outcome)
    requires out.Report?
  {
    && (out.yearwise.Some? <==> YEAR in out.available)
    && (out.yearwise.Some? ==>
         && GroupsOf(out.exported.rows, IndexOf(out.available, YEAR), out.target, out.yearwise.value)
         && (forall i :: 0 <= i < |out.yearwise.value| ==> out.yearwise.value[i].key.Num?)
         && (forall i, j :: 0 <= i < j < |out.yearwise.value| ==> out.yearwise.value[i].key.number < out.yearwise.value[j].key.number))
  }

  /** Line 49: the map points are the `dropna` of the exported frame on both coordinates: the rows with numeric coordinates. */
  ghost predicate MapHolds(out: Outcome)
    requires out.Report?
  {
    && (out.mapPoints.Some? <==> LATITUDE in out.available && LONGITUDE in out.available)
    && (out.mapPoints.Some? ==>
         var lat, lon := IndexOf(out.available, LATITUDE), IndexOf(out.available, LONGITUDE);
         && out.mapPoints.value == DropNa(out.exported, [lat, lon])
         && IsSubsequence(out.mapPoints.value.rows, out.exported.rows)
         && (forall row :: row in out.mapPoints.value.rows ==> NumAt(row, lat).Some? && NumAt(row, lon).Some?)
         && (forall row :: row in out.exported.rows && NumAt(row, lat).Some? && NumAt(row, lon).Some? ==> row in out.mapPoints.value.rows))
  }

  /** The promises of lines 26-84 about a `Report` produced from `loaded`. */
  ghost predicate ReportHolds(loaded: Frame, parse: Parser, threshold: real, out: Outcome)
    requires out.Report?
  {
    && CleanedFrom(loaded, parse, out)
    && SummaryHolds(out)
    && ExportHolds(loaded, parse, out)
    && YearwiseHolds(out)
    && MapHolds(out)
    // line 78: the rows above the threshold
    && out.filtered == Above(out.exported.rows, out.target, threshold)
  }

  /** Lines 47-48: after both in-place coercions, both coordinate columns hold only numbers or missing cells. */
  lemma CoordinatesCoerced(f: Frame, lat: nat, lon: nat, parse: Parser)
    requires lat != lon
    ensures forall row :: row in CoerceColumn(CoerceColumn(f, lat, parse), lon, parse).rows ==>
      NumericOrMissing(row, lat) && NumericOrMissing(row, lon)
  {
    var h := CoerceColumn(f, lat, parse);
    var g := CoerceColumn(h, lon, parse);
    CoercedColumnNumeric(f, lat, parse);
    CoercedColumnNumeric(h, lon, parse);
    forall row | row in g.rows ensures NumericOrMissing(row, lat) && NumericOrMissing(row, lon) {
      var i :| 0 <= i < |g.rows| && g.rows[i] == row;
      assert h.rows[i] in h.rows;
    }
  }

  /**
   * Line 49: on coerced coordinates, `dropna` keeps exactly the rows, in
   * their order, whose latitude and longitude are both numbers.
   */
  lemma MapPointsNumeric(g: Frame, lat: nat, lon: nat)
    requires forall row :: row in g.rows ==> NumericOrMissing(row, lat) && NumericOrMissing(row, lon)
    ensures var m := DropNa(g, [lat, lon]);
      && IsSubsequence(m.rows, g.rows)
      && (forall row :: row in m.rows ==> NumAt(row, lat).Some? && NumAt(row, lon).Some?)
      && (forall row :: row in g.rows && NumAt(row, lat).Some? && NumAt(row, lon).Some? ==> row in m.rows)
  {
    var m := DropNa(g, [lat, lon]);
    forall row | row in m.rows ensures NumAt(row, lat).Some? && NumAt(row, lon).Some? {
      assert multiset(m.rows)[row] > 0;
      assert row in g.rows;
      assert Complete(row, [lat, lon]);
      assert CellAt(row, lat).Some? && CellAt(row, lon).Some?;
    }
    forall row | row in g.rows && NumAt(row, lat).Some? && NumAt(row, lon).Some? ensures row in m.rows {
      assert Complete(row, [lat, lon]);
      assert multiset(m.rows)[row] == multiset(g.rows)[row] > 0;
    }
  }
}
