/**
 * `df.groupby(col)[target].agg(["mean", "max"])` and the display order
 * `sort_values("Average_PM2_5", ascending=False)`, hello.py lines 30-32;
 * the same grouping gives the year-wise mean of line 41.
 */
module Summary {
  import opened Wrappers
  import opened Frames
  import opened Stats
  import opened Sequences
  import Cleaning

  /** One row of the summary: the group's key, `Average_PM2_5` and `Max_PM2_5`. */
  datatype Group = Group(key: Value, mean: real, max: real)

  /** Some row of `rows` has `key` in column `col`. */
  predicate HasKey(rows: seq<Row>, col: nat, key: Value)
  {
    exists row :: row in rows && CellAt(row, col) == Some(key)
  }

  /**
   * The distinct present values of column `col`, in order of first
   * appearance (missing keys form no group, as in pandas): no value twice,
   * and a value is listed exactly when some row holds it.
   */
  function Keys(rows: seq<Row>, col: nat): (r: seq<Value>)
    ensures forall i, j :: 0 <= i < j < |r| ==> r[i] != r[j]
    ensures forall v :: v in r <==> HasKey(rows, col, v)
  {
    if rows == [] then []
    else
      var front := rows[..|rows| - 1];
      var last := rows[|rows| - 1];
      var ks := Keys(front, col);
      assert forall row :: row in rows <==> row in front || row == last;
      match CellAt(last, col)
      case Some(v) => if v in ks then ks else ks + [v]
      case None => ks
  }

  /**
   * The numeric targets of the rows whose `col` holds `key`, one entry per
   * such row in row order: a number is listed exactly when such a row
   * carries it (and `TargetsCount` says how often).
   */
  function TargetsOf(rows: seq<Row>, col: nat, target: nat, key: Value): (r: seq<real>)
    ensures forall x :: x in r <==> exists row :: row in rows && CellAt(row, col) == Some(key) && NumAt(row, target) == Some(x)
  {
    if rows == [] then []
    else
      var rest := TargetsOf(rows[1..], col, target, key);
      assert forall row :: row in rows <==> row == rows[0] || row in rows[1..];
      if CellAt(rows[0], col) == Some(key) && NumAt(rows[0], target).Some?
      then [NumAt(rows[0], target).value] + rest
      else rest
  }

  /** `row` has `key` in column `col` and the number `x` as its target. */
  predicate Carries(row: Row, col: nat, target: nat, key: Value, x: real)
  {
    CellAt(row, col) == Some(key) && NumAt(row, target) == Some(x)
  }

  /**
   * Every row of the key contributes one entry to the mean: `x` is listed
   * as often as there are rows with `key` and target `x`.
   */
  lemma {:induction false} TargetsCount(rows: seq<Row>, col: nat, target: nat, key: Value, x: real)
    ensures multiset(TargetsOf(rows, col, target, key))[x] == |Filter(rows, row => Carries(row, col, target, key, x))|
  {
    if rows != [] {
      TargetsCount(rows[1..], col, target, key, x);
    }
  }

  /** A present key of cleaned rows has at least one target. */
  lemma TargetsNonEmpty(rows: seq<Row>, col: nat, target: nat, key: Value)
    requires Cleaning.Cleaned(rows, col, target)
    requires HasKey(rows, col, key)
    ensures |TargetsOf(rows, col, target, key)| > 0
  {
    var row :| row in rows && CellAt(row, col) == Some(key);
    assert NumAt(row, target).value in TargetsOf(rows, col, target, key);
  }

  /**
   * `mean` and `max` are the correct aggregates of the numbers `vs`: `max`
   * is one of them and none exceeds it; `mean` times their count is their
   * sum, and lies between the smallest and the largest of them.
   */
  predicate Aggregates(vs: seq<real>, mean: real, max: real)
  {
    && |vs| > 0
    && max in vs
    && (forall x :: x in vs ==> x <= max)
    && mean * |vs| as real == Sum(vs)
    && (exists x :: x in vs && x <= mean)
    && (exists x :: x in vs && mean <= x)
  }

  /** `g` is the correct summary row of its key among `rows`. */
  predicate Summarises(rows: seq<Row>, col: nat, target: nat, g: Group)
  {
    Aggregates(TargetsOf(rows, col, target, g.key), g.mean, g.max)
  }

  /** `Mean` and `Max` are the correct aggregates. */
  lemma MeanMaxAggregate(vs: seq<real>)
    requires |vs| > 0
    ensures Aggregates(vs, Mean(vs), Max(vs))
  {
    assert Min(vs) in vs && Min(vs) <= Mean(vs);
  }

  /** The summary row of one key. */
  function GroupOf(rows: seq<Row>, col: nat, target: nat, key: Value): (g: Group)
    requires Cleaning.Cleaned(rows, col, target)
    requires HasKey(rows, col, key)
    ensures g.key == key && Summarises(rows, col, target, g)
  {
    TargetsNonEmpty(rows, col, target, key);
    var vs := TargetsOf(rows, col, target, key);
    MeanMaxAggregate(vs);
    Group(key, Mean(vs), Max(vs))
  }

  /**
   * The grouped aggregation: one row per distinct present key (no key twice,
   * every key of the input present), each row the correct mean and max of
   * that key's targets.
   */
  function Aggregate(rows: seq<Row>, col: nat, target: nat): (r: seq<Group>)
    requires Cleaning.Cleaned(rows, col, target)
    ensures GroupsOf(rows, col, target, r)
  {
    var ks := Keys(rows, col);
    var r := seq(|ks|, i requires 0 <= i < |ks| => GroupOf(rows, col, target, ks[i]));
    assert forall i :: 0 <= i < |r| ==> r[i].key == ks[i];
    assert forall v :: HasKey(rows, col, v) ==> exists g :: g in r && g.key == v by {
      forall v | HasKey(rows, col, v) ensures exists g :: g in r && g.key == v {
        var i :| 0 <= i < |ks| && ks[i] == v;
        assert r[i] in r;
      }
    }
    r
  }

  /** No key occurs twice. */
  predicate DistinctKeys(gs: seq<Group>)
  {
    forall i, j :: 0 <= i < j < |gs| ==> gs[i].key != gs[j].key
  }

  /**
   * `gs` is the grouped aggregation of `rows`: no key twice, a group for
   * exactly the keys present, each the correct summary of its key.
   */
  ghost predicate GroupsOf(rows: seq<Row>, col: nat, target: nat, gs: seq<Group>)
  {
    && DistinctKeys(gs)
    && (forall v :: HasKey(rows, col, v) <==> exists g :: g in gs && g.key == v)
    && (forall g :: g in gs ==> Summarises(rows, col, target, g))
  }

  /** Non-increasing in `rank`. */
  predicate SortedDesc(gs: seq<Group>, rank: Group -> real)
  {
    forall i, j :: 0 <= i < j < |gs| ==> rank(gs[i]) >= rank(gs[j])
  }

  /** `Average_PM2_5`, the column the summary table is sorted on. */
  function MeanOf(g: Group): real
  {
    g.mean
  }

  /** A year ranks higher the earlier it is, so that non-increasing rank is ascending year. */
  function EarlierFirst(g: Group): real
  {
    if g.key.Num? then -g.key.number else 0.0
  }

  /** In a sorted sequence nothing ranks above the first row. */
  lemma HeadRanksHighest(gs: seq<Group>, rank: Group -> real)
    requires gs != [] && SortedDesc(gs, rank)
    ensures forall x :: x in gs ==> rank(x) <= rank(gs[0])
  {
    forall x | x in gs ensures rank(x) <= rank(gs[0]) {
      var k :| 0 <= k < |gs| && gs[k] == x;
    }
  }

  /** Inserting `g` before the first row that does not rank above it. */
  function InsertBy(g: Group, gs: seq<Group>, rank: Group -> real): (r: seq<Group>)
    requires SortedDesc(gs, rank)
    ensures SortedDesc(r, rank)
    ensures multiset(r) == multiset(gs) + multiset{g}
  {
    if gs == [] || rank(g) >= rank(gs[0]) then
      [g] + gs
    else
      var rest := InsertBy(g, gs[1..], rank);
      assert gs == [gs[0]] + gs[1..];
      HeadRanksHighest(gs, rank);
      assert forall x :: x in rest ==> rank(x) <= rank(gs[0]) by {
        forall x | x in rest ensures rank(x) <= rank(gs[0]) {
          assert x in multiset(rest);
          assert x in gs[1..] || x == g;
        }
      }
      var r := [gs[0]] + rest;
      assert forall j :: 0 < j < |r| ==> r[j] in rest;
      r
  }

  /**
   * Sorting by `rank`, highest first: the same rows, each as often as
   * before, by non-increasing rank. Rows of equal rank may come in any
   * order.
   */
  function SortDesc(gs: seq<Group>, rank: Group -> real): (r: seq<Group>)
    ensures SortedDesc(r, rank)
    ensures multiset(r) == multiset(gs)
  {
    if gs == [] then []
    else
      assert gs == [gs[0]] + gs[1..];
      InsertBy(gs[0], SortDesc(gs[1..], rank), rank)
  }

  /** In a sequence with distinct keys, each group occurs once. */
  lemma {:induction false} DistinctKeysOccurOnce(gs: seq<Group>, a: nat)
    requires a < |gs|
    requires DistinctKeys(gs)
    ensures multiset(gs)[gs[a]] == 1
  {
    assert gs == [gs[0]] + gs[1..];
    if a == 0 {
      assert gs[0] !in gs[1..];
    } else {
      DistinctKeysOccurOnce(gs[1..], a - 1);
    }
  }

  /** Reordering keeps keys distinct. */
  lemma PermutationKeepsDistinctKeys(a: seq<Group>, b: seq<Group>)
    requires multiset(a) == multiset(b)
    requires DistinctKeys(a)
    ensures DistinctKeys(b)
  {
    forall i, j | 0 <= i < j < |b| ensures b[i].key != b[j].key {
      if b[i].key == b[j].key {
        assert b[i] in multiset(a) && b[j] in multiset(a);
        var x :| 0 <= x < |a| && a[x] == b[i];
        var y :| 0 <= y < |a| && a[y] == b[j];
        assert x == y;
        assert multiset(b)[b[i]] >= 2 by {
          assert b == b[..j] + [b[j]] + b[j + 1..];
          assert b[i] in b[..j];
        }
        DistinctKeysOccurOnce(a, x);
        assert false;
      }
    }
  }

  /** Reordering a grouped aggregation keeps it one: the same groups, still no key twice. */
  lemma SortKeepsGroups(rows: seq<Row>, col: nat, target: nat, gs: seq<Group>, rank: Group -> real)
    requires GroupsOf(rows, col, target, gs)
    ensures GroupsOf(rows, col, target, SortDesc(gs, rank))
  {
    var sorted := SortDesc(gs, rank);
    assert forall g :: g in sorted <==> g in gs by {
      forall g ensures g in sorted <==> g in gs {
        assert g in sorted <==> g in multiset(sorted);
        assert g in gs <==> g in multiset(gs);
      }
    }
    PermutationKeepsDistinctKeys(gs, sorted);
  }

  /**
   * The summary table as shown (`sort_values("Average_PM2_5",
   * ascending=False)`): one row per country of the cleaned rows, no country
   * twice, each row correct for its country, by non-increasing mean.
   */
  lemma DisplayedSummary(rows: seq<Row>, col: nat, target: nat)
    requires Cleaning.Cleaned(rows, col, target)
    ensures SortedDesc(SortDesc(Aggregate(rows, col, target), MeanOf), MeanOf)
    ensures GroupsOf(rows, col, target, SortDesc(Aggregate(rows, col, target), MeanOf))
  {
    SortKeepsGroups(rows, col, target, Aggregate(rows, col, target), MeanOf);
  }

  /** Grouping reads only the key column and the numeric target: rows that agree on them group alike. */
  lemma {:induction false} SameGroups(a: seq<Row>, b: seq<Row>, col: nat, target: nat)
    requires AgreeOn(a, b, col, target)
    ensures forall v :: HasKey(a, col, v) == HasKey(b, col, v)
    ensures forall v :: TargetsOf(a, col, target, v) == TargetsOf(b, col, target, v)
  {
    forall v ensures HasKey(a, col, v) == HasKey(b, col, v) {
      if HasKey(a, col, v) {
        var row :| row in a && CellAt(row, col) == Some(v);
        var i :| 0 <= i < |a| && a[i] == row;
        assert b[i] in b;
      }
      if HasKey(b, col, v) {
        var row :| row in b && CellAt(row, col) == Some(v);
        var i :| 0 <= i < |b| && b[i] == row;
        assert a[i] in a;
      }
    }
    if a != [] {
      assert AgreeOn(a[1..], b[1..], col, target) by {
        forall i | 0 <= i < |a| - 1
          ensures CellAt(a[1..][i], col) == CellAt(b[1..][i], col) && NumAt(a[1..][i], target) == NumAt(b[1..][i], target)
        {
          assert a[1..][i] == a[i + 1] && b[1..][i] == b[i + 1];
        }
      }
      SameGroups(a[1..], b[1..], col, target);
    }
  }

  /** Dropping the rows whose key is missing (`dropna(subset=[col])`) changes no group. */
  lemma {:induction false} KeyedRowsSuffice(rows: seq<Row>, col: nat, target: nat, p: Row -> bool)
    requires forall row :: p(row) == CellAt(row, col).Some?
    ensures forall v :: HasKey(Filter(rows, p), col, v) == HasKey(rows, col, v)
    ensures forall v :: TargetsOf(Filter(rows, p), col, target, v) == TargetsOf(rows, col, target, v)
  {
    var kept := Filter(rows, p);
    forall v ensures HasKey(kept, col, v) == HasKey(rows, col, v) {
      if HasKey(rows, col, v) {
        var row :| row in rows && CellAt(row, col) == Some(v);
        assert multiset(kept)[row] == multiset(rows)[row] > 0;
      }
      if HasKey(kept, col, v) {
        var row :| row in kept && CellAt(row, col) == Some(v);
        assert multiset(kept)[row] > 0;
      }
    }
    if rows != [] {
      KeyedRowsSuffice(rows[1..], col, target, p);
    }
  }

  /**
   * `df.dropna(subset=["Year"])` grouped by year, once the year column is
   * coerced: the groups are those of all rows of `f`, and every key is a number.
   */
  lemma DatedGroups(f: Frame, year: nat, target: nat)
    requires forall row :: row in f.rows ==> NumAt(row, target).Some?
    requires forall row :: row in f.rows ==> NumericOrMissing(row, year)
    ensures Cleaning.Cleaned(Cleaning.DropNa(f, [year]).rows, year, target)
    ensures GroupsOf(f.rows, year, target, Aggregate(Cleaning.DropNa(f, [year]).rows, year, target))
    ensures forall g :: g in Aggregate(Cleaning.DropNa(f, [year]).rows, year, target) ==> g.key.Num?
  {
    var dated := Cleaning.DropNa(f, [year]);
    forall row | row in dated.rows ensures CellAt(row, year).Some? && NumAt(row, target).Some? {
      assert multiset(dated.rows)[row] > 0;
    }
    KeyedRowsSuffice(f.rows, year, target, row => Cleaning.Complete(row, [year]));
    var r := Aggregate(dated.rows, year, target);
    GroupsOfCarry(dated.rows, f.rows, year, target, r);
    forall g | g in r ensures g.key.Num? {
      assert HasKey(f.rows, year, g.key);
      var row :| row in f.rows && CellAt(row, year) == Some(g.key);
      assert NumericOrMissing(row, year);
    }
  }

  /**
   * Line 41, `df.dropna(subset=["Year"]).groupby("Year")[pm_col].mean()`,
   * once the year column is coerced: one row per distinct present year,
   * each a number, each with the correct mean of its targets among all rows
   * of `f`, in strictly ascending year order (the sorted index of `groupby`,
   * along which line 42 draws its line).
   */
  function YearTrend(f: Frame, year: nat, target: nat): (r: seq<Group>)
    requires forall row :: row in f.rows ==> NumAt(row, target).Some?
    requires forall row :: row in f.rows ==> NumericOrMissing(row, year)
    ensures GroupsOf(f.rows, year, target, r)
    ensures forall i :: 0 <= i < |r| ==> r[i].key.Num?
    ensures forall i, j :: 0 <= i < j < |r| ==> r[i].key.number < r[j].key.number
  {
    DatedGroups(f, year, target);
    var agg := Aggregate(Cleaning.DropNa(f, [year]).rows, year, target);
    var r := SortDesc(agg, EarlierFirst);
    SortKeepsGroups(f.rows, year, target, agg, EarlierFirst);
    SortedYearsAscend(agg, r);
    r
  }

  /**
   * Sorted by `EarlierFirst`, a reordering of groups with distinct numeric
   * keys has numeric keys in strictly ascending order.
   */
  lemma SortedYearsAscend(gs: seq<Group>, sorted: seq<Group>)
    requires forall g :: g in gs ==> g.key.Num?
    requires multiset(sorted) == multiset(gs)
    requires DistinctKeys(sorted) && SortedDesc(sorted, EarlierFirst)
    ensures forall i :: 0 <= i < |sorted| ==> sorted[i].key.Num?
    ensures forall i, j :: 0 <= i < j < |sorted| ==> sorted[i].key.number < sorted[j].key.number
  {
    forall i | 0 <= i < |sorted| ensures sorted[i].key.Num? {
      assert sorted[i] in multiset(gs);
    }
    forall i, j | 0 <= i < j < |sorted| ensures sorted[i].key.number < sorted[j].key.number {
      assert EarlierFirst(sorted[i]) >= EarlierFirst(sorted[j]);
    }
  }

  /** The grouped aggregation depends only on which keys are present and on each key's targets. */
  lemma GroupsOfCarry(a: seq<Row>, b: seq<Row>, col: nat, target: nat, gs: seq<Group>)
    requires forall v :: HasKey(a, col, v) == HasKey(b, col, v)
    requires forall v :: TargetsOf(a, col, target, v) == TargetsOf(b, col, target, v)
    requires GroupsOf(a, col, target, gs)
    ensures GroupsOf(b, col, target, gs)
  {
    forall g | g in gs ensures Summarises(b, col, target, g) {
      assert Summarises(a, col, target, g);
      assert TargetsOf(a, col, target, g.key) == TargetsOf(b, col, target, g.key);
    }
  }

  /** The grouped aggregation of rows stays correct for rows that agree with them on key and target. */
  lemma GroupsOfTransfers(a: seq<Row>, b: seq<Row>, col: nat, target: nat, gs: seq<Group>)
    requires AgreeOn(a, b, col, target)
    requires GroupsOf(a, col, target, gs)
    ensures GroupsOf(b, col, target, gs)
  {
    SameGroups(a, b, col, target);
    GroupsOfCarry(a, b, col, target, gs);
  }
}
