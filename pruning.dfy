/** Column pruning: the audit that reports the columns whose values are more
    than half zero, and the drop of a fixed list of columns chosen from that
    report. The list is a constant, not recomputed from the data. */
module Pruning {
  import opened Frames

  /** The columns removed after the zero-fraction report. */
  const ColumnsToRemove: seq<string> :=
    ["Atmos_Pressure", "Rainfall", "Avg_Visibility", "Avg_Wind_Speed", "Max_Wind_Speed"]

  function ZeroMask(): real -> bool {
    x => x == 0.0
  }

  /** `(df == 0).sum()` for one column. */
  function ZeroCount(c: seq<real>): nat {
    |Filter(c, ZeroMask())|
  }

  /** `(df == 0).mean() * 100` for one non-empty column. */
  function ZeroPercentage(c: seq<real>): (r: real)
    requires |c| > 0
    ensures 0.0 <= r <= 100.0
  {
    var z := ZeroCount(c) as real;
    var n := |c| as real;
    FractionAtMostOne(z, n);
    z / n * 100.0
  }

  lemma FractionAtMostOne(z: real, n: real)
    requires 0.0 <= z <= n && n > 0.0
    ensures 0.0 <= z / n <= 1.0
  {
    assert z / n * n == z;
    ScaleByPositive(z / n, 1.0, n);
  }

  /** `zero_percentage > 50`; the percentage of an empty column is NaN, which is
      never greater than 50. */
  predicate HighZero(c: seq<real>)
    ensures HighZero(c) <==> 2 * ZeroCount(c) > |c|
  {
    if |c| > 0 then
      PercentageAboveHalf(ZeroCount(c), |c|);
      ZeroPercentage(c) > 50.0
    else false
  }

  /** For a non-empty column, a zero share above 50 percent is a zero count
      above half the length. */
  lemma PercentageAboveHalf(z: nat, n: nat)
    requires n > 0
    ensures z as real / n as real * 100.0 > 50.0 <==> 2 * z > n
  {
    var m := n as real;
    var p := z as real / m;
    assert p * m == z as real;
    ScaleByPositive(p * 100.0, 50.0, m);
    assert p * 100.0 * m == 100.0 * z as real;
  }

  lemma ScaleByPositive(a: real, b: real, m: real)
    requires m > 0.0
    ensures a > b <==> a * m > b * m
  {
    if a > b {
      assert (a - b) * m > 0.0;
    } else {
      assert (b - a) * m >= 0.0;
    }
  }

  /** A column is reported exactly when strictly more than half of its cells are 0. */
  lemma HighZeroIffMostlyZero(c: seq<real>)
    ensures HighZero(c) <==> 2 * |Matching(c, ZeroMask())| > |c|
  {
    FilterSizeIsMatchCount(c, ZeroMask());
    if |c| > 0 {
      PercentageAboveHalf(ZeroCount(c), |c|);
    }
  }

  /** The reported names among the first `k` columns. */
  function HighZeroPrefix(f: Frame, k: nat): (r: seq<string>)
    requires WellFormed(f) && k <= |f.columns|
    ensures forall name :: name in r <==>
      exists j | 0 <= j < k :: f.columns[j] == name && HighZero(Column(f, j))
  {
    if k == 0 then []
    else HighZeroPrefix(f, k - 1) + (if HighZero(Column(f, k - 1)) then [f.columns[k - 1]] else [])
  }

  /** `columns_with_high_zeros`: the reported column names. */
  function HighZeroColumns(f: Frame): (r: seq<string>)
    requires WellFormed(f)
    ensures forall name :: name in r <==>
      exists j | 0 <= j < |f.columns| :: f.columns[j] == name && HighZero(Column(f, j))
  {
    HighZeroPrefix(f, |f.columns|)
  }

  /** The report names exactly the columns more than half of whose cells are 0. */
  lemma HighZeroColumnsExactly(f: Frame)
    requires WellFormed(f)
    ensures forall name :: name in HighZeroColumns(f) <==>
      exists j | 0 <= j < |f.columns| :: f.columns[j] == name && 2 * |Matching(Column(f, j), ZeroMask())| > |f.rows|
  {
    forall j | 0 <= j < |f.columns|
      ensures HighZero(Column(f, j)) <==> 2 * |Matching(Column(f, j), ZeroMask())| > |f.rows|
    {
      HighZeroIffMostlyZero(Column(f, j));
    }
  }

  /** The first listed name the table lacks. */
  function FirstMissing(columns: seq<string>, names: seq<string>): (r: Option<string>)
    ensures r.None? <==> forall k | 0 <= k < |names| :: names[k] in columns
    ensures r.Some? ==> r.value in names && r.value !in columns
  {
    if |names| == 0 then None
    else if names[0] !in columns then Some(names[0])
    else
      var rest := FirstMissing(columns, names[1..]);
      assert forall k | 0 < k < |names| :: names[k] == names[1..][k - 1];
      rest
  }

  function KeepColumnMask(names: seq<string>): string -> bool {
    c => c !in names
  }

  /** The cells of `row` at the positions `keep`. */
  function Project(row: Row, keep: seq<nat>): (r: Row)
    requires forall a | 0 <= a < |keep| :: keep[a] < |row|
    ensures |r| == |keep|
  {
    seq(|keep|, a requires 0 <= a < |keep| => row[keep[a]])
  }

  /** The frame without the columns named in `names`: the header keeps the
      other names in order, and every row keeps the cells under them. */
  function KeepColumns(f: Frame, names: seq<string>): (r: Frame)
    requires WellFormed(f)
    ensures WellFormed(r) && |r.rows| == |f.rows|
    ensures forall c :: c in r.columns <==> c in f.columns && c !in names
  {
    var mask := KeepColumnMask(names);
    var keep := Selected(f.columns, mask);
    FilterIsSelection(f.columns, mask);
    FilterMembers(f.columns, mask);
    FilterKeepsDistinct(f.columns, mask);
    Frame(Filter(f.columns, mask), seq(|f.rows|, i requires 0 <= i < |f.rows| => Project(f.rows[i], keep)))
  }

  /** Every cell of `r` is the cell of the same row of `f` under the same
      column name. */
  predicate KeepsData(f: Frame, r: Frame) {
    forall i, k | 0 <= i < |r.rows| && i < |f.rows| && 0 <= k < |r.columns| && k < |r.rows[i]| ::
      exists j | 0 <= j < |f.columns| && j < |f.rows[i]| :: f.columns[j] == r.columns[k] && r.rows[i][k] == f.rows[i][j]
  }

  lemma KeepColumnsKeepsData(f: Frame, names: seq<string>)
    requires WellFormed(f)
    ensures KeepsData(f, KeepColumns(f, names))
  {
    var mask := KeepColumnMask(names);
    var keep := Selected(f.columns, mask);
    FilterIsSelection(f.columns, mask);
    var r := KeepColumns(f, names);
    forall i, k | 0 <= i < |r.rows| && i < |f.rows| && 0 <= k < |r.columns| && k < |r.rows[i]|
      ensures exists j | 0 <= j < |f.columns| && j < |f.rows[i]| :: f.columns[j] == r.columns[k] && r.rows[i][k] == f.rows[i][j]
    {
      assert f.columns[keep[k]] == r.columns[k];
      assert r.rows[i][k] == f.rows[i][keep[k]];
    }
  }

  /** `df.drop(columns=names)`: fails on a listed name the table lacks;
      otherwise removes the listed columns from the header and from every row. */
  function DropColumns(f: Frame, names: seq<string>): (r: Result<Frame>)
    requires WellFormed(f)
    ensures r.MissingColumn? <==> exists k | 0 <= k < |names| :: names[k] !in f.columns
    ensures r.MissingColumn? ==> r.name in names && r.name !in f.columns
    ensures r.Ok? ==> WellFormed(r.value) && |r.value.rows| == |f.rows|
    ensures r.Ok? ==> forall c :: c in r.value.columns <==> c in f.columns && c !in names
  {
    match FirstMissing(f.columns, names)
    case Some(name) => MissingColumn(name)
    case None => Ok(KeepColumns(f, names))
  }

  /** Dropping keeps the remaining columns in their existing order and keeps
      their data: every remaining column holds, row by row, the cells it held
      before. */
  lemma DropKeepsRemainingColumns(f: Frame, names: seq<string>)
    requires WellFormed(f) && DropColumns(f, names).Ok?
    ensures DropColumns(f, names).value.columns == Filter(f.columns, KeepColumnMask(names))
    ensures KeepsData(f, DropColumns(f, names).value)
  {
    assert FirstMissing(f.columns, names).None?;
    KeepColumnsKeepsData(f, names);
  }
}
