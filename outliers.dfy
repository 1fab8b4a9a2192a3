/** The interquartile-range outlier filter: the first and third quartile of
    every column are computed once, on the table before filtering; a cell is an
    outlier when it lies strictly outside [Q1 - 1.5 IQR, Q3 + 1.5 IQR]; a row
    with any outlier cell is dropped and every other row is kept, in order. */
module Outliers {
  import opened Frames
  import opened Quantiles

  /** The first and third quartile of one column, and the fence they define. */
  datatype Quartiles = Quartiles(q1: real, q3: real) {
    function Iqr(): real { q3 - q1 }
    function Lower(): real { q1 - 1.5 * Iqr() }
    function Upper(): real { q3 + 1.5 * Iqr() }
  }

  /** The quartiles of a column; an empty column has none (pandas gives NaN,
      and a comparison with NaN never flags a cell). */
  function ColumnQuartiles(c: seq<real>): (r: Option<Quartiles>)
    ensures r.None? <==> |c| == 0
    ensures r.Some? ==> r.value.q1 <= r.value.q3
    ensures r.Some? ==> exists i | 0 <= i < |c| :: c[i] <= r.value.q1
    ensures r.Some? ==> exists i | 0 <= i < |c| :: r.value.q3 <= c[i]
  {
    if |c| == 0 then None
    else
      var s := Sort(c);
      assert |s| == |multiset(s)| == |multiset(c)| == |c|;
      QuantileMonotone(s, 0.25, 0.75);
      assert s[0] in multiset(c) && s[|s| - 1] in multiset(c);
      Some(Quartiles(Quantile(s, 0.25), Quantile(s, 0.75)))
  }

  /** The fences are ordered: IQR is never negative and Q1, Q3 lie inside the fence. */
  lemma FenceOrdered(c: seq<real>)
    requires |c| > 0
    ensures var q := ColumnQuartiles(c).value;
      q.Iqr() >= 0.0 && q.Lower() <= q.q1 <= q.q3 <= q.Upper()
  {
  }

  /** The quartiles of every column of the table (`df.quantile(0.25)` and
      `df.quantile(0.75)`). */
  function TableQuartiles(f: Frame): (r: seq<Option<Quartiles>>)
    requires WellFormed(f)
    ensures |r| == |f.columns|
    ensures forall j | 0 <= j < |r| :: r[j].None? <==> |f.rows| == 0
    ensures forall j | 0 <= j < |r| && r[j].Some? :: r[j].value.q1 <= r[j].value.q3
  {
    seq(|f.columns|, j requires 0 <= j < |f.columns| => ColumnQuartiles(Column(f, j)))
  }

  /** The cell lies between its column's quartiles, or the column has none. */
  predicate InsideBox(x: real, q: Option<Quartiles>) {
    q.None? || q.value.q1 <= x <= q.value.q3
  }

  /** Every cell of the row lies between its column's quartiles. */
  predicate RowInsideBox(row: Row, quartiles: seq<Option<Quartiles>>) {
    forall j | 0 <= j < |row| && j < |quartiles| :: InsideBox(row[j], quartiles[j])
  }

  /** One cell of the outlier mask. A cell between Q1 and Q3 is never flagged,
      and neither is any cell of a column without quartiles. */
  predicate Flagged(x: real, q: Option<Quartiles>)
    ensures InsideBox(x, q) ==> !Flagged(x, q)
    ensures q.None? ==> !Flagged(x, q)
  {
    q.Some? && (x < q.value.Lower() || x > q.value.Upper())
  }

  /** `outliers_iqr.any(axis=1)` for one row. A row within the quartile box is
      never an outlier row. */
  predicate OutlierRow(row: Row, quartiles: seq<Option<Quartiles>>)
    ensures RowInsideBox(row, quartiles) ==> !OutlierRow(row, quartiles)
  {
    exists j | 0 <= j < |row| && j < |quartiles| :: Flagged(row[j], quartiles[j])
  }

  /** The mask of rows to keep (`~outliers_iqr.any(axis=1)`): it keeps every
      row within the quartile box and drops every row with a flagged cell. */
  function KeepMask(quartiles: seq<Option<Quartiles>>): (keep: Row -> bool)
    ensures forall row | RowInsideBox(row, quartiles) :: keep(row)
    ensures forall row, j | 0 <= j < |row| && j < |quartiles| && Flagged(row[j], quartiles[j]) :: !keep(row)
  {
    row => !OutlierRow(row, quartiles)
  }

  /** `df_clean[~outliers_iqr.any(axis=1)]`: the frame without its outlier rows. */
  function RemoveOutliers(f: Frame): (r: Frame)
    requires WellFormed(f)
    ensures WellFormed(r) && r.columns == f.columns
    ensures |r.rows| <= |f.rows|
  {
    FilterMembers(f.rows, KeepMask(TableQuartiles(f)));
    Frame(f.columns, Filter(f.rows, KeepMask(TableQuartiles(f))))
  }

  /** The kept rows are the input rows, in their original order, at exactly the
      positions whose row has no cell strictly outside its column's fence. */
  lemma RemovedIffSomeCellOutside(f: Frame)
    requires WellFormed(f)
    ensures var kept := Selected(f.rows, KeepMask(TableQuartiles(f)));
      && |RemoveOutliers(f).rows| == |kept|
      && (forall k | 0 <= k < |kept| :: RemoveOutliers(f).rows[k] == f.rows[kept[k]])
      && (forall k, l | 0 <= k < l < |kept| :: kept[k] < kept[l])
      && (forall i | 0 <= i < |f.rows| ::
            i in kept <==>
            forall j | 0 <= j < |f.columns| ::
              !Flagged(f.rows[i][j], ColumnQuartiles(Column(f, j))))
  {
    var p := KeepMask(TableQuartiles(f));
    var kept := Selected(f.rows, p);
    FilterIsSelection(f.rows, p);
    forall i | 0 <= i < |f.rows|
      ensures i in kept <==>
        forall j | 0 <= j < |f.columns| :: !Flagged(f.rows[i][j], ColumnQuartiles(Column(f, j)))
    {
      KeptIffNoCellFlagged(f, i);
      if i in kept {
        var k :| 0 <= k < |kept| && kept[k] == i;
        assert p(f.rows[i]);
      }
    }
  }

  lemma KeptIffNoCellFlagged(f: Frame, i: nat)
    requires WellFormed(f) && i < |f.rows|
    ensures KeepMask(TableQuartiles(f))(f.rows[i]) <==>
      forall j | 0 <= j < |f.columns| :: !Flagged(f.rows[i][j], ColumnQuartiles(Column(f, j)))
  {
    var quartiles := TableQuartiles(f);
    forall j | 0 <= j < |f.columns| ensures quartiles[j] == ColumnQuartiles(Column(f, j)) {
    }
  }

  /** Every cell of every kept row lies inside the fence computed from the
      quartiles of the unfiltered table. */
  lemma KeptCellsWithinFences(f: Frame)
    requires WellFormed(f)
    ensures forall row, j | row in RemoveOutliers(f).rows && 0 <= j < |f.columns| ::
      && ColumnQuartiles(Column(f, j)).Some?
      && ColumnQuartiles(Column(f, j)).value.Lower() <= row[j] <= ColumnQuartiles(Column(f, j)).value.Upper()
  {
    var quartiles := TableQuartiles(f);
    var rows := RemoveOutliers(f).rows;
    FilterMembers(f.rows, KeepMask(quartiles));
    forall row, j | row in rows && 0 <= j < |f.columns|
      ensures ColumnQuartiles(Column(f, j)).Some?
      ensures ColumnQuartiles(Column(f, j)).value.Lower() <= row[j] <= ColumnQuartiles(Column(f, j)).value.Upper()
    {
      var k :| 0 <= k < |rows| && rows[k] == row;
      assert KeepMask(quartiles)(row);
      assert |Column(f, j)| > 0;
      assert quartiles[j] == ColumnQuartiles(Column(f, j));
      assert !Flagged(row[j], quartiles[j]);
    }
  }
}
