/** The cleaning sequence applied to the renamed table: drop the mostly-zero
    columns, remove the outlier rows, round the inconsistent columns to two
    decimals, then convert the integer-valued columns to integers. */
module Pipeline {
  import opened Frames
  import opened Pruning
  import opened Outliers
  import opened ColumnUpdates

  /** The value one update leaves in a cell under column `name`. */
  function Step(listed: seq<string>, op: real -> real, name: string, x: real): real {
    if name in listed then op(x) else x
  }

  /** The value a cell under column `name` ends with, from the value it had
      after outlier removal. */
  function FinalCell(name: string, x: real): real {
    Step(ConvertedColumns, TruncateCell, name, Step(RoundedColumns, Round2, name, x))
  }

  /** The cleaned table, as a value. */
  function Cleaned(f: Frame): (r: Result<Frame>)
    requires WellFormed(f)
    ensures r.MissingColumn? <==> exists k | 0 <= k < |ColumnsToRemove| :: ColumnsToRemove[k] !in f.columns
    ensures r.Ok? ==> WellFormed(r.value)
  {
    match DropColumns(f, ColumnsToRemove)
    case MissingColumn(name) => MissingColumn(name)
    case Ok(pruned) =>
      var kept := RemoveOutliers(pruned);
      UpdatesEffect(kept.columns, kept.rows);
      var rounded := MapListed(kept.columns, kept.rows, RoundedColumns, Round2);
      Ok(Frame(kept.columns, MapListed(kept.columns, rounded, ConvertedColumns, TruncateCell)))
  }

  /** Runs the sequence on a working copy updated in place. */
  method Clean(f: Frame) returns (r: Result<Frame>)
    requires WellFormed(f)
    ensures r == Cleaned(f)
  {
    var dropped := DropColumns(f, ColumnsToRemove);
    if dropped.MissingColumn? {
      return MissingColumn(dropped.name);
    }
    var kept := RemoveOutliers(dropped.value);
    var table := new Table(kept);
    table.RoundColumns();
    table.ConvertColumns();
    r := Ok(table.Snapshot());
  }

  lemma UpdateListsDistinct()
    ensures Distinct(RoundedColumns) && Distinct(ConvertedColumns)
  {
  }

  /** Two updates in a row compose cell by cell. */
  lemma SequencedUpdates(columns: seq<string>, rows: seq<Row>,
                         first: seq<string>, op1: real -> real, second: seq<string>, op2: real -> real)
    requires Distinct(columns) && RowsFit(columns, rows) && Distinct(first) && Distinct(second)
    ensures var out := MapListed(columns, MapListed(columns, rows, first, op1), second, op2);
      && |out| == |rows| && RowsFit(columns, out)
      && forall i, j | 0 <= i < |rows| && 0 <= j < |columns| ::
           out[i][j] == Step(second, op2, columns[j], Step(first, op1, columns[j], rows[i][j]))
  {
    var once := MapListed(columns, rows, first, op1);
    MapListedEffect(columns, rows, first, op1);
    assert RowsFit(columns, once);
    MapListedEffect(columns, once, second, op2);
    MapListedKeepsShape(columns, once, second, op2);
  }

  /** Rounding then converting gives every cell its final value, column by column. */
  lemma UpdatesEffect(columns: seq<string>, rows: seq<Row>)
    requires Distinct(columns) && RowsFit(columns, rows)
    ensures var out := MapListed(columns, MapListed(columns, rows, RoundedColumns, Round2), ConvertedColumns, TruncateCell);
      && |out| == |rows| && RowsFit(columns, out)
      && forall i, j | 0 <= i < |rows| && 0 <= j < |columns| :: out[i][j] == FinalCell(columns[j], rows[i][j])
  {
    UpdateListsDistinct();
    SequencedUpdates(columns, rows, RoundedColumns, Round2, ConvertedColumns, TruncateCell);
  }

  /** A converted column ends with whole numbers. */
  lemma ConvertedCellsWhole(name: string, x: real)
    requires name in ConvertedColumns
    ensures IsWhole(FinalCell(name, x))
  {
  }

  /** The cleaned table keeps the remaining columns in their order and only the
      rows without outliers, in their order. */
  lemma CleanedShape(f: Frame)
    requires WellFormed(f) && forall k | 0 <= k < |ColumnsToRemove| :: ColumnsToRemove[k] in f.columns
    ensures Cleaned(f).Ok?
    ensures Cleaned(f).value.columns == Filter(f.columns, KeepColumnMask(ColumnsToRemove))
    ensures |Cleaned(f).value.rows| == |RemoveOutliers(DropColumns(f, ColumnsToRemove).value).rows| <= |f.rows|
  {
    var pruned := DropColumns(f, ColumnsToRemove).value;
    DropKeepsRemainingColumns(f, ColumnsToRemove);
    var kept := RemoveOutliers(pruned);
    UpdatesEffect(kept.columns, kept.rows);
  }

  /** Each cell of the cleaned table is the cell that survived outlier removal,
      rounded when its column is listed for rounding and then truncated when it
      is listed for conversion. */
  lemma CleanedCells(f: Frame)
    requires WellFormed(f) && forall k | 0 <= k < |ColumnsToRemove| :: ColumnsToRemove[k] in f.columns
    ensures Cleaned(f).Ok?
    ensures var r := Cleaned(f).value;
      var kept := RemoveOutliers(DropColumns(f, ColumnsToRemove).value);
      && |r.rows| == |kept.rows| && r.columns == kept.columns
      && forall i, j | 0 <= i < |r.rows| && 0 <= j < |r.columns| ::
           |kept.rows[i]| == |kept.columns| && r.rows[i][j] == FinalCell(r.columns[j], kept.rows[i][j])
  {
    var kept := RemoveOutliers(DropColumns(f, ColumnsToRemove).value);
    var out := MapListed(kept.columns, MapListed(kept.columns, kept.rows, RoundedColumns, Round2), ConvertedColumns, TruncateCell);
    assert Cleaned(f).value == Frame(kept.columns, out);
    UpdatesEffect(kept.columns, kept.rows);
  }
}
