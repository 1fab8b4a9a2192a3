/** The in-place column updates of the cleaned table: rounding a list of
    columns to two decimals, and converting a list of columns to integers. Each
    update runs over a fixed list of names and touches a column only when the
    table has it; every other column, and the number of rows, stay as they were. */
module ColumnUpdates {
  import opened Frames

  /** The columns rounded to two decimal places. */
  const RoundedColumns: seq<string> :=
    [ "Avg_Outflow", "Avg_Inflow", "Energy_Cons", "COD", "TN",
      "Avg_Temperature", "Max_Temperature", "Min_Temperature", "Avg_Humidity" ]

  /** The columns converted to an integer type. */
  const ConvertedColumns: seq<string> :=
    ["Energy_Cons", "Avg_Humidity", "Year", "Month", "Day"]

  /** The nearest integer, ties going to the even neighbour (numpy's `rint`). */
  function RoundHalfEven(y: real): (r: int)
    ensures -0.5 <= r as real - y <= 0.5
    ensures (r as real - y == 0.5 || r as real - y == -0.5) ==> r % 2 == 0
  {
    var k := y.Floor;
    var frac := y - k as real;
    if frac < 0.5 then k
    else if frac > 0.5 then k + 1
    else if k % 2 == 0 then k
    else k + 1
  }

  /** `round(2)` on exact decimals: the nearest multiple of 0.01, ties to the
      even hundredth. */
  function Round2(x: real): (r: real)
    ensures -0.005 <= r - x <= 0.005
    ensures IsWhole(r * 100.0)
    ensures (r - x == 0.005 || r - x == -0.005) ==> (r * 100.0).Floor % 2 == 0
  {
    var n := RoundHalfEven(x * 100.0);
    assert n as real / 100.0 * 100.0 == n as real;
    n as real / 100.0
  }

  predicate IsWhole(x: real) {
    x.Floor as real == x
  }

  /** `astype(int)`: the integer part, truncating toward zero. */
  function Truncate(x: real): (r: int)
    ensures x >= 0.0 ==> 0 <= r && r as real <= x < r as real + 1.0
    ensures x < 0.0 ==> r <= 0 && r as real - 1.0 < x <= r as real
  {
    if x >= 0.0 then x.Floor else -((-x).Floor)
  }

  /** A whole number converts to itself. */
  lemma TruncateWhole(x: real)
    requires IsWhole(x)
    ensures Truncate(x) as real == x
  {
    var n := x.Floor;
    if x < 0.0 {
      assert (-n) as real == -x;
      assert (-x).Floor == -n;
    }
  }

  /** The cell stored after an integer conversion. */
  function TruncateCell(x: real): real {
    Truncate(x) as real
  }

  /** Every row with the op applied to its cell `j`. */
  function MapColumn(rows: seq<Row>, j: nat, op: real -> real): (r: seq<Row>)
    ensures |r| == |rows|
  {
    seq(|rows|, i requires 0 <= i < |rows| =>
      if j < |rows[i]| then rows[i][j := op(rows[i][j])] else rows[i])
  }

  /** The effect of `for column in listed: if column in df.columns: df[column] = op(df[column])`. */
  function MapListed(columns: seq<string>, rows: seq<Row>, listed: seq<string>, op: real -> real): (r: seq<Row>)
    ensures |r| == |rows|
    decreases |listed|
  {
    if |listed| == 0 then rows
    else
      var next := match IndexOf(columns, listed[0])
        case None => rows
        case Some(j) => MapColumn(rows, j, op);
      MapListed(columns, next, listed[1..], op)
  }

  predicate RowsFit(columns: seq<string>, rows: seq<Row>) {
    forall i | 0 <= i < |rows| :: |rows[i]| == |columns|
  }

  /** A list naming no column of the table changes nothing: every name is
      skipped by the presence guard. */
  lemma {:induction false} MapListedAbsentNames(columns: seq<string>, rows: seq<Row>, listed: seq<string>, op: real -> real)
    requires forall k | 0 <= k < |listed| :: listed[k] !in columns
    ensures MapListed(columns, rows, listed, op) == rows
    decreases |listed|
  {
    if |listed| > 0 {
      assert listed[0] !in columns;
      assert forall k | 0 <= k < |listed[1..]| :: listed[1..][k] == listed[k + 1];
      MapListedAbsentNames(columns, rows, listed[1..], op);
    }
  }

  /** The updates keep the number of rows and the width of each. */
  lemma {:induction false} MapListedKeepsShape(columns: seq<string>, rows: seq<Row>, listed: seq<string>, op: real -> real)
    requires RowsFit(columns, rows)
    ensures |MapListed(columns, rows, listed, op)| == |rows|
    ensures RowsFit(columns, MapListed(columns, rows, listed, op))
    decreases |listed|
  {
    if |listed| > 0 {
      var next := match IndexOf(columns, listed[0])
        case None => rows
        case Some(j) => MapColumn(rows, j, op);
      MapListedKeepsShape(columns, next, listed[1..], op);
    }
  }

  /** A column that is not listed keeps every one of its cells. */
  lemma {:induction false} UnlistedColumnsUnchanged(columns: seq<string>, rows: seq<Row>, listed: seq<string>, op: real -> real)
    requires RowsFit(columns, rows)
    ensures |MapListed(columns, rows, listed, op)| == |rows|
    ensures forall i, j | 0 <= i < |rows| && 0 <= j < |columns| && columns[j] !in listed ::
      |MapListed(columns, rows, listed, op)[i]| == |columns| &&
      MapListed(columns, rows, listed, op)[i][j] == rows[i][j]
    decreases |listed|
  {
    MapListedKeepsShape(columns, rows, listed, op);
    if |listed| > 0 {
      var next := match IndexOf(columns, listed[0])
        case None => rows
        case Some(j) => MapColumn(rows, j, op);
      UnlistedColumnsUnchanged(columns, next, listed[1..], op);
      forall i, j | 0 <= i < |rows| && 0 <= j < |columns| && columns[j] !in listed
        ensures next[i][j] == rows[i][j]
      {
        assert columns[j] != listed[0];
        assert columns[j] !in listed[1..];
      }
    }
  }

  /** With each name listed once, a listed column the table has gets the op
      applied to each of its cells exactly once; every other column is
      unchanged. */
  lemma {:induction false} MapListedEffect(columns: seq<string>, rows: seq<Row>, listed: seq<string>, op: real -> real)
    requires Distinct(columns) && RowsFit(columns, rows) && Distinct(listed)
    ensures |MapListed(columns, rows, listed, op)| == |rows|
    ensures forall i, j | 0 <= i < |rows| && 0 <= j < |columns| ::
      |MapListed(columns, rows, listed, op)[i]| == |columns| &&
      MapListed(columns, rows, listed, op)[i][j] == if columns[j] in listed then op(rows[i][j]) else rows[i][j]
    decreases |listed|
  {
    MapListedKeepsShape(columns, rows, listed, op);
    if |listed| > 0 {
      var next := match IndexOf(columns, listed[0])
        case None => rows
        case Some(j) => MapColumn(rows, j, op);
      var tail := listed[1..];
      assert Distinct(tail) by {
        forall a, b | 0 <= a < b < |tail| ensures tail[a] != tail[b] {
          assert tail[a] == listed[a + 1] && tail[b] == listed[b + 1];
        }
      }
      assert listed[0] !in tail by {
        forall a | 0 <= a < |tail| ensures tail[a] != listed[0] {
          assert tail[a] == listed[a + 1];
        }
      }
      MapListedEffect(columns, next, tail, op);
      var result := MapListed(columns, rows, listed, op);
      forall i, j | 0 <= i < |rows| && 0 <= j < |columns|
        ensures result[i][j] == if columns[j] in listed then op(rows[i][j]) else rows[i][j]
      {
        if columns[j] == listed[0] {
          IndexOfDistinct(columns, j);
          assert next[i][j] == op(rows[i][j]);
        } else {
          assert next[i][j] == rows[i][j];
          assert columns[j] in listed <==> columns[j] in tail;
        }
      }
    }
  }

  /** The working copy of the cleaned table, updated column by column in place. */
  class Table {
    const columns: seq<string>
    const rows: array<Row>

    ghost predicate Valid()
      reads this, rows
    {
      && Distinct(columns)
      && forall i | 0 <= i < rows.Length :: |rows[i]| == |columns|
    }

    constructor (f: Frame)
      requires WellFormed(f)
      ensures Valid() && fresh(rows)
      ensures columns == f.columns && rows[..] == f.rows
    {
      columns := f.columns;
      rows := new Row[|f.rows|](i requires 0 <= i < |f.rows| => f.rows[i]);
    }

    /** The table's current contents as a frame. */
    function Snapshot(): (f: Frame)
      reads this, rows
      requires Valid()
      ensures WellFormed(f)
    {
      Frame(columns, rows[..])
    }

    /** Applies `op` to every cell of each listed column the table has, in the
        order of the list. */
    method MapListedColumns(listed: seq<string>, op: real -> real)
      requires Valid()
      modifies rows
      ensures Valid()
      ensures rows[..] == MapListed(columns, old(rows[..]), listed, op)
    {
      for k := 0 to |listed|
        invariant Valid()
        invariant MapListed(columns, rows[..], listed[k..], op) == MapListed(columns, old(rows[..]), listed, op)
      {
        assert listed[k..][1..] == listed[k + 1..];
        match IndexOf(columns, listed[k]) {
          case None =>
          case Some(j) =>
            ghost var before := rows[..];
            for i := 0 to rows.Length
              invariant forall t | 0 <= t < i :: rows[t] == before[t][j := op(before[t][j])]
              invariant forall t | i <= t < rows.Length :: rows[t] == before[t]
            {
              rows[i] := rows[i][j := op(rows[i][j])];
            }
            assert rows[..] == MapColumn(before, j, op);
        }
      }
    }

    /** The rounding step: listed columns present in the table are rounded to
        two decimals. */
    method RoundColumns()
      requires Valid()
      modifies rows
      ensures Valid()
      ensures rows[..] == MapListed(columns, old(rows[..]), RoundedColumns, Round2)
    {
      MapListedColumns(RoundedColumns, Round2);
    }

    /** The type-conversion step: listed columns present in the table are
        truncated to integers. */
    method ConvertColumns()
      requires Valid()
      modifies rows
      ensures Valid()
      ensures rows[..] == MapListed(columns, old(rows[..]), ConvertedColumns, TruncateCell)
    {
      MapListedColumns(ConvertedColumns, TruncateCell);
    }
  }
}
