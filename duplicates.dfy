/** The duplicate audit: `df.duplicated()` marks every row equal, in every
    column, to some earlier row (the first occurrence is not marked), and the
    audit reports how many rows are marked. */
module Duplicates {
  import opened Frames

  /** Row `i` repeats an earlier row. */
  predicate IsDuplicate(rows: seq<Row>, i: nat)
    requires i < |rows|
    ensures IsDuplicate(rows, i) <==> rows[i] in rows[..i]
    ensures i == 0 ==> !IsDuplicate(rows, i)
  {
    exists j | 0 <= j < i :: rows[j] == rows[i]
  }

  /** `df.duplicated().sum()`, scanning the rows from the last one back. */
  function DuplicateCount(rows: seq<Row>): (n: nat)
    ensures n <= |rows|
  {
    if |rows| == 0 then 0
    else
      var n := |rows| - 1;
      DuplicateCount(rows[..n]) + (if rows[n] in rows[..n] then 1 else 0)
  }

  /** The positions of the marked rows. */
  function DuplicatePositions(rows: seq<Row>): set<int> {
    set i | 0 <= i < |rows| && IsDuplicate(rows, i)
  }

  /** Whether a row repeats an earlier one depends only on the rows up to it. */
  lemma DuplicateInPrefix(rows: seq<Row>, n: nat, i: nat)
    requires i < n <= |rows|
    ensures IsDuplicate(rows, i) <==> IsDuplicate(rows[..n], i)
  {
    if IsDuplicate(rows, i) {
      var j :| 0 <= j < i && rows[j] == rows[i];
      assert rows[..n][j] == rows[..n][i];
    }
    if IsDuplicate(rows[..n], i) {
      var j :| 0 <= j < i && rows[..n][j] == rows[..n][i];
      assert rows[j] == rows[i];
    }
  }

  lemma DuplicateLast(rows: seq<Row>)
    requires |rows| > 0
    ensures IsDuplicate(rows, |rows| - 1) <==> rows[|rows| - 1] in rows[..|rows| - 1]
  {
    var n := |rows| - 1;
    if rows[n] in rows[..n] {
      var j :| 0 <= j < n && rows[..n][j] == rows[n];
      assert rows[j] == rows[n];
    }
  }

  /** The count is the number of rows that equal some earlier row. */
  lemma {:induction false} DuplicateCountIsMarkedRows(rows: seq<Row>)
    ensures DuplicateCount(rows) == |DuplicatePositions(rows)|
  {
    if |rows| > 0 {
      var n := |rows| - 1;
      var t := rows[..n];
      DuplicateCountIsMarkedRows(t);
      var last: set<int> := if rows[n] in t then {n} else {};
      DuplicateLast(rows);
      forall i | i in DuplicatePositions(rows) ensures i in DuplicatePositions(t) + last {
        if i < n {
          DuplicateInPrefix(rows, n, i);
        }
      }
      forall i | i in DuplicatePositions(t) + last ensures i in DuplicatePositions(rows) {
        if i < n {
          DuplicateInPrefix(rows, n, i);
        }
      }
      assert DuplicatePositions(rows) == DuplicatePositions(t) + last;
    }
  }

  /** The different rows of the table. */
  function DistinctRows(rows: seq<Row>): set<Row> {
    set r | r in rows
  }

  /** Equivalently, the count is the number of rows minus the number of
      distinct rows. */
  lemma {:induction false} DuplicateCountIsRowsMinusDistinct(rows: seq<Row>)
    ensures DuplicateCount(rows) == |rows| - |DistinctRows(rows)|
  {
    if |rows| > 0 {
      var n := |rows| - 1;
      var t := rows[..n];
      DuplicateCountIsRowsMinusDistinct(t);
      assert rows == t + [rows[n]];
      assert DistinctRows(rows) == DistinctRows(t) + {rows[n]};
      if rows[n] in t {
        assert DistinctRows(rows) == DistinctRows(t);
        assert DuplicateCount(rows) == DuplicateCount(t) + 1;
      } else {
        assert rows[n] !in DistinctRows(t);
        assert DuplicateCount(rows) == DuplicateCount(t);
      }
    }
  }
}
