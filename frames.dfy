/** Tables as the cleaning script sees them: a fixed order of named columns and a
    sequence of rows, every cell a number. Also the two generic sequence tools
    every boolean-mask step of the script is built from: keeping the elements a
    mask selects (`df[mask]`) and the positions it selects. */
module Frames {

  /** One observation: a cell per column, in column order. */
  type Row = seq<real>

  /** A data frame: column names in order, and the rows. */
  datatype Frame = Frame(columns: seq<string>, rows: seq<Row>)

  datatype Option<T> = None | Some(value: T)

  /** The outcome of a step that looks columns up by name: indexing a pandas
      frame with a name it does not have raises a KeyError naming the column. */
  datatype Result<T> = Ok(value: T) | MissingColumn(name: string)

  predicate Distinct<T(==)>(s: seq<T>) {
    forall i, j | 0 <= i < j < |s| :: s[i] != s[j]
  }

  /** Column names are unique (pandas' CSV reader renames repeated headers) and
      every row has one cell per column. */
  predicate WellFormed(f: Frame) {
    && Distinct(f.columns)
    && forall i | 0 <= i < |f.rows| :: |f.rows[i]| == |f.columns|
  }

  /** Position of the first column called `name`, if there is one. */
  function IndexOf(columns: seq<string>, name: string): (r: Option<nat>)
    ensures r.None? <==> name !in columns
    ensures r.Some? ==> r.value < |columns| && columns[r.value] == name && name !in columns[..r.value]
  {
    if |columns| == 0 then None
    else if columns[0] == name then Some(0)
    else match IndexOf(columns[1..], name)
      case None => None
      case Some(k) =>
        assert columns[..k + 1] == [columns[0]] + columns[1..][..k];
        Some(k + 1)
  }

  /** In a frame with unique names, the index of a column is the one position holding its name. */
  lemma IndexOfDistinct(columns: seq<string>, j: nat)
    requires Distinct(columns) && j < |columns|
    ensures IndexOf(columns, columns[j]) == Some(j)
  {
  }

  /** The cells of column `j`, top to bottom (`df[name]`). */
  function Column(f: Frame, j: nat): seq<real>
    requires WellFormed(f) && j < |f.columns|
  {
    seq(|f.rows|, i requires 0 <= i < |f.rows| => f.rows[i][j])
  }

  /** The elements a boolean mask selects, in their original order (`s[mask]`). */
  function Filter<T>(s: seq<T>, p: T -> bool): (r: seq<T>)
    ensures |r| <= |s|
  {
    if |s| == 0 then []
    else Filter(s[..|s| - 1], p) + (if p(s[|s| - 1]) then [s[|s| - 1]] else [])
  }

  /** The positions a boolean mask selects, in increasing order. */
  function Selected<T>(s: seq<T>, p: T -> bool): (idx: seq<nat>)
    ensures forall k | 0 <= k < |idx| :: idx[k] < |s| && p(s[idx[k]])
    ensures forall k, l | 0 <= k < l < |idx| :: idx[k] < idx[l]
    ensures forall i | 0 <= i < |s| && p(s[i]) :: i in idx
  {
    if |s| == 0 then []
    else Selected(s[..|s| - 1], p) + (if p(s[|s| - 1]) then [|s| - 1] else [])
  }

  /** Filtering keeps exactly the selected positions, in order: the result is
      the subsequence of `s` at the positions where the mask is true. */
  lemma {:induction false} FilterIsSelection<T>(s: seq<T>, p: T -> bool)
    ensures |Filter(s, p)| == |Selected(s, p)|
    ensures forall k | 0 <= k < |Selected(s, p)| :: Filter(s, p)[k] == s[Selected(s, p)[k]]
  {
    if |s| > 0 {
      FilterIsSelection(s[..|s| - 1], p);
    }
  }

  /** What filtering keeps: elements of `s` the mask accepts, and all of them. */
  lemma FilterMembers<T>(s: seq<T>, p: T -> bool)
    ensures forall k | 0 <= k < |Filter(s, p)| :: Filter(s, p)[k] in s && p(Filter(s, p)[k])
    ensures forall i | 0 <= i < |s| && p(s[i]) :: s[i] in Filter(s, p)
  {
    FilterIsSelection(s, p);
    var r, idx := Filter(s, p), Selected(s, p);
    forall i | 0 <= i < |s| && p(s[i]) ensures s[i] in r {
      var k :| 0 <= k < |idx| && idx[k] == i;
      assert r[k] == s[i];
    }
  }

  /** Filtering a sequence without repetitions gives one without repetitions. */
  lemma FilterKeepsDistinct<T>(s: seq<T>, p: T -> bool)
    requires Distinct(s)
    ensures Distinct(Filter(s, p))
  {
    FilterIsSelection(s, p);
    var idx := Selected(s, p);
    var r := Filter(s, p);
    forall a, b | 0 <= a < b < |r| ensures r[a] != r[b] {
      assert r[a] == s[idx[a]] && r[b] == s[idx[b]] && idx[a] < idx[b];
    }
  }

  /** Two masks that agree on every element select the same elements. */
  lemma {:induction false} FilterAgrees<T>(s: seq<T>, p: T -> bool, q: T -> bool)
    requires forall i | 0 <= i < |s| :: p(s[i]) == q(s[i])
    ensures Filter(s, p) == Filter(s, q)
  {
    if |s| > 0 {
      FilterAgrees(s[..|s| - 1], p, q);
    }
  }

  /** The positions where a mask holds, as a set. */
  function Matching<T>(s: seq<T>, p: T -> bool): set<int> {
    set i | 0 <= i < |s| && p(s[i])
  }

  /** The length of `s[mask]` is the number of positions where the mask holds. */
  lemma {:induction false} FilterSizeIsMatchCount<T>(s: seq<T>, p: T -> bool)
    ensures |Filter(s, p)| == |Matching(s, p)|
  {
    if |s| > 0 {
      var n := |s| - 1;
      var t := s[..n];
      FilterSizeIsMatchCount(t, p);
      var last: set<int> := if p(s[n]) then {n} else {};
      forall i | i in Matching(s, p) ensures i in Matching(t, p) + last {
        if i < n { assert t[i] == s[i]; }
      }
      forall i | i in Matching(t, p) ensures i in Matching(s, p) {
        assert t[i] == s[i];
      }
      assert Matching(s, p) == Matching(t, p) + last;
    }
  }
}
