/** The decimal-place consistency audit: the number of decimal places of a
    value is read off its text form, and a float column is inconsistent when
    its values do not all have the same number of decimal places. */
module Decimals {

  /** A cell as the audit meets it: a float with its text form (`str(value)`),
      or a value of any other type. */
  datatype Value = Float(x: real, text: string) | NonFloat

  /** The column types the audit tells apart. */
  datatype DType = Float64 | Int64 | OtherType

  datatype TypedColumn = TypedColumn(name: string, dtype: DType, values: seq<Value>)

  predicate IsInteger(x: real) {
    x.Floor as real == x
  }

  /** The text after the last '.' (`s.split('.')[-1]`); the whole text when it
      has no '.'. It is the longest suffix of `s` without a '.'. */
  function LastSegment(s: string): (r: string)
    ensures '.' !in r
    ensures |r| <= |s| && r == s[|s| - |r|..]
    ensures |r| < |s| ==> s[|s| - |r| - 1] == '.'
  {
    if |s| == 0 then ""
    else if s[|s| - 1] == '.' then ""
    else LastSegment(s[..|s| - 1]) + [s[|s| - 1]]
  }

  /** `count_decimal_places`: 0 for a value that is not a float and for an
      integral float; otherwise the length of the text after its last '.'. */
  function CountDecimalPlaces(v: Value): (r: nat)
    ensures !(v.Float? && !IsInteger(v.x)) ==> r == 0
    ensures v.Float? ==> r <= |v.text|
  {
    match v
    case NonFloat => 0
    case Float(x, text) => if IsInteger(x) then 0 else |LastSegment(text)|
  }

  /** A non-integral float counts the characters of the longest dot-free
      suffix of its text: that suffix is the whole text or follows a '.'. */
  lemma DecimalPlacesAreDotFreeSuffix(v: Value)
    requires v.Float? && !IsInteger(v.x)
    ensures var r := CountDecimalPlaces(v);
      && '.' !in v.text[|v.text| - r..]
      && (r < |v.text| ==> v.text[|v.text| - r - 1] == '.')
  {
  }

  /** The text of a non-integral float splits uniquely at its last '.': the
      count is the length of what follows it. */
  lemma {:induction false} DecimalPlacesAfterLastDot(x: real, head: string, digits: string)
    requires !IsInteger(x) && '.' !in digits
    ensures CountDecimalPlaces(Float(x, head + "." + digits)) == |digits|
  {
    SegmentAfterDot(head, digits);
  }

  /** A non-integral float whose text has no '.' (an exponent form) counts
      every character of its text. */
  lemma {:induction false} DecimalPlacesWithoutDot(x: real, text: string)
    requires !IsInteger(x) && '.' !in text
    ensures CountDecimalPlaces(Float(x, text)) == |text|
  {
    SegmentWithoutDot(text);
  }

  lemma {:induction false} SegmentAfterDot(head: string, digits: string)
    requires '.' !in digits
    ensures LastSegment(head + "." + digits) == digits
  {
    var s := head + "." + digits;
    if |digits| > 0 {
      var shorter := digits[..|digits| - 1];
      assert s[..|s| - 1] == head + "." + shorter;
      assert s[|s| - 1] == digits[|digits| - 1];
      SegmentAfterDot(head, shorter);
      assert digits == shorter + [digits[|digits| - 1]];
    } else {
      assert s[|s| - 1] == '.';
    }
  }

  lemma {:induction false} SegmentWithoutDot(s: string)
    requires '.' !in s
    ensures LastSegment(s) == s
  {
    if |s| > 0 {
      assert s[|s| - 1] in s;
      SegmentWithoutDot(s[..|s| - 1]);
      assert s == s[..|s| - 1] + [s[|s| - 1]];
    }
  }

  /** The set of decimal-place counts met in a column. */
  function DecimalPlaceSet(vs: seq<Value>): (r: set<nat>)
    ensures |r| > 0 <==> |vs| > 0
  {
    var r := set v | v in vs :: CountDecimalPlaces(v);
    assert |vs| > 0 ==> CountDecimalPlaces(vs[0]) in r;
    r
  }

  /** A count is in the set exactly when some value of the column has it. */
  lemma DecimalPlaceSetMembers(vs: seq<Value>)
    ensures forall n :: n in DecimalPlaceSet(vs) <==> exists i | 0 <= i < |vs| :: CountDecimalPlaces(vs[i]) == n
  {
    forall n | n in DecimalPlaceSet(vs) ensures exists i | 0 <= i < |vs| :: CountDecimalPlaces(vs[i]) == n {
      var v :| v in vs && CountDecimalPlaces(v) == n;
      var i :| 0 <= i < |vs| && vs[i] == v;
    }
  }

  /** A column is reported inconsistent when its set of counts has more than
      one element, that is exactly when two of its values differ in count. */
  lemma InconsistentIffCountsDiffer(vs: seq<Value>)
    ensures |DecimalPlaceSet(vs)| > 1 <==>
      exists i, j | 0 <= i < |vs| && 0 <= j < |vs| :: CountDecimalPlaces(vs[i]) != CountDecimalPlaces(vs[j])
  {
    var s := DecimalPlaceSet(vs);
    if |s| > 1 {
      var a :| a in s;
      assert |s - {a}| == |s| - 1;
      var b :| b in s - {a};
      var v :| v in vs && CountDecimalPlaces(v) == a;
      var w :| w in vs && CountDecimalPlaces(w) == b;
      var i :| 0 <= i < |vs| && vs[i] == v;
      var j :| 0 <= j < |vs| && vs[j] == w;
      assert CountDecimalPlaces(vs[i]) != CountDecimalPlaces(vs[j]);
    }
    if exists i, j | 0 <= i < |vs| && 0 <= j < |vs| :: CountDecimalPlaces(vs[i]) != CountDecimalPlaces(vs[j]) {
      var i, j :| 0 <= i < |vs| && 0 <= j < |vs| && CountDecimalPlaces(vs[i]) != CountDecimalPlaces(vs[j]);
      var pair := {CountDecimalPlaces(vs[i]), CountDecimalPlaces(vs[j])};
      assert pair <= s;
      assert |pair| == 2;
      SubsetSize(pair, s);
    }
  }

  lemma SubsetSize(a: set<nat>, b: set<nat>)
    requires a <= b
    ensures |a| <= |b|
  {
    assert b == a + (b - a);
  }

  predicate DistinctNames(columns: seq<TypedColumn>) {
    forall i, j | 0 <= i < j < |columns| :: columns[i].name != columns[j].name
  }

  /** The inner loop: the decimal-place counts of a column's values, gathered
      one value at a time. */
  method ColumnDecimalPlaces(values: seq<Value>) returns (places: set<nat>)
    ensures places == DecimalPlaceSet(values)
  {
    places := {};
    for i := 0 to |values|
      invariant places == DecimalPlaceSet(values[..i])
    {
      assert values[..i + 1] == values[..i] + [values[i]];
      places := places + {CountDecimalPlaces(values[i])};
    }
    assert values[..|values|] == values;
  }

  /** The consistency loop: for every float64 column, the number of distinct
      decimal-place counts among its values. A column is then reported
      inconsistent exactly when two of its values differ in count. */
  method DecimalPlaceConsistency(columns: seq<TypedColumn>) returns (consistency: map<string, nat>)
    requires DistinctNames(columns)
    ensures forall name :: name in consistency <==>
      exists k | 0 <= k < |columns| :: columns[k].name == name && columns[k].dtype == Float64
    ensures forall k | 0 <= k < |columns| && columns[k].dtype == Float64 ::
      && columns[k].name in consistency
      && consistency[columns[k].name] == |DecimalPlaceSet(columns[k].values)|
      && (consistency[columns[k].name] > 1 <==>
          exists i, j | 0 <= i < |columns[k].values| && 0 <= j < |columns[k].values| ::
            CountDecimalPlaces(columns[k].values[i]) != CountDecimalPlaces(columns[k].values[j]))
  {
    consistency := map[];
    for k := 0 to |columns|
      invariant forall name :: name in consistency <==>
        exists l | 0 <= l < k :: columns[l].name == name && columns[l].dtype == Float64
      invariant forall l | 0 <= l < k && columns[l].dtype == Float64 ::
        && columns[l].name in consistency
        && consistency[columns[l].name] == |DecimalPlaceSet(columns[l].values)|
    {
      var column := columns[k];
      if column.dtype == Float64 {
        var places := ColumnDecimalPlaces(column.values);
        consistency := consistency[column.name := |places|];
      }
    }
    forall k | 0 <= k < |columns| && columns[k].dtype == Float64
      ensures consistency[columns[k].name] > 1 <==>
        exists i, j | 0 <= i < |columns[k].values| && 0 <= j < |columns[k].values| ::
          CountDecimalPlaces(columns[k].values[i]) != CountDecimalPlaces(columns[k].values[j])
    {
      InconsistentIffCountsDiffer(columns[k].values);
    }
  }

  /** `x.is_integer()` on a cell of a float column. */
  predicate IntegralValue(v: Value) {
    v.Float? && IsInteger(v.x)
  }

  /** The float64 columns all of whose values are whole numbers:
      the columns reported as stored as floats but holding integers. */
  function IntegerValuedColumns(columns: seq<TypedColumn>): (r: seq<string>)
    ensures forall name :: name in r <==>
      exists k | 0 <= k < |columns| ::
        && columns[k].name == name && columns[k].dtype == Float64
        && forall i | 0 <= i < |columns[k].values| :: IntegralValue(columns[k].values[i])
    decreases |columns|
  {
    if |columns| == 0 then []
    else
      var n := |columns| - 1;
      var c := columns[n];
      var earlier := IntegerValuedColumns(columns[..n]);
      assert forall k | 0 <= k < n :: columns[..n][k] == columns[k];
      if c.dtype == Float64 && forall i | 0 <= i < |c.values| :: IntegralValue(c.values[i]) then earlier + [c.name]
      else earlier
  }
}
