/** The contaminated-data audit: each rule is a disjunction of bound checks on
    named columns of the raw table, and the audit reports, per rule, how many
    rows fail it. The counts are diagnostic: nothing here removes a row. */
module Validity {
  import opened Frames

  /** The comparison a bound check makes between a cell and its limit. */
  datatype Comparison = Below | AtMost | Above

  predicate Holds(cmp: Comparison, x: real, limit: real) {
    match cmp
    case Below => x < limit
    case AtMost => x <= limit
    case Above => x > limit
  }

  /** One bound check: the named column's cell compared with a limit. */
  datatype Check = Check(column: string, cmp: Comparison, limit: real)

  /** A row fails a rule when at least one of its checks holds. */
  type Rule = seq<Check>

  const InvalidEnergy: Rule := [Check("Energy Consumption", AtMost, 0.0)]

  const InvalidInflowOutflow: Rule :=
    [Check("Average Inflow", AtMost, 0.0), Check("Average Outflow", AtMost, 0.0)]

  const InvalidContaminants: Rule :=
    [ Check("Ammonia", Below, 0.0), Check("Biological Oxygen Demand", Below, 0.0),
      Check("Chemical Oxygen Demand", Below, 0.0), Check("Total Nitrogen", Below, 0.0) ]

  const InvalidPressure: Rule :=
    [Check("Atmospheric pressure", AtMost, 0.0), Check("Atmospheric pressure", Above, 2000.0)]

  const InvalidHumidity: Rule :=
    [Check("Average humidity", Below, 0.0), Check("Average humidity", Above, 100.0)]

  const InvalidRainfall: Rule := [Check("Total rainfall", Below, 0.0)]

  const InvalidVisibility: Rule := [Check("Average visibility", AtMost, 0.0)]

  const InvalidAverageWindSpeed: Rule := [Check("Average wind speed", AtMost, 0.0)]

  const InvalidMaximumWindSpeed: Rule := [Check("Maximum wind speed", AtMost, 0.0)]

  const UnrealisticTemperature: Rule :=
    [ Check("Average Temperature", Below, -10.0), Check("Average Temperature", Above, 50.0),
      Check("Maximum temperature", Below, -10.0), Check("Maximum temperature", Above, 50.0),
      Check("Minimum temperature", Below, -10.0), Check("Minimum temperature", Above, 50.0) ]

  const InvalidDates: Rule :=
    [ Check("Month", Below, 1.0), Check("Month", Above, 12.0),
      Check("Day", Below, 1.0), Check("Day", Above, 31.0) ]

  /** The rules in the order the audit reports them. */
  const AuditRules: seq<Rule> :=
    [ InvalidEnergy, InvalidInflowOutflow, InvalidContaminants, InvalidPressure,
      InvalidHumidity, InvalidRainfall, InvalidVisibility, InvalidAverageWindSpeed,
      InvalidMaximumWindSpeed, UnrealisticTemperature, InvalidDates ]

  /** A check whose column has been looked up: it reads the cell at `index`. */
  datatype Bound = Bound(index: nat, cmp: Comparison, limit: real)

  /** Looks every column of a rule up; the first column the table lacks is the
      one the lookup fails on. */
  function Resolve(columns: seq<string>, rule: Rule): (r: Result<seq<Bound>>)
    ensures r.MissingColumn? <==> exists k | 0 <= k < |rule| :: rule[k].column !in columns
    ensures r.MissingColumn? ==>
      exists k | 0 <= k < |rule| ::
        && rule[k].column == r.name && r.name !in columns
        && forall l | 0 <= l < k :: rule[l].column in columns
    ensures r.Ok? ==> |r.value| == |rule|
    ensures r.Ok? ==> forall k | 0 <= k < |rule| ::
      && r.value[k].index < |columns|
      && columns[r.value[k].index] == rule[k].column
      && r.value[k].cmp == rule[k].cmp && r.value[k].limit == rule[k].limit
  {
    if |rule| == 0 then Ok([])
    else match IndexOf(columns, rule[0].column)
      case None => MissingColumn(rule[0].column)
      case Some(j) =>
        match Resolve(columns, rule[1..])
        case MissingColumn(name) =>
          assert forall k | 0 < k < |rule| :: rule[k] == rule[1..][k - 1];
          MissingColumn(name)
        case Ok(rest) => Ok([Bound(j, rule[0].cmp, rule[0].limit)] + rest)
  }

  /** The row-wise OR of the rule's boolean masks, on looked-up columns. */
  predicate Violates(row: Row, bounds: seq<Bound>) {
    exists k | 0 <= k < |bounds| ::
      bounds[k].index < |row| && Holds(bounds[k].cmp, row[bounds[k].index], bounds[k].limit)
  }

  /** The rule's mask as a predicate on rows. */
  function Mask(bounds: seq<Bound>): Row -> bool {
    row => Violates(row, bounds)
  }

  /** The reference meaning of a rule on a named row: some check of the rule
      holds of the cell under that check's column name. */
  predicate ViolatesRule(columns: seq<string>, row: Row, rule: Rule) {
    exists k, j | 0 <= k < |rule| && 0 <= j < |columns| && j < |row| ::
      columns[j] == rule[k].column && Holds(rule[k].cmp, row[j], rule[k].limit)
  }

  /** The number of rows failing a rule (`df[mask].shape[0]`), or the first
      column the rule needs and the table lacks. */
  function InvalidCount(f: Frame, rule: Rule): (r: Result<nat>)
    ensures r.MissingColumn? <==> exists k | 0 <= k < |rule| :: rule[k].column !in f.columns
    ensures r.Ok? ==> r.value <= |f.rows|
  {
    match Resolve(f.columns, rule)
    case MissingColumn(name) => MissingColumn(name)
    case Ok(bounds) => Ok(|Filter(f.rows, Mask(bounds))|)
  }

  /** On a table with unique column names, a looked-up rule fails exactly where
      the rule itself fails. */
  lemma ResolvedRuleAgrees(columns: seq<string>, rule: Rule, bounds: seq<Bound>, row: Row)
    requires Distinct(columns) && |row| == |columns|
    requires Resolve(columns, rule) == Ok(bounds)
    ensures Violates(row, bounds) <==> ViolatesRule(columns, row, rule)
  {
    if ViolatesRule(columns, row, rule) {
      var k, j :| 0 <= k < |rule| && 0 <= j < |columns| && j < |row| &&
        columns[j] == rule[k].column && Holds(rule[k].cmp, row[j], rule[k].limit);
      assert bounds[k].index == j;
    }
  }

  /** The reference rule as a predicate on rows of a table with these columns. */
  function RuleMask(columns: seq<string>, rule: Rule): Row -> bool {
    row => ViolatesRule(columns, row, rule)
  }

  lemma MasksAgree(f: Frame, rule: Rule, bounds: seq<Bound>)
    requires WellFormed(f)
    requires Resolve(f.columns, rule) == Ok(bounds)
    ensures Filter(f.rows, Mask(bounds)) == Filter(f.rows, RuleMask(f.columns, rule))
  {
    forall i | 0 <= i < |f.rows|
      ensures Mask(bounds)(f.rows[i]) == RuleMask(f.columns, rule)(f.rows[i])
    {
      ResolvedRuleAgrees(f.columns, rule, bounds, f.rows[i]);
    }
    FilterAgrees(f.rows, Mask(bounds), RuleMask(f.columns, rule));
  }

  /** The positions of the rows of `f` that fail `rule`. */
  function ViolatingPositions(f: Frame, rule: Rule): set<int> {
    set i | 0 <= i < |f.rows| && ViolatesRule(f.columns, f.rows[i], rule)
  }

  lemma RuleMaskPositions(f: Frame, rule: Rule)
    ensures Matching(f.rows, RuleMask(f.columns, rule)) == ViolatingPositions(f, rule)
  {
  }

  /** Each audit count is the number of row positions whose row fails the rule;
      so it lies between 0 and the number of rows. */
  lemma InvalidCountIsViolatingRows(f: Frame, rule: Rule)
    requires WellFormed(f)
    requires forall k | 0 <= k < |rule| :: rule[k].column in f.columns
    ensures InvalidCount(f, rule) == Ok(|ViolatingPositions(f, rule)|)
  {
    var resolved := Resolve(f.columns, rule);
    assert resolved.Ok?;
    var bounds := resolved.value;
    var q := RuleMask(f.columns, rule);
    assert InvalidCount(f, rule) == Ok(|Filter(f.rows, Mask(bounds))|);
    MasksAgree(f, rule, bounds);
    FilterSizeIsMatchCount(f.rows, q);
    RuleMaskPositions(f, rule);
  }

  /** The whole audit: one count per rule, in order; the script stops at the
      first rule whose column the table lacks. */
  function Audit(f: Frame, rules: seq<Rule>): (r: Result<seq<nat>>)
    ensures r.Ok? <==> forall k | 0 <= k < |rules| :: InvalidCount(f, rules[k]).Ok?
    ensures r.Ok? ==> |r.value| == |rules|
    ensures r.Ok? ==> forall k | 0 <= k < |rules| :: InvalidCount(f, rules[k]) == Ok(r.value[k])
    ensures r.MissingColumn? ==> exists k | 0 <= k < |rules| ::
      && InvalidCount(f, rules[k]) == MissingColumn(r.name)
      && forall l | 0 <= l < k :: InvalidCount(f, rules[l]).Ok?
  {
    if |rules| == 0 then Ok([])
    else match InvalidCount(f, rules[0])
      case MissingColumn(name) => MissingColumn(name)
      case Ok(n) =>
        match Audit(f, rules[1..])
        case MissingColumn(name) => MissingColumn(name)
        case Ok(rest) => Ok([n] + rest)
  }
}
