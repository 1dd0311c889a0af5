/**
 * `compute_validation`: one report per column of the original frame, holding the column's
 * statistics (for numeric columns) and the number of synthetic values outside its constraint.
 */
module Validation {
  import opened Wrappers
  import opened Dicts
  import Snake

  // ---------------------------------------------------------------------------------------
  // Frames and constraints

  /**
   * An element of an `object` column: a number (a `bool` counts as one), `None` or NaN, or a
   * value such as a string that cannot be ordered against a number.
   */
  datatype Cell = Number(x: real) | Missing | Incomparable

  /**
   * A column as the validation sees it:
   * - a column of numeric dtype (`bool` included), with its cells (`None` for NaN);
   * - an `object` column, with its elements;
   * - a column of any other dtype (datetime, timedelta, categorical, string), which cannot be
   *   compared with a number.
   */
  datatype Series = Numeric(cells: seq<Option<real>>) | Objects(items: seq<Cell>) | OtherDtype

  /** A frame: its columns by label, in order. */
  type Frame = Entries<Series>

  /**
   * A constraint object from the constraints JSON: its `min` and `max` if present, and whether
   * it has any other key (which makes it non-empty, and so truthy, without bounding anything).
   */
  datatype Constraint = Constraint(min: Option<real>, max: Option<real>, otherKeys: bool)

  /** A dict is truthy when it is not empty. */
  predicate Truthy(c: Constraint) {
    c.min.Some? || c.max.Some? || c.otherKeys
  }

  const NoConstraint := Constraint(None, None, false)

  /** `d.get(key)` is a truthy dict. */
  predicate HasTruthy(d: Entries<Constraint>, key: string) {
    Get(d, key).Some? && Truthy(Get(d, key).value)
  }

  /** `constraints.get(col) or constraints.get(to_snake(col)) or {}`. */
  function LookupConstraint(constraints: Entries<Constraint>, col: string): (c: Constraint)
    ensures HasTruthy(constraints, col) ==> Get(constraints, col) == Some(c)
    ensures !HasTruthy(constraints, col) && HasTruthy(constraints, Snake.ToSnake(col))
            ==> Get(constraints, Snake.ToSnake(col)) == Some(c)
    ensures !HasTruthy(constraints, col) && !HasTruthy(constraints, Snake.ToSnake(col)) ==> c == NoConstraint
  {
    if HasTruthy(constraints, col) then Get(constraints, col).value
    else if HasTruthy(constraints, Snake.ToSnake(col)) then Get(constraints, Snake.ToSnake(col)).value
    else NoConstraint
  }

  // ---------------------------------------------------------------------------------------
  // Counting cells

  /** The elements of an `object` column as cells: the missing ones compare `False` like NaN. */
  function AsCells(items: seq<Cell>): (cells: seq<Option<real>>)
    ensures |cells| == |items|
    ensures forall i :: 0 <= i < |items| ==> (cells[i].Some? <==> items[i].Number?)
    ensures forall i :: 0 <= i < |items| && items[i].Number? ==> cells[i] == Some(items[i].x)
  {
    seq(|items|, i requires 0 <= i < |items| => if items[i].Number? then Some(items[i].x) else None)
  }

  /**
   * The cells that `series < bound` and `series > bound` compare, or `None` when the comparison
   * raises: pandas compares an `object` column element by element, a null element giving
   * `False` and an element that cannot be ordered against a number raising `TypeError`.
   */
  function Compared(series: Series): (r: Option<seq<Option<real>>>)
    ensures series.Numeric? ==> r == Some(series.cells)
    ensures series.Objects? ==> (r.Some? <==> forall i :: 0 <= i < |series.items| ==> !series.items[i].Incomparable?)
    ensures r.Some? && series.Objects? ==> r.value == AsCells(series.items)
    ensures series.OtherDtype? ==> r.None?
  {
    match series
    case Numeric(cells) => Some(cells)
    case Objects(items) =>
      if forall i :: 0 <= i < |items| ==> !items[i].Incomparable? then Some(AsCells(items)) else None
    case OtherDtype => None
  }

  /** The element-wise comparisons whose `True`s are summed; a missing value compares `False`. */
  datatype Test = Below(bound: real) | Above(bound: real) | Outside(lo: real, hi: real)

  predicate Holds(cell: Option<real>, t: Test) {
    match cell
    case None => false
    case Some(x) =>
      match t
      case Below(b) => x < b
      case Above(b) => x > b
      case Outside(lo, hi) => x < lo || x > hi
  }

  /** `(series <op> bound).sum()`. */
  function Count(cells: seq<Option<real>>, t: Test): (n: nat)
    ensures n <= |cells|
  {
    if cells == [] then 0
    else Count(cells[..|cells| - 1], t) + (if Holds(cells[|cells| - 1], t) then 1 else 0)
  }

  /** The rows whose cell passes the test. */
  function Matching(cells: seq<Option<real>>, t: Test): set<nat> {
    set i: nat | i < |cells| && Holds(cells[i], t)
  }

  /** The sum of the comparison is the number of rows that pass it. */
  lemma {:induction false} CountIsMatchingRows(cells: seq<Option<real>>, t: Test)
    ensures Count(cells, t) == |Matching(cells, t)|
    decreases |cells|
  {
    if cells != [] {
      var init := cells[..|cells| - 1];
      var last := |cells| - 1;
      CountIsMatchingRows(init, t);
      var before := Matching(init, t);
      assert forall i :: 0 <= i < |init| ==> init[i] == cells[i];
      if Holds(cells[last], t) {
        assert Matching(cells, t) == before + {last};
        assert last !in before;
      } else {
        assert Matching(cells, t) == before;
      }
    }
  }

  /** With `lo <= hi` no value is both below `lo` and above `hi`, so the two sums add up to the rows outside. */
  lemma {:induction false} BelowPlusAbove(cells: seq<Option<real>>, lo: real, hi: real)
    requires lo <= hi
    ensures Count(cells, Below(lo)) + Count(cells, Above(hi)) == Count(cells, Outside(lo, hi))
    decreases |cells|
  {
    if cells != [] {
      BelowPlusAbove(cells[..|cells| - 1], lo, hi);
    }
  }

  // ---------------------------------------------------------------------------------------
  // The report

  /** The `res` dict built for one column. */
  datatype ColumnReport = ColumnReport(
    originalMean: Option<real>,
    syntheticMean: Option<real>,
    originalStd: Option<real>,
    syntheticStd: Option<real>,
    constraintViolations: nat)

  /**
   * The constraint violations of one column: nothing when the synthetic frame lacks the column
   * or its comparison with a number raises (the error is swallowed, and since both comparisons
   * raise alike, nothing was added before it).
   */
  function Violations(synthetic: Option<Series>, c: Constraint): (n: nat)
    ensures synthetic.None? || Compared(synthetic.value).None? ==> n == 0
    ensures c.min.None? && c.max.None? ==> n == 0
  {
    if synthetic.None? || Compared(synthetic.value).None? then 0
    else
      var cells := Compared(synthetic.value).value;
      (if c.min.Some? then Count(cells, Below(c.min.value)) else 0)
      + (if c.max.Some? then Count(cells, Above(c.max.value)) else 0)
  }

  /**
   * The report for the column `col` of the original frame. `mean` and `std` stand for
   * `float(np.nanmean(...))` and `float(np.nanstd(...))`, `None` when they raise; a synthetic
   * column that is missing raises too.
   */
  function ReportFor(col: string, series: Series, synth: Frame, constraints: Entries<Constraint>,
                     mean: Series -> Option<real>, std: Series -> Option<real>): (r: ColumnReport)
    ensures !series.Numeric? ==> r.originalMean == None && r.syntheticMean == None && r.originalStd == None && r.syntheticStd == None
    ensures Get(synth, col).None? ==> r.syntheticMean == None && r.syntheticStd == None && r.constraintViolations == 0
  {
    var other := Get(synth, col);
    var numeric := series.Numeric?;
    ColumnReport(
      if numeric then mean(series) else None,
      if numeric && other.Some? then mean(other.value) else None,
      if numeric then std(series) else None,
      if numeric && other.Some? then std(other.value) else None,
      Violations(other, LookupConstraint(constraints, col)))
  }

  /** The `results` dict after the columns of `original`, in order. */
  function ValidationOf(original: Frame, synth: Frame, constraints: Entries<Constraint>,
                        mean: Series -> Option<real>, std: Series -> Option<real>): Entries<ColumnReport>
  {
    if original == [] then []
    else
      var (col, series) := original[|original| - 1];
      Put(ValidationOf(original[..|original| - 1], synth, constraints, mean, std), col,
          ReportFor(col, series, synth, constraints, mean, std))
  }

  /** `compute_validation`: the loop over the original columns. */
  method ComputeValidation(original: Frame, synth: Frame, constraints: Entries<Constraint>,
                           mean: Series -> Option<real>, std: Series -> Option<real>)
    returns (results: Entries<ColumnReport>)
    ensures results == ValidationOf(original, synth, constraints, mean, std)
  {
    results := [];
    for i := 0 to |original|
      invariant results == ValidationOf(original[..i], synth, constraints, mean, std)
    {
      assert original[..i + 1][..i] == original[..i];
      var res := ColumnResult(original[i].0, original[i].1, synth, constraints, mean, std);
      results := Put(results, original[i].0, res);
    }
    assert original[..|original|] == original;
  }

  /** The body of the loop: `res` for one column, filled in field by field. */
  method ColumnResult(col: string, series: Series, synth: Frame, constraints: Entries<Constraint>,
                      mean: Series -> Option<real>, std: Series -> Option<real>)
    returns (res: ColumnReport)
    ensures res == ReportFor(col, series, synth, constraints, mean, std)
  {
    res := ColumnReport(None, None, None, None, 0);
    var other := Get(synth, col);
    if series.Numeric? {
      res := res.(originalMean := mean(series));
      res := res.(syntheticMean := if other.Some? then mean(other.value) else None);
      res := res.(originalStd := std(series));
      res := res.(syntheticStd := if other.Some? then std(other.value) else None);
    }
    assert res == ReportFor(col, series, synth, constraints, mean, std).(constraintViolations := 0);
    var c := LookupConstraint(constraints, col);
    if other.Some? && Compared(other.value).Some? {
      var cells := Compared(other.value).value;
      if c.min.Some? {
        res := res.(constraintViolations := res.constraintViolations + Count(cells, Below(c.min.value)));
      }
      if c.max.Some? {
        res := res.(constraintViolations := res.constraintViolations + Count(cells, Above(c.max.value)));
      }
    }
    assert res.constraintViolations == Violations(other, c);
  }

  // ---------------------------------------------------------------------------------------
  // What the report says

  /** The report has exactly the original columns as keys, each once. */
  lemma {:induction false} ReportKeys(original: Frame, synth: Frame, constraints: Entries<Constraint>,
                                      mean: Series -> Option<real>, std: Series -> Option<real>)
    ensures DistinctKeys(ValidationOf(original, synth, constraints, mean, std))
    ensures forall col :: col in Keys(ValidationOf(original, synth, constraints, mean, std)) <==> col in Keys(original)
    ensures DistinctKeys(original) ==> Keys(ValidationOf(original, synth, constraints, mean, std)) == Keys(original)
    decreases |original|
  {
    if original != [] {
      var init := original[..|original| - 1];
      var (col, series) := original[|original| - 1];
      var v := ValidationOf(init, synth, constraints, mean, std);
      KeysLast(original);
      ReportKeys(init, synth, constraints, mean, std);
      PutKeys(v, col, ReportFor(col, series, synth, constraints, mean, std));
      PutDistinct(v, col, ReportFor(col, series, synth, constraints, mean, std));
      if DistinctKeys(original) {
        assert DistinctKeys(init);
        assert col !in Keys(init);
      }
    }
  }

  /** With distinct column labels, each column's entry is the report for that column. */
  lemma {:induction false} ReportOfColumn(original: Frame, synth: Frame, constraints: Entries<Constraint>,
                                          mean: Series -> Option<real>, std: Series -> Option<real>, i: nat)
    requires DistinctKeys(original) && i < |original|
    ensures Get(ValidationOf(original, synth, constraints, mean, std), original[i].0)
         == Some(ReportFor(original[i].0, original[i].1, synth, constraints, mean, std))
    decreases |original|
  {
    var init := original[..|original| - 1];
    var (col, series) := original[|original| - 1];
    var v := ValidationOf(init, synth, constraints, mean, std);
    PutGet(v, col, ReportFor(col, series, synth, constraints, mean, std), original[i].0);
    if i < |original| - 1 {
      assert init[i] == original[i];
      ReportOfColumn(init, synth, constraints, mean, std, i);
    }
  }

  /** A column that is not numeric keeps all four statistics `None`. */
  lemma {:induction false} NonNumericHasNoStatistics(col: string, series: Series, synth: Frame,
                                                     constraints: Entries<Constraint>,
                                                     mean: Series -> Option<real>, std: Series -> Option<real>)
    requires !series.Numeric?
    ensures var r := ReportFor(col, series, synth, constraints, mean, std);
      r.originalMean == None && r.syntheticMean == None && r.originalStd == None && r.syntheticStd == None
  {
  }

  /** Without a non-empty constraint under the name or its snake-case form nothing is a violation. */
  lemma {:induction false} UnconstrainedHasNoViolations(col: string, series: Series, synth: Frame,
                                                        constraints: Entries<Constraint>,
                                                        mean: Series -> Option<real>, std: Series -> Option<real>)
    requires !HasTruthy(constraints, col) && !HasTruthy(constraints, Snake.ToSnake(col))
    ensures ReportFor(col, series, synth, constraints, mean, std).constraintViolations == 0
  {
  }

  /**
   * The violations are the synthetic rows below `min` plus those above `max`; with both bounds
   * and `min <= max` they are the rows outside `[min, max]`, so never more than the rows.
   */
  lemma {:induction false} ViolationsAreRowsOutside(cells: seq<Option<real>>, c: Constraint)
    ensures Violations(Some(Numeric(cells)), c)
         == |(if c.min.Some? then Matching(cells, Below(c.min.value)) else {})|
          + |(if c.max.Some? then Matching(cells, Above(c.max.value)) else {})|
    ensures c.min.Some? && c.max.Some? && c.min.value <= c.max.value ==>
      Violations(Some(Numeric(cells)), c) == |Matching(cells, Outside(c.min.value, c.max.value))| <= |cells|
  {
    if c.min.Some? {
      CountIsMatchingRows(cells, Below(c.min.value));
    }
    if c.max.Some? {
      CountIsMatchingRows(cells, Above(c.max.value));
    }
    if c.min.Some? && c.max.Some? && c.min.value <= c.max.value {
      BelowPlusAbove(cells, c.min.value, c.max.value);
      CountIsMatchingRows(cells, Outside(c.min.value, c.max.value));
    }
  }

  /** With only one bound the violations never exceed the rows either. */
  lemma {:induction false} OneBoundViolationsWithinRows(cells: seq<Option<real>>, c: Constraint)
    requires c.min.None? || c.max.None?
    ensures Violations(Some(Numeric(cells)), c) <= |cells|
  {
  }

  /** With `min > max` a value outside both bounds is counted twice: `[5]` against `min 10, max 0` gives 2. */
  lemma {:induction false} ReversedBoundsCountTwice()
    ensures Violations(Some(Numeric([Some(5.0)])), Constraint(Some(10.0), Some(0.0), false)) == 2
  {
    assert [Some(5.0)][..0] == [];
  }

  /**
   * An `object` column of numbers and nulls is counted like the numeric column it holds, the
   * nulls never counting: `[5, None]` against `min 10` gives 1.
   */
  lemma {:induction false} ObjectNumbersCounted(items: seq<Cell>, c: Constraint)
    requires forall i :: 0 <= i < |items| ==> !items[i].Incomparable?
    ensures Violations(Some(Objects(items)), c) == Violations(Some(Numeric(AsCells(items))), c)
  {
  }

  /** An `object` column with an element that cannot be ordered against a number has no violations. */
  lemma {:induction false} IncomparableObjectsRaise(items: seq<Cell>, c: Constraint, i: nat)
    requires i < |items| && items[i].Incomparable?
    ensures Violations(Some(Objects(items)), c) == 0
  {
  }

  /** `[5, None]` as an `object` column against `min 10` gives one violation. */
  lemma {:induction false} ObjectColumnExample()
    ensures Violations(Some(Objects([Number(5.0), Missing])), Constraint(Some(10.0), None, false)) == 1
  {
    var cells := AsCells([Number(5.0), Missing]);
    assert cells == [Some(5.0), None];
    assert cells[..1] == [Some(5.0)] && cells[..1][..0] == [];
  }
}
