/**
 * `infer_column_types`: the column type reported for each column of a frame, decided from its
 * pandas dtype by a fixed order of tests.
 */
module ColumnTypes {
  import opened Wrappers
  import opened Dicts

  /** The kinds of pandas dtype the tests tell apart. */
  datatype Dtype =
    | Bool | SignedInt | UnsignedInt | Float | Complex
    | Datetime64 | DatetimeTz | Timedelta64
    | Category | String | Object

  /** `pd.api.types.is_bool_dtype`. */
  predicate IsBoolDtype(d: Dtype) { d == Bool }

  /** `pd.api.types.is_numeric_dtype`: numbers and booleans, but no date or time span. */
  predicate IsNumericDtype(d: Dtype) { d in {Bool, SignedInt, UnsignedInt, Float, Complex} }

  /** `pd.api.types.is_datetime64_any_dtype`: with or without a time zone. */
  predicate IsDatetimeDtype(d: Dtype) { d in {Datetime64, DatetimeTz} }

  datatype ColumnType = Boolean | Numerical | DatetimeType | Categorical

  /**
   * The type of one column: the first test that holds, in the order boolean, numeric,
   * datetime, so a boolean column (which is also numeric) is `boolean`.
   */
  function TypeOf(d: Dtype): (t: ColumnType)
    ensures t == Boolean <==> IsBoolDtype(d)
    ensures t == Numerical <==> IsNumericDtype(d) && !IsBoolDtype(d)
    ensures t == DatetimeType <==> IsDatetimeDtype(d)
    ensures t == Categorical <==> !IsNumericDtype(d) && !IsDatetimeDtype(d)
  {
    if IsBoolDtype(d) then Boolean
    else if IsNumericDtype(d) then Numerical
    else if IsDatetimeDtype(d) then DatetimeType
    else Categorical
  }

  /** The `types` dict after the given columns. */
  function TypesOf(columns: Entries<Dtype>): Entries<ColumnType> {
    if columns == [] then []
    else
      var (col, d) := columns[|columns| - 1];
      Put(TypesOf(columns[..|columns| - 1]), col, TypeOf(d))
  }

  method InferColumnTypes(columns: Entries<Dtype>) returns (types: Entries<ColumnType>)
    ensures types == TypesOf(columns)
  {
    types := [];
    for i := 0 to |columns|
      invariant types == TypesOf(columns[..i])
    {
      assert columns[..i + 1][..i] == columns[..i];
      var (col, d) := columns[i];
      var t;
      if IsBoolDtype(d) {
        t := Boolean;
      } else if IsNumericDtype(d) {
        t := Numerical;
      } else if IsDatetimeDtype(d) {
        t := DatetimeType;
      } else {
        t := Categorical;
      }
      types := Put(types, col, t);
    }
    assert columns[..|columns|] == columns;
  }

  /** The result has exactly the frame's columns as keys, in order, each mapped to its type. */
  lemma {:induction false} TypesOfColumns(columns: Entries<Dtype>, i: nat)
    requires DistinctKeys(columns) && i < |columns|
    ensures Keys(TypesOf(columns)) == Keys(columns)
    ensures Get(TypesOf(columns), columns[i].0) == Some(TypeOf(columns[i].1))
    decreases |columns|
  {
    TypesOfKeys(columns);
    var init := columns[..|columns| - 1];
    var (col, d) := columns[|columns| - 1];
    var prior := TypesOf(init);
    PutGet(prior, col, TypeOf(d), columns[i].0);
    if i < |init| {
      assert init[i] == columns[i];
      assert col != columns[i].0 by {
        KeysLast(columns);
      }
      TypesOfColumns(init, i);
    }
  }

  /** The keys of the type dict are the frame's columns, in order. */
  lemma {:induction false} TypesOfKeys(columns: Entries<Dtype>)
    requires DistinctKeys(columns)
    ensures Keys(TypesOf(columns)) == Keys(columns)
    decreases |columns|
  {
    if columns != [] {
      var init := columns[..|columns| - 1];
      var (col, d) := columns[|columns| - 1];
      KeysLast(columns);
      assert forall k :: 0 <= k < |init| ==> init[k] == columns[k];
      TypesOfKeys(init);
      assert col !in Keys(init);
      PutKeys(TypesOf(init), col, TypeOf(d));
    }
  }
}
