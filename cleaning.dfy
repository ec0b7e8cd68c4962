/**
 * clean_data as a whole: impute every column, then drop the price
 * outliers from the imputed table. The price column is looked up by name
 * after imputation. pandas raises, and the model returns an error, for a
 * categorical column with gaps and no value (its mode is empty), for a
 * table without a price column, and for a non-numeric price column.
 */
module Cleaning {
  import opened Tables
  import opened Imputer
  import opened OutlierFilter

  const Target: string := "price"

  datatype CleanError = EmptyMode | MissingTarget | TargetNotNumeric

  datatype Result = Ok(table: Table) | Err(error: CleanError)

  /** The index of the first column called name, if there is one. */
  function FindColumn(cols: seq<Column>, name: string): (r: Option<nat>)
    ensures r.Some? ==> r.value < |cols| && cols[r.value].name == name
    ensures r.Some? ==> forall c :: 0 <= c < r.value ==> cols[c].name != name
    ensures r.None? ==> forall c :: 0 <= c < |cols| ==> cols[c].name != name
  {
    if cols == [] then None
    else if cols[0].name == name then Some(0)
    else
      match FindColumn(cols[1..], name)
      case None => None
      case Some(i) => Some(i + 1)
  }

  /** Looking a column up depends on the column names only. */
  lemma {:induction false} FindColumnSchema(t: Table, u: Table, name: string)
    requires SameSchema(t, u)
    ensures FindColumn(t.columns, name) == FindColumn(u.columns, name)
    decreases |t.columns|
  {
    if t.columns != [] && t.columns[0].name != name {
      FindColumnSchema(Table(t.columns[1..]), Table(u.columns[1..]), name);
    }
  }

  /**
   * After imputation a numeric column is either complete or, when it had
   * no value at all, still entirely missing.
   */
  lemma ImputedNumericColumn(t: Table, p: nat)
    requires Valid(t) && ImputableTable(t) && p < |t.columns| && t.columns[p].kind == Numeric
    ensures var cells := ImputeTable(t).columns[p].cells;
      AllNumbers(cells) || forall i :: 0 <= i < |cells| ==> cells[i].None?
  {
    var m := ImputeTable(t);
    var c := m.columns[p];
    assert WellKinded(c);
    if !NoMissing(c.cells) {
      assert !HasValue(t.columns[p]);
      assert c == t.columns[p];
    }
  }

  /**
   * clean_data: the imputation loop, then the outlier filter on the
   * imputed price column, whose fences are therefore computed from the
   * imputed prices. A price column without any value gives NaN fences,
   * against which no row is an outlier, so the table is returned whole.
   * The same holds for a table without rows, whatever the kind of its
   * price column: pandas' quantile of no values is NaN.
   */
  method CleanData(t: Table) returns (r: Result)
    requires Valid(t)
    ensures r == Err(EmptyMode) <==> !ImputableTable(t)
    ensures r == Err(MissingTarget) <==> ImputableTable(t) && FindColumn(t.columns, Target).None?
    ensures r == Err(TargetNotNumeric) <==>
      && ImputableTable(t) && FindColumn(t.columns, Target).Some?
      && t.columns[FindColumn(t.columns, Target).value].kind == Categorical
      && Height(t) > 0
    ensures r.Ok? ==>
      && ImputableTable(t) && FindColumn(t.columns, Target).Some?
      && var p := FindColumn(t.columns, Target).value;
         var m := ImputeTable(t);
         if m.columns[p].kind == Categorical then
           Height(t) == 0 && r.table == m
         else if AllNumbers(m.columns[p].cells) then
           Filterable(m, p) && r.table == RemoveOutliers(m, p)
         else
           r.table == m && forall i :: 0 <= i < Height(m) ==> m.columns[p].cells[i].None?
  {
    var imputed := ImputeMissing(t);
    if imputed.None? {
      return Err(EmptyMode);
    }
    var m := imputed.value;
    FindColumnSchema(t, m, Target);
    var p := FindColumn(m.columns, Target);
    if p.None? {
      return Err(MissingTarget);
    }
    if m.columns[p.value].kind != Numeric {
      if Height(m) == 0 {
        return Ok(m);
      }
      return Err(TargetNotNumeric);
    }
    ImputedNumericColumn(t, p.value);
    if !AllNumbers(m.columns[p.value].cells) {
      return Ok(m);
    }
    r := Ok(RemoveOutliers(m, p.value));
  }

  /**
   * Each row of the cleaned table is a row of the imputed table, so every
   * non-missing input cell of a kept row is unchanged, and a column that
   * had a value has no missing cell left.
   */
  lemma CleanedRowsAreImputedRows(t: Table, p: nat)
    requires Valid(t) && ImputableTable(t) && Filterable(ImputeTable(t), p)
    ensures forall c, k :: 0 <= c < |t.columns| && HasValue(t.columns[c]) && 0 <= k < Height(RemoveOutliers(ImputeTable(t), p)) ==>
      RemoveOutliers(ImputeTable(t), p).columns[c].cells[k].Some?
    ensures forall k :: 0 <= k < |Survivors(ImputeTable(t), p)| ==>
      && Survivors(ImputeTable(t), p)[k] < Height(t)
      && Row(RemoveOutliers(ImputeTable(t), p), k) == Row(ImputeTable(t), Survivors(ImputeTable(t), p)[k])
  {
    var m := ImputeTable(t);
    var r := RemoveOutliers(m, p);
    RemoveOutliersRows(m, p);
    forall c, k | 0 <= c < |t.columns| && HasValue(t.columns[c]) && 0 <= k < Height(r)
      ensures r.columns[c].cells[k].Some?
    {
      var i := Survivors(m, p)[k];
      assert Row(r, k)[c] == Row(m, i)[c];
      assert NoMissing(m.columns[c].cells);
    }
  }
}
