/**
 * The first stage of clean_data: every column that has missing cells gets
 * them filled, numeric columns with the median of their non-missing values
 * and categorical columns with their mode. Columns are processed one at a
 * time in a working copy of the table.
 */
module Imputer {
  import opened Tables
  import opened Stats

  /** The column holds at least one non-missing cell. */
  predicate HasValue(c: Column) {
    exists i :: 0 <= i < |c.cells| && c.cells[i].Some?
  }

  /**
   * A categorical column with gaps and no value has an empty mode, and
   * taking its first element fails. (A numeric column without values
   * does not fail: its median is NaN and filling with NaN changes nothing.)
   */
  predicate Imputable(c: Column): (b: bool)
    ensures WellKinded(c) ==> (b <==> (c.kind == Categorical && None in c.cells ==> |Texts(c.cells)| > 0))
  {
    HasValueIffTexts(c);
    c.kind == Categorical && None in c.cells ==> HasValue(c)
  }

  /** A well-kinded categorical column has a value exactly when it has a string. */
  lemma HasValueIffTexts(c: Column)
    ensures WellKinded(c) && c.kind == Categorical ==> (HasValue(c) <==> |Texts(c.cells)| > 0)
  {
    if WellKinded(c) && c.kind == Categorical && HasValue(c) {
      TextsNonEmpty(c);
    }
    if |Texts(c.cells)| > 0 {
      assert Texts(c.cells)[0] in Texts(c.cells);
    }
  }

  predicate ImputableTable(t: Table) {
    forall c :: 0 <= c < |t.columns| ==> Imputable(t.columns[c])
  }

  lemma NumbersNonEmpty(c: Column)
    requires WellKinded(c) && c.kind == Numeric && HasValue(c)
    ensures |Numbers(c.cells)| > 0
  {
    var i :| 0 <= i < |c.cells| && c.cells[i].Some?;
    assert c.cells[i] == Some(Num(c.cells[i].value.x));
    assert c.cells[i].value.x in Numbers(c.cells);
  }

  lemma TextsNonEmpty(c: Column)
    requires WellKinded(c) && c.kind == Categorical && HasValue(c)
    ensures |Texts(c.cells)| > 0
  {
    var i :| 0 <= i < |c.cells| && c.cells[i].Some?;
    assert c.cells[i] == Some(Text(c.cells[i].value.s));
    assert c.cells[i].value.s in Texts(c.cells);
  }

  /** Filling a column with a value of its own kind leaves no gap and a well-kinded column. */
  lemma FillKeepsKind(c: Column, v: Value)
    requires WellKinded(c) && (v.Num? <==> c.kind == Numeric)
    ensures var r := c.(cells := FillNa(c.cells, v));
      WellKinded(r) && NoMissing(r.cells) &&
      forall i :: 0 <= i < |c.cells| && c.cells[i].Some? ==> r.cells[i] == c.cells[i]
  {
  }

  /**
   * One iteration of the column loop: a column without missing cells is
   * returned as it is; otherwise its missing cells are filled with one
   * value computed from the column before filling. A numeric column
   * without any value keeps its gaps.
   */
  function ImputeColumn(c: Column): (r: Column)
    requires WellKinded(c) && Imputable(c)
    ensures r.name == c.name && r.kind == c.kind && |r.cells| == |c.cells|
    ensures WellKinded(r)
    ensures NoMissing(r.cells) <==> NoMissing(c.cells) || HasValue(c)
    ensures forall i :: 0 <= i < |c.cells| && c.cells[i].Some? ==> r.cells[i] == c.cells[i]
    ensures None !in c.cells || !HasValue(c) ==> r == c
  {
    if None !in c.cells then
      c
    else
      match c.kind
      case Numeric =>
        if !HasValue(c) then
          c
        else
          NumbersNonEmpty(c);
          var v := Num(Median(Numbers(c.cells)));
          FillKeepsKind(c, v);
          c.(cells := FillNa(c.cells, v))
      case Categorical =>
        TextsNonEmpty(c);
        var v := Text(Mode(Texts(c.cells)));
        FillKeepsKind(c, v);
        c.(cells := FillNa(c.cells, v))
  }

  /**
   * In a numeric column with gaps, every missing cell receives the same
   * value: the median of the column's non-missing numbers, each number
   * counted as often as the column holds it.
   */
  lemma ImputeNumericFill(c: Column)
    requires WellKinded(c) && c.kind == Numeric && None in c.cells && HasValue(c)
    ensures |Numbers(c.cells)| > 0
    ensures forall x :: multiset(Numbers(c.cells))[x] == multiset(c.cells)[Some(Num(x))]
    ensures forall i :: 0 <= i < |c.cells| && c.cells[i].None? ==>
      ImputeColumn(c).cells[i] == Some(Num(Median(Numbers(c.cells))))
  {
    NumbersNonEmpty(c);
    forall x ensures multiset(Numbers(c.cells))[x] == multiset(c.cells)[Some(Num(x))] {
      NumbersCount(c.cells, x);
    }
  }

  /**
   * In a categorical column with gaps, every missing cell receives the same
   * string m; m is one of the column's values, no value occurs in the
   * column more often than m, and m is the least of the values that occur
   * as often.
   */
  lemma ImputeCategoricalFill(c: Column)
    requires WellKinded(c) && Imputable(c) && c.kind == Categorical && None in c.cells
    ensures exists m ::
      && Some(Text(m)) in c.cells
      && (forall i :: 0 <= i < |c.cells| && c.cells[i].None? ==> ImputeColumn(c).cells[i] == Some(Text(m)))
      && (forall v :: multiset(c.cells)[Some(Text(v))] <= multiset(c.cells)[Some(Text(m))])
      && (forall v :: Some(Text(v)) in c.cells && multiset(c.cells)[Some(Text(v))] == multiset(c.cells)[Some(Text(m))]
            ==> LexLe(m, v))
  {
    TextsNonEmpty(c);
    var m := Mode(Texts(c.cells));
    assert forall i :: 0 <= i < |c.cells| && c.cells[i].None? ==> ImputeColumn(c).cells[i] == Some(Text(m));
    ModeOfCells(c.cells);
  }

  /** The mode of the strings of some cells, stated over the cells themselves. */
  lemma ModeOfCells(cells: seq<Cell>)
    requires |Texts(cells)| > 0
    ensures var m := Mode(Texts(cells));
      && Some(Text(m)) in cells
      && (forall v :: multiset(cells)[Some(Text(v))] <= multiset(cells)[Some(Text(m))])
      && (forall v :: Some(Text(v)) in cells && multiset(cells)[Some(Text(v))] == multiset(cells)[Some(Text(m))]
            ==> LexLe(m, v))
  {
    var vals := Texts(cells);
    var m := Mode(vals);
    TextsCount(cells, m);
    forall v
      ensures multiset(cells)[Some(Text(v))] <= multiset(cells)[Some(Text(m))]
      ensures Some(Text(v)) in cells && multiset(cells)[Some(Text(v))] == multiset(cells)[Some(Text(m))]
        ==> LexLe(m, v)
    {
      TextsCount(cells, v);
      if Some(Text(v)) in cells {
        var i :| 0 <= i < |cells| && cells[i] == Some(Text(v));
        assert v in vals;
      }
    }
    assert m in vals;
    var j :| 0 <= j < |cells| && cells[j] == Some(Text(m));
  }

  /** The whole imputation stage, column by column. */
  function ImputeTable(t: Table): (r: Table)
    requires Valid(t) && ImputableTable(t)
    ensures Valid(r) && SameSchema(t, r) && Height(r) == Height(t)
    ensures forall c :: 0 <= c < |t.columns| ==>
      (NoMissing(r.columns[c].cells) <==> NoMissing(t.columns[c].cells) || HasValue(t.columns[c]))
    ensures forall c, i :: 0 <= c < |t.columns| && 0 <= i < Height(t) && t.columns[c].cells[i].Some? ==>
      r.columns[c].cells[i] == t.columns[c].cells[i]
    ensures forall c :: 0 <= c < |t.columns| && (None !in t.columns[c].cells || !HasValue(t.columns[c])) ==>
      r.columns[c] == t.columns[c]
  {
    ImputedColumnsShape(t);
    Table(seq(|t.columns|, c requires 0 <= c < |t.columns| => ImputeColumn(t.columns[c])))
  }

  /** Each imputed column of a valid table has the table's height and stays well kinded. */
  lemma ImputedColumnsShape(t: Table)
    requires Valid(t) && ImputableTable(t)
    ensures forall c :: 0 <= c < |t.columns| ==>
      |ImputeColumn(t.columns[c]).cells| == Height(t) && WellKinded(ImputeColumn(t.columns[c]))
  {
    forall c | 0 <= c < |t.columns|
      ensures |ImputeColumn(t.columns[c]).cells| == Height(t) && WellKinded(ImputeColumn(t.columns[c]))
    {
      assert WellKinded(t.columns[c]) && Imputable(t.columns[c]);
    }
  }

  /**
   * The loop of clean_data over the columns of a working copy: each
   * column is read from the copy, where it has not been touched yet, and
   * replaced by its imputed version. The loop stops with no table at the
   * first categorical column whose mode does not exist.
   */
  method ImputeMissing(t: Table) returns (r: Option<Table>)
    requires Valid(t)
    ensures r.None? <==> !ImputableTable(t)
    ensures r.Some? ==> ImputableTable(t) && r.value == ImputeTable(t)
  {
    var cols := t.columns;
    var i := 0;
    while i < |cols|
      invariant 0 <= i <= |cols| == |t.columns|
      invariant forall k :: 0 <= k < i ==> Imputable(t.columns[k])
      invariant forall k :: 0 <= k < i ==> cols[k] == ImputeColumn(t.columns[k])
      invariant forall k :: i <= k < |cols| ==> cols[k] == t.columns[k]
    {
      assert cols[i] == t.columns[i] && WellKinded(cols[i]);
      if !Imputable(cols[i]) {
        assert !ImputableTable(t);
        return None;
      }
      cols := cols[i := ImputeColumn(cols[i])];
      i := i + 1;
    }
    assert Table(cols) == ImputeTable(t);
    r := Some(Table(cols));
  }
}
