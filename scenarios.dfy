/**
 * Concrete cases of the cleaning step: a numeric and a categorical fill,
 * and a price column with one extreme value.
 */
module Scenarios {
  import opened Tables
  import opened Stats
  import opened Imputer
  import opened OutlierFilter
  import opened Cleaning

  lemma MedianOfThree(s: seq<real>)
    requires |s| == 3 && s[0] <= s[1] <= s[2]
    ensures Median(s) == s[1]
  {
    assert Sorted(s);
    MedianOfSorted(s);
  }

  lemma NumbersWithGap(x: real, y: real, z: real)
    ensures Numbers([Some(Num(x)), Some(Num(y)), None, Some(Num(z))]) == [x, y, z]
  {
    var c3: seq<Cell> := [Some(Num(z))];
    var c2: seq<Cell> := [None] + c3;
    var c1: seq<Cell> := [Some(Num(y))] + c2;
    var c0: seq<Cell> := [Some(Num(x))] + c1;
    assert c3[1..] == [];
    assert Numbers(c3) == [z];
    assert c2[1..] == c3;
    assert Numbers(c2) == [z];
    assert c1[1..] == c2;
    assert Numbers(c1) == [y, z];
    assert c0[1..] == c1;
    assert c0 == [Some(Num(x)), Some(Num(y)), None, Some(Num(z))];
  }

  /** A column whose only gap is at row i gets exactly that cell filled. */
  lemma FillOneGap(cells: seq<Cell>, v: Value, i: nat)
    requires i < |cells| && cells[i].None?
    requires forall j :: 0 <= j < |cells| && j != i ==> cells[j].Some?
    ensures FillNa(cells, v) == cells[i := Some(v)]
  {
  }

  /** The gap in [x, y, missing, z] with x <= y <= z is filled with the median y. */
  lemma NumericGapValue(name: string, x: real, y: real, z: real)
    requires x <= y <= z
    ensures var c := Column(name, Numeric, [Some(Num(x)), Some(Num(y)), None, Some(Num(z))]);
      WellKinded(c) && Imputable(c) && ImputeColumn(c).cells == FillNa(c.cells, Num(y))
  {
    var c := Column(name, Numeric, [Some(Num(x)), Some(Num(y)), None, Some(Num(z))]);
    assert WellKinded(c) && Imputable(c) && None in c.cells && HasValue(c) by {
      assert c.cells[0].Some? && c.cells[2] == None;
    }
    NumbersWithGap(x, y, z);
    MedianOfThree([x, y, z]);
  }

  /**
   * [10, 20, missing, 30] becomes [10, 20, 20, 30]; in general
   * [x, y, missing, z] with x <= y <= z becomes [x, y, y, z].
   */
  lemma NumericFillExample(name: string, x: real, y: real, z: real)
    requires x <= y <= z
    ensures var c := Column(name, Numeric, [Some(Num(x)), Some(Num(y)), None, Some(Num(z))]);
      WellKinded(c) && Imputable(c) &&
      ImputeColumn(c).cells == [Some(Num(x)), Some(Num(y)), Some(Num(y)), Some(Num(z))]
  {
    NumericGapValue(name, x, y, z);
    FillThirdCell(x, y, z);
  }

  lemma FillThirdCell(x: real, y: real, z: real)
    ensures FillNa([Some(Num(x)), Some(Num(y)), None, Some(Num(z))], Num(y))
      == [Some(Num(x)), Some(Num(y)), Some(Num(y)), Some(Num(z))]
  {
    var cells: seq<Cell> := [Some(Num(x)), Some(Num(y)), None, Some(Num(z))];
    FillOneGap(cells, Num(y), 2);
    assert cells[2 := Some(Num(y))] == [Some(Num(x)), Some(Num(y)), Some(Num(y)), Some(Num(z))];
  }

  lemma TextsWithGap(a: string, b: string)
    ensures Texts([Some(Text(a)), Some(Text(a)), Some(Text(b)), None]) == [a, a, b]
  {
    var c3: seq<Cell> := [None];
    var c2: seq<Cell> := [Some(Text(b))] + c3;
    var c1: seq<Cell> := [Some(Text(a))] + c2;
    var c0: seq<Cell> := [Some(Text(a))] + c1;
    assert c3[1..] == [];
    assert Texts(c3) == [];
    assert c2[1..] == c3;
    assert Texts(c2) == [b];
    assert c1[1..] == c2;
    assert Texts(c1) == [a, b];
    assert c0[1..] == c1;
    assert c0 == [Some(Text(a)), Some(Text(a)), Some(Text(b)), None];
  }

  lemma ModeOfTwoToOne(a: string, b: string)
    requires a != b
    ensures Mode([a, a, b]) == a
  {
    var vals := [a, a, b];
    assert multiset(vals)[a] == 2 && multiset(vals)[b] == 1;
    assert forall v :: v in vals ==> v == a || v == b;
    LexLeReflexive(a);
    ModeUnique(vals, a);
  }

  /** The gap in [a, a, b, missing] with a != b is filled with a, the value that occurs twice. */
  lemma CategoricalGapValue(name: string, a: string, b: string)
    requires a != b
    ensures var c := Column(name, Categorical, [Some(Text(a)), Some(Text(a)), Some(Text(b)), None]);
      WellKinded(c) && Imputable(c) && ImputeColumn(c).cells == FillNa(c.cells, Text(a))
  {
    var c := Column(name, Categorical, [Some(Text(a)), Some(Text(a)), Some(Text(b)), None]);
    assert WellKinded(c) && Imputable(c) && None in c.cells by {
      assert c.cells[0].Some? && c.cells[3] == None;
    }
    TextsWithGap(a, b);
    ModeOfTwoToOne(a, b);
  }

  /**
   * ["A", "A", "B", missing] becomes ["A", "A", "B", "A"]; in general
   * [a, a, b, missing] with a != b becomes [a, a, b, a].
   */
  lemma CategoricalFillExample(name: string, a: string, b: string)
    requires a != b
    ensures var c := Column(name, Categorical, [Some(Text(a)), Some(Text(a)), Some(Text(b)), None]);
      WellKinded(c) && Imputable(c) &&
      ImputeColumn(c).cells == [Some(Text(a)), Some(Text(a)), Some(Text(b)), Some(Text(a))]
  {
    CategoricalGapValue(name, a, b);
    FillFourthCell(a, b);
  }

  lemma FillFourthCell(a: string, b: string)
    ensures FillNa([Some(Text(a)), Some(Text(a)), Some(Text(b)), None], Text(a))
      == [Some(Text(a)), Some(Text(a)), Some(Text(b)), Some(Text(a))]
  {
    var cells: seq<Cell> := [Some(Text(a)), Some(Text(a)), Some(Text(b)), None];
    FillOneGap(cells, Text(a), 3);
    assert cells[3 := Some(Text(a))] == [Some(Text(a)), Some(Text(a)), Some(Text(b)), Some(Text(a))];
  }

  /** The first example of each kind, as literally given. */
  lemma FillExamples()
    ensures var c := Column("lot", Numeric, [Some(Num(10.0)), Some(Num(20.0)), None, Some(Num(30.0))]);
      WellKinded(c) && Imputable(c) &&
      ImputeColumn(c).cells == [Some(Num(10.0)), Some(Num(20.0)), Some(Num(20.0)), Some(Num(30.0))]
    ensures var c := Column("zone", Categorical, [Some(Text("A")), Some(Text("A")), Some(Text("B")), None]);
      WellKinded(c) && Imputable(c) &&
      ImputeColumn(c).cells == [Some(Text("A")), Some(Text("A")), Some(Text("B")), Some(Text("A"))]
  {
    NumericFillExample("lot", 10.0, 20.0, 30.0);
    CategoricalFillExample("zone", "A", "B");
  }

  function PriceTable(): Table {
    Table([Column("price", Numeric,
      [Some(Num(100.0)), Some(Num(102.0)), Some(Num(98.0)), Some(Num(101.0)), Some(Num(99.0)), Some(Num(1000000.0))])])
  }

  lemma PriceTableFilterable()
    ensures Filterable(PriceTable(), 0) && Height(PriceTable()) == 6
  {
    var c := PriceTable().columns[0];
    assert |c.cells| == 6;
    assert AllNumbers(c.cells) by {
      forall i | 0 <= i < 6 ensures c.cells[i].Some? && c.cells[i].value.Num? {
      }
    }
    assert WellKinded(c);
  }

  function ScenarioPrices(): seq<real> {
    [100.0, 102.0, 98.0, 101.0, 99.0, 1000000.0]
  }

  /** Exchanging two elements keeps the same values. */
  lemma SwapSameValues(s: seq<real>, i: nat, j: nat)
    requires i < j < |s|
    ensures multiset(s[i := s[j]][j := s[i]]) == multiset(s)
  {
  }

  /** Six distinct values in the scenario's order: s[2] < s[4] < s[0] < s[3] < s[1] < s[5]. */
  predicate ScenarioOrder(s: seq<real>) {
    |s| == 6 && s[2] < s[4] < s[0] < s[3] < s[1] < s[5]
  }

  /** Exchanging entries 0 and 2, then 1 and 4, keeps the same values. */
  lemma SixRearranged(s: seq<real>)
    requires |s| == 6
    ensures multiset([s[2], s[4], s[0], s[3], s[1], s[5]]) == multiset(s)
  {
    var s1 := s[0 := s[2]][2 := s[0]];
    SwapSameValues(s, 0, 2);
    var s2 := s1[1 := s1[4]][4 := s1[1]];
    SwapSameValues(s1, 1, 4);
    assert s2 == [s[2], s[4], s[0], s[3], s[1], s[5]] by {
      assert |s2| == 6;
      assert s2[0] == s[2] && s2[1] == s[4] && s2[2] == s[0];
      assert s2[3] == s[3] && s2[4] == s[1] && s2[5] == s[5];
    }
  }

  lemma SortSix(s: seq<real>)
    requires ScenarioOrder(s)
    ensures Sort(s) == [s[2], s[4], s[0], s[3], s[1], s[5]]
  {
    var t := [s[2], s[4], s[0], s[3], s[1], s[5]];
    SixRearranged(s);
    assert Sorted(t);
    SortIsUnique(s, t);
  }

  /** For six sorted values, Q1 lies a quarter of the way from the second to the third. */
  lemma SortedSixLowerQuartile(t: seq<real>)
    requires Sorted(t) && |t| == 6
    ensures Interpolate(t, Position(6, 0.25)) == t[1] + 0.25 * (t[2] - t[1])
  {
    assert Position(6, 0.25) == 1 as real + 0.25;
    InterpolateGap(t, 1, 0.25);
  }

  /** For six sorted values, Q3 lies three quarters of the way from the fourth to the fifth. */
  lemma SortedSixUpperQuartile(t: seq<real>)
    requires Sorted(t) && |t| == 6
    ensures Interpolate(t, Position(6, 0.75)) == t[3] + 0.75 * (t[4] - t[3])
  {
    assert Position(6, 0.75) == 3 as real + 0.75;
    InterpolateGap(t, 3, 0.75);
  }

  lemma SixLowerQuartile(s: seq<real>)
    requires ScenarioOrder(s)
    ensures Quantile(s, 0.25) == s[4] + 0.25 * (s[0] - s[4])
  {
    assert Quantile(s, 0.25) == Interpolate(Sort(s), Position(6, 0.25));
    SortedSixLowerQuartile(Sort(s));
    SortSix(s);
  }

  lemma SixUpperQuartile(s: seq<real>)
    requires ScenarioOrder(s)
    ensures Quantile(s, 0.75) == s[3] + 0.75 * (s[1] - s[3])
  {
    assert Quantile(s, 0.75) == Interpolate(Sort(s), Position(6, 0.75));
    SortedSixUpperQuartile(Sort(s));
    SortSix(s);
  }

  /** Q1 = 99.25 and Q3 = 101.75, so the fences are [95.5, 105.5]. */
  lemma ScenarioBounds()
    ensures PriceBounds(ScenarioPrices()) == Bounds(95.5, 105.5)
  {
    var s := ScenarioPrices();
    assert ScenarioOrder(s);
    SixLowerQuartile(s);
    SixUpperQuartile(s);
  }

  /** A mask that selects every row but the last selects the rows before it, in order. */
  lemma KeptAllButLast(keep: seq<bool>)
    requires |keep| > 0 && !keep[|keep| - 1]
    requires forall i :: 0 <= i < |keep| - 1 ==> keep[i]
    ensures Kept(keep) == seq(|keep| - 1, i => i)
  {
    KeptAll(keep[..|keep| - 1]);
  }

  /** Within [95.5, 105.5], only the sixth price is rejected. */
  lemma ScenarioKept()
    ensures Kept(KeepMask(ScenarioPrices(), Bounds(95.5, 105.5))) == [0, 1, 2, 3, 4]
  {
    var prices := ScenarioPrices();
    var m := KeepMask(prices, Bounds(95.5, 105.5));
    assert |m| == 6 && !m[5] by { assert prices[5] == 1000000.0; }
    assert forall i :: 0 <= i < 5 ==> m[i] by {
      forall i | 0 <= i < 5 ensures m[i] {
        assert 98.0 <= prices[i] <= 102.0;
      }
    }
    KeptAllButLast(m);
    assert seq(5, i => i) == [0, 1, 2, 3, 4];
  }

  /**
   * Prices 100, 102, 98, 101, 99, 1000000: only the last row is dropped
   * and five rows remain.
   */
  lemma PriceScenario()
    ensures Filterable(PriceTable(), 0) && Height(PriceTable()) == 6
    ensures TableBounds(PriceTable(), 0) == Bounds(95.5, 105.5)
    ensures Survivors(PriceTable(), 0) == [0, 1, 2, 3, 4]
    ensures Height(RemoveOutliers(PriceTable(), 0)) == 5
  {
    var t := PriceTable();
    PriceTableFilterable();
    assert Prices(t.columns[0].cells) == ScenarioPrices();
    ScenarioBounds();
    ScenarioKept();
    RemoveOutliersRows(t, 0);
  }

  /**
   * The whole cleaning step on the price table: imputation has nothing to
   * fill, and the outlier filter leaves five rows.
   */
  method CleanPriceScenario() returns (r: Result)
    ensures r.Ok? && Height(r.table) == 5
  {
    var t := PriceTable();
    PriceTableFilterable();
    PriceScenario();
    assert None !in t.columns[0].cells;
    assert ImputableTable(t);
    assert ImputeTable(t).columns[0] == t.columns[0];
    assert ImputeTable(t) == t;
    assert FindColumn(t.columns, Target) == Some(0);
    r := CleanData(t);
    assert r != Err(EmptyMode) && r != Err(MissingTarget) && r != Err(TargetNotNumeric);
    assert r.Ok? by {
      if r.Err? {
        assert r == Err(r.error);
        match r.error
        case EmptyMode =>
        case MissingTarget =>
        case TargetNotNumeric =>
      }
    }
    assert AllNumbers(ImputeTable(t).columns[0].cells);
  }

  /**
   * A header-only table whose price column is categorical: there is
   * nothing to impute, the quartiles of no values are NaN, and the empty
   * table comes back unchanged.
   */
  method EmptyPriceScenario() returns (r: Result)
    ensures r == Ok(Table([Column("price", Categorical, [])]))
  {
    var t := Table([Column("price", Categorical, [])]);
    assert Valid(t) && Height(t) == 0;
    assert ImputableTable(t);
    assert ImputeTable(t).columns[0] == t.columns[0];
    assert ImputeTable(t) == t;
    assert FindColumn(t.columns, Target) == Some(0);
    r := CleanData(t);
    assert r != Err(EmptyMode) && r != Err(MissingTarget) && r != Err(TargetNotNumeric);
    assert r.Ok? by {
      if r.Err? {
        assert r == Err(r.error);
        match r.error
        case EmptyMode =>
        case MissingTarget =>
        case TargetNotNumeric =>
      }
    }
  }
}
