/**
 * The second stage of clean_data: rows whose price lies outside
 * [Q1 - 1.5 * IQR, Q3 + 1.5 * IQR] are dropped whole, where Q1 and Q3 are
 * the linear 0.25- and 0.75-quantiles of the price column and IQR = Q3 - Q1.
 * No other column is filtered.
 */
module OutlierFilter {
  import opened Tables
  import opened Stats

  datatype Bounds = Bounds(lower: real, upper: real)

  /** The IQR fences: they enclose the interquartile range [Q1, Q3]. */
  function PriceBounds(prices: seq<real>): (b: Bounds)
    requires |prices| > 0
    ensures b.lower <= Quantile(prices, 0.25) <= Quantile(prices, 0.75) <= b.upper
  {
    var q1 := Quantile(prices, 0.25);
    var q3 := Quantile(prices, 0.75);
    QuantileMonotone(prices, 0.25, 0.75);
    var iqr := q3 - q1;
    Bounds(q1 - 1.5 * iqr, q3 + 1.5 * iqr)
  }

  /** Every price cell holds a number, as after imputation of a numeric column. */
  predicate AllNumbers(cells: seq<Cell>) {
    forall i :: 0 <= i < |cells| ==> cells[i].Some? && cells[i].value.Num?
  }

  function Prices(cells: seq<Cell>): (r: seq<real>)
    requires AllNumbers(cells)
    ensures |r| == |cells|
    ensures forall i :: 0 <= i < |cells| ==> cells[i] == Some(Num(r[i]))
  {
    seq(|cells|, i requires 0 <= i < |cells| => cells[i].value.x)
  }

  /** The outlier mask: price strictly below the lower or above the upper fence. */
  function OutlierMask(prices: seq<real>, b: Bounds): (m: seq<bool>)
    ensures |m| == |prices|
    ensures forall i :: 0 <= i < |prices| ==> (m[i] <==> !(b.lower <= prices[i] <= b.upper))
  {
    seq(|prices|, i requires 0 <= i < |prices| => prices[i] < b.lower || prices[i] > b.upper)
  }

  /** The keep mask: price within both fences, the complement of the outlier mask. */
  function KeepMask(prices: seq<real>, b: Bounds): (m: seq<bool>)
    ensures |m| == |prices|
    ensures forall i :: 0 <= i < |prices| ==> (m[i] <==> !OutlierMask(prices, b)[i])
  {
    seq(|prices|, i requires 0 <= i < |prices| => prices[i] >= b.lower && prices[i] <= b.upper)
  }

  /** t is a valid table whose column p is a fully numeric price column. */
  predicate Filterable(t: Table, p: nat) {
    Valid(t) && p < |t.columns| && t.columns[p].kind == Numeric && AllNumbers(t.columns[p].cells)
  }

  /** The fences computed from all prices of t (which has at least one row). */
  function TableBounds(t: Table, p: nat): Bounds
    requires Filterable(t, p) && Height(t) > 0
  {
    PriceBounds(Prices(t.columns[p].cells))
  }

  /** Row i's price lies within the fences. */
  predicate InBounds(t: Table, p: nat, i: nat)
    requires Filterable(t, p) && i < Height(t)
  {
    var b := TableBounds(t, p);
    var price := Prices(t.columns[p].cells)[i];
    b.lower <= price <= b.upper
  }

  /**
   * The price filter. A table without rows is returned as it is (pandas'
   * quantiles of no values are NaN, and no row compares as an outlier);
   * a table without outliers is returned as it is; otherwise exactly the
   * rows within the fences are kept.
   */
  function RemoveOutliers(t: Table, p: nat): (r: Table)
    requires Filterable(t, p)
    ensures Valid(r) && SameSchema(t, r)
    ensures Height(r) <= Height(t)
  {
    if Height(t) == 0 then
      t
    else
      var prices := Prices(t.columns[p].cells);
      var b := PriceBounds(prices);
      if true !in OutlierMask(prices, b) then t
      else FilterRows(t, KeepMask(prices, b))
  }

  /** The indices of the rows within the fences, in increasing order. */
  function Survivors(t: Table, p: nat): (r: seq<nat>)
    requires Filterable(t, p)
    ensures forall k :: 0 <= k < |r| ==> r[k] < Height(t)
    ensures forall k, l :: 0 <= k < l < |r| ==> r[k] < r[l]
  {
    if Height(t) == 0 then []
    else Kept(KeepMask(Prices(t.columns[p].cells), TableBounds(t, p)))
  }

  /**
   * The number of rows whose price is strictly outside the fences: the
   * rows that do not survive.
   */
  function OutlierCount(t: Table, p: nat): (r: nat)
    requires Filterable(t, p)
    ensures r + |Survivors(t, p)| == Height(t)
  {
    if Height(t) == 0 then 0
    else
      var prices := Prices(t.columns[p].cells);
      var b := TableBounds(t, p);
      KeptComplement(KeepMask(prices, b), OutlierMask(prices, b));
      |Kept(OutlierMask(prices, b))|
  }

  /** A row is among the survivors exactly when its price is within the fences. */
  lemma SurvivorsInBounds(t: Table, p: nat)
    requires Filterable(t, p)
    ensures forall i :: 0 <= i < Height(t) ==> (i in Survivors(t, p) <==> InBounds(t, p, i))
  {
    if Height(t) > 0 {
      var prices := Prices(t.columns[p].cells);
      var b := TableBounds(t, p);
      var keep := KeepMask(prices, b);
      KeptExactly(keep);
      forall i | 0 <= i < Height(t) ensures keep[i] <==> InBounds(t, p, i) {
        assert keep[i] <==> b.lower <= prices[i] <= b.upper;
      }
    }
  }

  /** An index is among the kept ones exactly when the mask selects it. */
  lemma KeptExactly(keep: seq<bool>)
    ensures forall i :: 0 <= i < |keep| ==> (i in Kept(keep) <==> keep[i])
  {
    forall i | 0 <= i < |keep| && i in Kept(keep) ensures keep[i] {
      var k :| 0 <= k < |Kept(keep)| && Kept(keep)[k] == i;
    }
  }

  /** Without outliers the keep mask selects every row. */
  lemma NoOutliersKeepsAll(prices: seq<real>, b: Bounds)
    requires true !in OutlierMask(prices, b)
    ensures Kept(KeepMask(prices, b)) == seq(|prices|, i => i)
  {
    var keep := KeepMask(prices, b);
    assert forall i :: 0 <= i < |keep| ==> keep[i] by {
      forall i | 0 <= i < |keep| ensures keep[i] {
        assert !OutlierMask(prices, b)[i];
      }
    }
    KeptAll(keep);
  }

  /**
   * The filter keeps a row exactly when its price is within the fences,
   * and the kept rows appear whole and in their original order.
   */
  lemma RemoveOutliersRows(t: Table, p: nat)
    requires Filterable(t, p)
    ensures forall i :: 0 <= i < Height(t) ==> (i in Survivors(t, p) <==> InBounds(t, p, i))
    ensures forall k, l :: 0 <= k < l < |Survivors(t, p)| ==> Survivors(t, p)[k] < Survivors(t, p)[l]
    ensures Height(RemoveOutliers(t, p)) == |Survivors(t, p)|
    ensures forall k :: 0 <= k < |Survivors(t, p)| ==>
      Survivors(t, p)[k] < Height(t) && Row(RemoveOutliers(t, p), k) == Row(t, Survivors(t, p)[k])
  {
    SurvivorsInBounds(t, p);
    SurvivorRows(t, p);
  }

  /** The rows of the result are the surviving rows of t, in order. */
  lemma SurvivorRows(t: Table, p: nat)
    requires Filterable(t, p)
    ensures Height(RemoveOutliers(t, p)) == |Survivors(t, p)|
    ensures forall k :: 0 <= k < |Survivors(t, p)| ==>
      Survivors(t, p)[k] < Height(t) && Row(RemoveOutliers(t, p), k) == Row(t, Survivors(t, p)[k])
  {
    if Height(t) > 0 {
      var prices := Prices(t.columns[p].cells);
      var b := PriceBounds(prices);
      var keep := KeepMask(prices, b);
      assert Survivors(t, p) == Kept(keep);
      if true !in OutlierMask(prices, b) {
        assert RemoveOutliers(t, p) == t;
        NoOutliersKeepsAll(prices, b);
      } else {
        assert RemoveOutliers(t, p) == FilterRows(t, keep);
        FilterRowsRows(t, keep);
      }
    }
  }

  /** Every row of the result has its price within the fences. */
  lemma OutputWithinBounds(t: Table, p: nat)
    requires Filterable(t, p) && Height(t) > 0
    ensures Filterable(RemoveOutliers(t, p), p)
    ensures forall k :: 0 <= k < Height(RemoveOutliers(t, p)) ==>
      TableBounds(t, p).lower <= Prices(RemoveOutliers(t, p).columns[p].cells)[k] <= TableBounds(t, p).upper
  {
    var r := RemoveOutliers(t, p);
    var s := Survivors(t, p);
    RemoveOutliersRows(t, p);
    assert forall k :: 0 <= k < Height(r) ==> s[k] < Height(t) && r.columns[p].cells[k] == t.columns[p].cells[s[k]] by {
      forall k | 0 <= k < Height(r)
        ensures s[k] < Height(t) && r.columns[p].cells[k] == t.columns[p].cells[s[k]]
      {
        assert Row(r, k)[p] == Row(t, s[k])[p];
      }
    }
    assert AllNumbers(r.columns[p].cells);
    forall k | 0 <= k < Height(r)
      ensures TableBounds(t, p).lower <= Prices(r.columns[p].cells)[k] <= TableBounds(t, p).upper
    {
      assert s[k] in s;
      assert InBounds(t, p, s[k]);
    }
  }

  /** Row accounting: the rows removed are exactly the outliers. */
  lemma RowAccounting(t: Table, p: nat)
    requires Filterable(t, p)
    ensures Height(RemoveOutliers(t, p)) == Height(t) - OutlierCount(t, p)
  {
    RemoveOutliersRows(t, p);
  }

  /** The table comes back unchanged exactly when it has no outliers. */
  lemma UnchangedIffNoOutliers(t: Table, p: nat)
    requires Filterable(t, p)
    ensures RemoveOutliers(t, p) == t <==> OutlierCount(t, p) == 0
  {
    RowAccounting(t, p);
  }

  /** A row whose price lies in [Q1, Q3] is never removed. */
  lemma InterquartileKept(t: Table, p: nat, i: nat)
    requires Filterable(t, p) && i < Height(t)
    requires var prices := Prices(t.columns[p].cells);
      Quantile(prices, 0.25) <= prices[i] <= Quantile(prices, 0.75)
    ensures i in Survivors(t, p)
  {
    RemoveOutliersRows(t, p);
  }

  /** For two sorted values, Q1 - 1.5 * (Q3 - Q1) lies below the smaller. */
  lemma TwoSortedLower(t: seq<real>)
    requires |t| == 2 && Sorted(t)
    ensures Interpolate(t, 0.25) - 1.5 * (Interpolate(t, 0.75) - Interpolate(t, 0.25)) <= t[0]
  {
    var d := t[1] - t[0];
    assert 0.0 <= d;
    InterpolateGap(t, 0, 0.25);
    InterpolateGap(t, 0, 0.75);
  }

  /** With two prices the lower fence lies below the smaller one. */
  lemma TwoPricesLower(prices: seq<real>)
    requires |prices| == 2
    ensures PriceBounds(prices).lower <= Sort(prices)[0]
  {
    var t := Sort(prices);
    assert Quantile(prices, 0.25) == Interpolate(t, 0.25) by { assert Position(2, 0.25) == 0.25; }
    assert Quantile(prices, 0.75) == Interpolate(t, 0.75) by { assert Position(2, 0.75) == 0.75; }
    TwoSortedLower(t);
  }

  /**
   * With three or more sorted values the position of Q3 is at least one
   * past that of Q1, so the value at Q3's position, rounded down, is at
   * least Q1 and hence above Q1 - 1.5 * (Q3 - Q1).
   */
  lemma ManySortedLower(t: seq<real>)
    requires |t| >= 3 && Sorted(t)
    ensures var q1, q3 := Interpolate(t, Position(|t|, 0.25)), Interpolate(t, Position(|t|, 0.75));
      q1 - 1.5 * (q3 - q1) <= t[Position(|t|, 0.75).Floor]
  {
    var n := |t|;
    var m := (n - 1) as real;
    var h1, h3 := Position(n, 0.25), Position(n, 0.75);
    assert h1 == m * 0.25 && h3 == m * 0.75;
    assert h3 >= h1 + 1.0;
    assert h1.Floor + 1 <= h3.Floor;
    assert t[h1.Floor + 1] <= t[h3.Floor];
    InterpolateMonotone(t, h1, h3);
  }

  lemma ManyPricesLower(prices: seq<real>)
    requires |prices| >= 3
    ensures PriceBounds(prices).lower <= Sort(prices)[Position(|prices|, 0.75).Floor]
  {
    ManySortedLower(Sort(prices));
  }

  /**
   * Some price lies within the fences: the sorted price at the position
   * of Q3, rounded down.
   */
  lemma SomePriceInBounds(prices: seq<real>)
    requires |prices| > 0
    ensures exists i ::
      (0 <= i < |prices| && PriceBounds(prices).lower <= prices[i] <= PriceBounds(prices).upper)
  {
    var n := |prices|;
    var t := Sort(prices);
    var b := PriceBounds(prices);
    var j3 := Position(n, 0.75).Floor;
    assert t[j3] <= Quantile(prices, 0.75) <= b.upper;
    LowerFenceBelow(prices);
    assert t[j3] in multiset(prices);
    var i :| 0 <= i < n && prices[i] == t[j3];
  }

  /** The lower fence lies below the sorted price at the position of Q3, rounded down. */
  lemma LowerFenceBelow(prices: seq<real>)
    requires |prices| > 0
    ensures PriceBounds(prices).lower <= Sort(prices)[Position(|prices|, 0.75).Floor]
  {
    var n := |prices|;
    if n == 1 {
      assert Position(1, 0.75) == 0.0 && Position(1, 0.25) == 0.0;
    } else if n == 2 {
      TwoPricesLower(prices);
      assert Position(2, 0.75) == 0.75;
    } else {
      ManyPricesLower(prices);
    }
  }

  /** A table with at least one row never loses all of its rows. */
  lemma NonEmptyStaysNonEmpty(t: Table, p: nat)
    requires Filterable(t, p) && Height(t) > 0
    ensures Height(RemoveOutliers(t, p)) > 0
  {
    var prices := Prices(t.columns[p].cells);
    SomePriceInBounds(prices);
    var i :| 0 <= i < |prices| && PriceBounds(prices).lower <= prices[i] <= PriceBounds(prices).upper;
    assert InBounds(t, p, i);
    RemoveOutliersRows(t, p);
    assert i in Survivors(t, p);
  }
}
