/**
 * The order statistics that the cleaning step asks of pandas: sorting,
 * linear-interpolation quantiles (pandas' default), the median, and the
 * mode of a column of strings. Numbers are exact reals, so every value
 * below is an exact rational computation.
 */
module Stats {

  predicate Sorted(s: seq<real>) {
    forall i, j :: 0 <= i <= j < |s| ==> s[i] <= s[j]
  }

  lemma SortedTail(s: seq<real>)
    requires Sorted(s) && s != []
    ensures Sorted(s[1..])
  {
    forall i, j | 0 <= i <= j < |s| - 1 ensures s[1..][i] <= s[1..][j] {
      assert s[1..][i] == s[i + 1] && s[1..][j] == s[j + 1];
    }
  }

  lemma SortedCons(y: real, r: seq<real>)
    requires Sorted(r) && forall k :: 0 <= k < |r| ==> y <= r[k]
    ensures Sorted([y] + r)
  {
    var u := [y] + r;
    forall i, j | 0 <= i <= j < |u| ensures u[i] <= u[j] {
      if i == 0 {
        if j > 0 { assert u[j] == r[j - 1]; }
      } else {
        assert u[i] == r[i - 1] && u[j] == r[j - 1];
      }
    }
  }

  /** A lower bound of every element of u and of x bounds every element of a rearrangement of u + [x]. */
  lemma BoundedRearrangement(y: real, x: real, u: seq<real>, r: seq<real>)
    requires multiset(r) == multiset(u) + multiset{x}
    requires y <= x && forall k :: 0 <= k < |u| ==> y <= u[k]
    ensures forall k :: 0 <= k < |r| ==> y <= r[k]
  {
    forall k | 0 <= k < |r| ensures y <= r[k] {
      assert r[k] in multiset(r);
      if r[k] != x {
        assert r[k] in multiset(u);
        var j :| 0 <= j < |u| && u[j] == r[k];
      }
    }
  }

  /** Inserts x into a sorted sequence. */
  function Insert(x: real, s: seq<real>): (r: seq<real>)
    requires Sorted(s)
    ensures Sorted(r)
    ensures |r| == |s| + 1
    ensures multiset(r) == multiset(s) + multiset{x}
  {
    if s == [] || x <= s[0] then [x] + s
    else
      SortedTail(s);
      var rest := Insert(x, s[1..]);
      BoundedRearrangement(s[0], x, s[1..], rest);
      SortedCons(s[0], rest);
      assert s == [s[0]] + s[1..];
      [s[0]] + rest
  }

  /** The ascending rearrangement of s. */
  function Sort(s: seq<real>): (r: seq<real>)
    ensures Sorted(r)
    ensures |r| == |s|
    ensures multiset(r) == multiset(s)
  {
    if s == [] then []
    else
      assert s == [s[0]] + s[1..];
      Insert(s[0], Sort(s[1..]))
  }

  /** Two sorted sequences with the same elements start with the same element. */
  lemma SortedSameHead(a: seq<real>, b: seq<real>)
    requires Sorted(a) && Sorted(b) && multiset(a) == multiset(b) && a != []
    ensures b != [] && a[0] == b[0]
  {
    assert |b| == |multiset(b)| == |a|;
    assert a[0] in multiset(b);
    assert b[0] in multiset(a);
    var i :| 0 <= i < |b| && b[i] == a[0];
    var j :| 0 <= j < |a| && a[j] == b[0];
  }

  /** Removing the same first element leaves the same elements. */
  lemma SameTailValues(a: seq<real>, b: seq<real>)
    requires a != [] && b != [] && a[0] == b[0] && multiset(a) == multiset(b)
    ensures multiset(a[1..]) == multiset(b[1..])
  {
    assert a == [a[0]] + a[1..];
    assert b == [b[0]] + b[1..];
    assert multiset(a) == multiset{a[0]} + multiset(a[1..]);
    assert multiset(b) == multiset{b[0]} + multiset(b[1..]);
    assert multiset(a[1..]) == multiset(a) - multiset{a[0]};
    assert multiset(b[1..]) == multiset(b) - multiset{b[0]};
  }

  /** Two sorted sequences with the same elements are the same sequence. */
  lemma {:induction false} SortedUnique(a: seq<real>, b: seq<real>)
    requires Sorted(a) && Sorted(b) && multiset(a) == multiset(b)
    ensures a == b
  {
    if a == [] {
      assert |b| == |multiset(b)| == 0;
    } else {
      SortedSameHead(a, b);
      SameTailValues(a, b);
      SortedTail(a);
      SortedTail(b);
      SortedUnique(a[1..], b[1..]);
      assert a == [a[0]] + a[1..];
      assert b == [b[0]] + b[1..];
    }
  }

  /** Sort depends only on the multiset of its input. */
  lemma SortIsUnique(s: seq<real>, t: seq<real>)
    requires Sorted(t) && multiset(t) == multiset(s)
    ensures Sort(s) == t
  {
    SortedUnique(Sort(s), t);
  }

  /** Every element of s lies between the least and the greatest element of Sort(s). */
  lemma SortBounds(s: seq<real>, i: nat)
    requires i < |s|
    ensures Sort(s)[0] <= s[i] <= Sort(s)[|s| - 1]
  {
    assert s[i] in multiset(Sort(s));
  }

  lemma MulNonNegative(x: real, y: real)
    requires 0.0 <= x && 0.0 <= y
    ensures 0.0 <= x * y
  {
  }

  lemma LerpBetween(a: real, b: real, f: real)
    requires a <= b && 0.0 <= f <= 1.0
    ensures a <= a + f * (b - a) <= b
  {
    MulNonNegative(f, b - a);
    MulNonNegative(1.0 - f, b - a);
  }

  lemma LerpMonotone(a: real, b: real, f: real, g: real)
    requires a <= b && f <= g
    ensures a + f * (b - a) <= a + g * (b - a)
  {
    MulNonNegative(g - f, b - a);
  }

  lemma ScaleBounds(m: real, p: real)
    requires 0.0 <= m && 0.0 <= p <= 1.0
    ensures 0.0 <= m * p <= m
  {
    MulNonNegative(m, p);
    MulNonNegative(m, 1.0 - p);
  }

  lemma ScaleMonotone(m: real, p1: real, p2: real)
    requires 0.0 <= m && p1 <= p2
    ensures m * p1 <= m * p2
  {
    MulNonNegative(m, p2 - p1);
  }

  /**
   * The value at fractional position h of a sorted sequence: position
   * j = floor(h) and j + 1 are interpolated linearly by h - j; at the last
   * position there is nothing to interpolate with.
   */
  function Interpolate(t: seq<real>, h: real): (v: real)
    requires |t| > 0 && Sorted(t) && 0.0 <= h <= (|t| - 1) as real
    ensures t[0] <= v <= t[|t| - 1]
    ensures t[h.Floor] <= v
    ensures h.Floor + 1 < |t| ==> v <= t[h.Floor + 1]
    ensures h == h.Floor as real ==> v == t[h.Floor]
  {
    var j := h.Floor;
    assert t[0] <= t[j] <= t[|t| - 1];
    if j + 1 < |t| then
      LerpBetween(t[j], t[j + 1], h - j as real);
      assert t[j + 1] <= t[|t| - 1];
      t[j] + (h - j as real) * (t[j + 1] - t[j])
    else
      t[j]
  }

  /** Between the sorted values at j and j + 1 the interpolation is linear. */
  lemma InterpolateGap(t: seq<real>, j: nat, f: real)
    requires Sorted(t) && j + 1 < |t| && 0.0 <= f < 1.0
    ensures Interpolate(t, j as real + f) == t[j] + f * (t[j + 1] - t[j])
  {
    assert (j as real + f).Floor == j;
  }

  lemma {:induction false} InterpolateMonotone(t: seq<real>, h1: real, h2: real)
    requires |t| > 0 && Sorted(t) && 0.0 <= h1 <= h2 <= (|t| - 1) as real
    ensures Interpolate(t, h1) <= Interpolate(t, h2)
  {
    var j1, j2 := h1.Floor, h2.Floor;
    if j1 == j2 {
      if j1 + 1 < |t| {
        LerpMonotone(t[j1], t[j1 + 1], h1 - j1 as real, h2 - j2 as real);
      }
    } else {
      assert j1 + 1 <= j2;
      assert Interpolate(t, h1) <= t[j1 + 1] <= t[j2] <= Interpolate(t, h2);
    }
  }

  /** The fractional position (n - 1) * p of the p-quantile among n sorted values. */
  function Position(n: nat, p: real): (h: real)
    requires n > 0 && 0.0 <= p <= 1.0
    ensures 0.0 <= h <= (n - 1) as real
  {
    ScaleBounds((n - 1) as real, p);
    (n - 1) as real * p
  }

  lemma PositionMonotone(n: nat, p1: real, p2: real)
    requires n > 0 && 0.0 <= p1 <= p2 <= 1.0
    ensures Position(n, p1) <= Position(n, p2)
  {
    ScaleMonotone((n - 1) as real, p1, p2);
  }

  /**
   * The p-quantile by linear interpolation, as pandas' Series.quantile: the
   * value at position (n - 1) * p of the sorted values.
   */
  function Quantile(s: seq<real>, p: real): (q: real)
    requires |s| > 0 && 0.0 <= p <= 1.0
    ensures Sort(s)[0] <= q <= Sort(s)[|s| - 1]
  {
    Interpolate(Sort(s), Position(|s|, p))
  }

  /** A larger p never gives a smaller quantile; in particular Q1 <= Q3. */
  lemma QuantileMonotone(s: seq<real>, p1: real, p2: real)
    requires |s| > 0 && 0.0 <= p1 <= p2 <= 1.0
    ensures Quantile(s, p1) <= Quantile(s, p2)
  {
    PositionMonotone(|s|, p1, p2);
    InterpolateMonotone(Sort(s), Position(|s|, p1), Position(|s|, p2));
  }

  /** The 0- and 1-quantiles are the least and the greatest value. */
  lemma QuantileEnds(s: seq<real>)
    requires |s| > 0
    ensures Quantile(s, 0.0) == Sort(s)[0]
    ensures Quantile(s, 1.0) == Sort(s)[|s| - 1]
  {
    assert Position(|s|, 0.0) == 0.0;
    assert Position(|s|, 1.0) == (|s| - 1) as real;
  }

  /**
   * pandas' Series.median: the middle value of the sorted values, or the
   * mean of the two middle values when there is an even number of them.
   */
  function Median(s: seq<real>): (m: real)
    requires |s| > 0
    ensures forall i :: 0 <= i < (|s| + 1) / 2 ==> Sort(s)[i] <= m
    ensures forall i :: |s| / 2 <= i < |s| ==> m <= Sort(s)[i]
  {
    MiddleSplits(Sort(s));
    Middle(Sort(s))
  }

  /** The middle element, or the mean of the two middle elements when |t| is even. */
  function Middle(t: seq<real>): real
    requires |t| > 0
  {
    var n := |t|;
    if n % 2 == 1 then t[n / 2] else (t[n / 2 - 1] + t[n / 2]) / 2.0
  }

  /** On values already in order, the median is read off directly. */
  lemma MedianOfSorted(s: seq<real>)
    requires |s| > 0 && Sorted(s)
    ensures Median(s) == Middle(s)
  {
    SortIsUnique(s, s);
  }

  /**
   * The middle value, or the mean of the two middle values, splits sorted
   * values in halves: the lower half (rounded up) is at most it and the
   * upper half is at least it.
   */
  lemma MiddleSplits(t: seq<real>)
    requires |t| > 0 && Sorted(t)
    ensures forall i :: 0 <= i < (|t| + 1) / 2 ==> t[i] <= Middle(t)
    ensures forall i :: |t| / 2 <= i < |t| ==> Middle(t) <= t[i]
  {
    var n := |t|;
    if n % 2 == 0 {
      assert t[n / 2 - 1] <= t[n / 2];
      forall i | 0 <= i < n / 2 ensures t[i] <= t[n / 2 - 1] {}
      forall i | n / 2 <= i < n ensures t[n / 2] <= t[i] {}
    }
  }

  lemma InterpolateMiddle(t: seq<real>)
    requires |t| > 0 && Sorted(t)
    ensures Interpolate(t, Position(|t|, 0.5)) == Middle(t)
  {
    var n := |t|;
    var h := Position(n, 0.5);
    var k := (n - 1) / 2;
    if n % 2 == 1 {
      assert n - 1 == 2 * k;
      assert (n - 1) as real == 2.0 * k as real;
      assert h == k as real;
      assert h.Floor == k;
    } else {
      assert n - 1 == 2 * k + 1;
      assert (n - 1) as real == 2.0 * k as real + 1.0;
      assert h == k as real + 0.5;
      assert h.Floor == k;
      assert k + 1 == n / 2;
    }
  }

  /** The median is the linear 0.5-quantile. */
  lemma MedianIsHalfQuantile(s: seq<real>)
    requires |s| > 0
    ensures Median(s) == Quantile(s, 0.5)
  {
    InterpolateMiddle(Sort(s));
  }

  /* Lexicographic order on strings by code point, as Python compares str. */

  predicate LexLe(a: string, b: string): (r: bool)
    ensures a <= b ==> r
  {
    a == [] || (b != [] && (a[0] < b[0] || (a[0] == b[0] && LexLe(a[1..], b[1..]))))
  }

  /**
   * Past a common prefix, the first differing character decides the
   * order of two strings.
   */
  lemma {:induction false} LexLeFirstDifference(a: string, b: string, k: nat)
    requires k < |a| && k < |b| && a[..k] == b[..k] && a[k] != b[k]
    ensures LexLe(a, b) <==> a[k] < b[k]
  {
    if k > 0 {
      assert a[0] == a[..k][0] == b[..k][0] == b[0];
      assert a[1..][..k - 1] == a[..k][1..] == b[..k][1..] == b[1..][..k - 1];
      LexLeFirstDifference(a[1..], b[1..], k - 1);
    }
  }

  lemma LexLeReflexive(a: string)
    ensures LexLe(a, a)
  {
  }

  lemma LexLeTotal(a: string, b: string)
    ensures LexLe(a, b) || LexLe(b, a)
  {
  }

  lemma LexLeTransitive(a: string, b: string, c: string)
    requires LexLe(a, b) && LexLe(b, c)
    ensures LexLe(a, c)
  {
  }

  lemma {:induction false} LexLeAntisymmetric(a: string, b: string)
    requires LexLe(a, b) && LexLe(b, a)
    ensures a == b
  {
    if a != [] && b != [] {
      LexLeAntisymmetric(a[1..], b[1..]);
      assert a == [a[0]] + a[1..] && b == [b[0]] + b[1..];
    }
  }

  /**
   * Among the candidates, one whose number of occurrences in vals is
   * greatest, the least such one in lexicographic order.
   */
  function LeastMostFrequent(cands: seq<string>, vals: seq<string>): (m: string)
    requires |cands| > 0
    ensures m in cands
    ensures forall v :: v in cands ==> multiset(vals)[v] <= multiset(vals)[m]
    ensures forall v :: v in cands && multiset(vals)[v] == multiset(vals)[m] ==> LexLe(m, v)
    decreases |cands|
  {
    if |cands| == 1 then
      LexLeReflexive(cands[0]);
      cands[0]
    else
      var r := LeastMostFrequent(cands[1..], vals);
      var c := cands[0];
      assert forall v :: v in cands ==> v == c || v in cands[1..];
      if multiset(vals)[c] > multiset(vals)[r] || (multiset(vals)[c] == multiset(vals)[r] && LexLe(c, r)) then
        assert forall v :: v in cands[1..] && multiset(vals)[v] == multiset(vals)[c] ==> LexLe(c, v) by {
          forall v | v in cands[1..] && multiset(vals)[v] == multiset(vals)[c]
            ensures LexLe(c, v)
          {
            LexLeTransitive(c, r, v);
          }
        }
        LexLeReflexive(c);
        c
      else
        LexLeTotal(c, r);
        r
  }

  /**
   * pandas' Series.mode()[0] on non-missing strings: a most frequent value,
   * and among equally frequent ones the least, since pandas sorts the modes.
   */
  function Mode(vals: seq<string>): (m: string)
    requires |vals| > 0
    ensures m in vals
    ensures forall v :: v in vals ==> multiset(vals)[v] <= multiset(vals)[m]
    ensures forall v :: v in vals && multiset(vals)[v] == multiset(vals)[m] ==> LexLe(m, v)
  {
    LeastMostFrequent(vals, vals)
  }

  /** The mode is determined by the three properties above. */
  lemma ModeUnique(vals: seq<string>, m: string)
    requires m in vals
    requires forall v :: v in vals ==> multiset(vals)[v] <= multiset(vals)[m]
    requires forall v :: v in vals && multiset(vals)[v] == multiset(vals)[m] ==> LexLe(m, v)
    ensures m == Mode(vals)
  {
    var r := Mode(vals);
    assert multiset(vals)[r] == multiset(vals)[m];
    LexLeAntisymmetric(m, r);
  }
}
