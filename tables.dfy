/**
 * The dataset as the cleaning step sees it: an ordered sequence of named
 * columns, each holding one cell per row. A cell is either missing (pandas'
 * NaN/None) or a value. Each column carries a fixed kind tag, numeric or
 * categorical, in place of pandas' dtype.
 */
module Tables {

  datatype Option<T> = None | Some(value: T)

  datatype Kind = Numeric | Categorical

  datatype Value = Num(x: real) | Text(s: string)

  type Cell = Option<Value>

  datatype Column = Column(name: string, kind: Kind, cells: seq<Cell>)

  datatype Table = Table(columns: seq<Column>)

  /** Every present cell agrees with the column's kind. */
  predicate WellKinded(c: Column) {
    forall i :: 0 <= i < |c.cells| && c.cells[i].Some? ==>
      (c.cells[i].value.Num? <==> c.kind == Numeric)
  }

  /** The number of rows: the length of the first column (a table without columns has none). */
  function Height(t: Table): nat {
    if t.columns == [] then 0 else |t.columns[0].cells|
  }

  predicate Valid(t: Table) {
    && (forall c :: 0 <= c < |t.columns| ==> |t.columns[c].cells| == Height(t))
    && (forall c :: 0 <= c < |t.columns| ==> WellKinded(t.columns[c]))
    && (forall c, d :: 0 <= c < d < |t.columns| ==> t.columns[c].name != t.columns[d].name)
  }

  /** The i-th row: one cell per column, in column order. */
  function Row(t: Table, i: nat): (r: seq<Cell>)
    requires Valid(t) && i < Height(t)
    ensures |r| == |t.columns|
    ensures forall c :: 0 <= c < |r| ==> r[c] == t.columns[c].cells[i]
  {
    seq(|t.columns|, c requires 0 <= c < |t.columns| => t.columns[c].cells[i])
  }

  predicate NoMissing(cells: seq<Cell>) {
    forall i :: 0 <= i < |cells| ==> cells[i].Some?
  }

  /** Same columns, in the same order, with the same names and kinds. */
  predicate SameSchema(t: Table, u: Table) {
    && |t.columns| == |u.columns|
    && forall c :: 0 <= c < |t.columns| ==>
         t.columns[c].name == u.columns[c].name && t.columns[c].kind == u.columns[c].kind
  }

  /** The non-missing numbers of a column, in row order. */
  function Numbers(cells: seq<Cell>): (r: seq<real>)
    ensures |r| <= |cells|
    ensures forall x :: x in r <==> exists i :: 0 <= i < |cells| && cells[i] == Some(Num(x))
  {
    if cells == [] then []
    else
      var rest := Numbers(cells[1..]);
      assert forall x :: (exists i :: 0 <= i < |cells| && cells[i] == Some(Num(x))) <==>
        (cells[0] == Some(Num(x)) || exists i :: 0 <= i < |cells| - 1 && cells[1..][i] == Some(Num(x)));
      match cells[0]
      case Some(Num(x)) => [x] + rest
      case _ => rest
  }

  /** The non-missing strings of a column, in row order. */
  function Texts(cells: seq<Cell>): (r: seq<string>)
    ensures |r| <= |cells|
    ensures forall v :: v in r <==> exists i :: 0 <= i < |cells| && cells[i] == Some(Text(v))
  {
    if cells == [] then []
    else
      var rest := Texts(cells[1..]);
      assert forall v :: (exists i :: 0 <= i < |cells| && cells[i] == Some(Text(v))) <==>
        (cells[0] == Some(Text(v)) || exists i :: 0 <= i < |cells| - 1 && cells[1..][i] == Some(Text(v)));
      match cells[0]
      case Some(Text(v)) => [v] + rest
      case _ => rest
  }

  /** A number occurs in Numbers(cells) exactly as often as the cells hold it. */
  lemma {:induction false} NumbersCount(cells: seq<Cell>, x: real)
    ensures multiset(Numbers(cells))[x] == multiset(cells)[Some(Num(x))]
  {
    if cells != [] {
      var rest := cells[1..];
      NumbersCount(rest, x);
      assert cells == [cells[0]] + rest;
      assert multiset(cells)[Some(Num(x))] == multiset{cells[0]}[Some(Num(x))] + multiset(rest)[Some(Num(x))];
      if cells[0].Some? && cells[0].value.Num? {
        var y := cells[0].value.x;
        assert Numbers(cells) == [y] + Numbers(rest);
        assert multiset(Numbers(cells))[x] == multiset{y}[x] + multiset(Numbers(rest))[x];
      } else {
        assert Numbers(cells) == Numbers(rest);
      }
    }
  }

  /** A string occurs in Texts(cells) exactly as often as the cells hold it. */
  lemma {:induction false} TextsCount(cells: seq<Cell>, v: string)
    ensures multiset(Texts(cells))[v] == multiset(cells)[Some(Text(v))]
  {
    if cells != [] {
      TextsCount(cells[1..], v);
      assert cells == [cells[0]] + cells[1..];
      assert multiset(cells) == multiset{cells[0]} + multiset(cells[1..]);
      match cells[0]
      case Some(Text(w)) =>
        assert Texts(cells) == [w] + Texts(cells[1..]);
        assert multiset(Texts(cells)) == multiset{w} + multiset(Texts(cells[1..]));
      case _ =>
        assert Texts(cells) == Texts(cells[1..]);
    }
  }

  /** pandas' fillna(v): every missing cell becomes v, every other cell stays. */
  function FillNa(cells: seq<Cell>, v: Value): (r: seq<Cell>)
    ensures |r| == |cells|
    ensures forall i :: 0 <= i < |cells| && cells[i].None? ==> r[i] == Some(v)
    ensures forall i :: 0 <= i < |cells| && cells[i].Some? ==> r[i] == cells[i]
  {
    if cells == [] then []
    else [if cells[0].None? then Some(v) else cells[0]] + FillNa(cells[1..], v)
  }

  /**
   * The indices i with keep[i], in increasing order: the rows that a
   * boolean mask selects.
   */
  function Kept(keep: seq<bool>): (r: seq<nat>)
    ensures |r| <= |keep|
    ensures forall k :: 0 <= k < |r| ==> r[k] < |keep| && keep[r[k]]
    ensures forall k, l :: 0 <= k < l < |r| ==> r[k] < r[l]
    ensures forall i :: 0 <= i < |keep| && keep[i] ==> i in r
  {
    if keep == [] then []
    else
      var n := |keep| - 1;
      var front := Kept(keep[..n]);
      assert forall i :: 0 <= i < n ==> keep[..n][i] == keep[i];
      front + (if keep[n] then [n] else [])
  }

  /** The number of selected rows plus the number of unselected rows is the number of rows. */
  lemma {:induction false} KeptComplement(keep: seq<bool>, drop: seq<bool>)
    requires |keep| == |drop|
    requires forall i :: 0 <= i < |keep| ==> keep[i] == !drop[i]
    ensures |Kept(keep)| + |Kept(drop)| == |keep|
  {
    if keep != [] {
      var n := |keep| - 1;
      KeptComplement(keep[..n], drop[..n]);
      assert |Kept(keep)| == |Kept(keep[..n])| + (if keep[n] then 1 else 0);
      assert |Kept(drop)| == |Kept(drop[..n])| + (if drop[n] then 1 else 0);
    }
  }

  /** A mask that selects every row selects the rows in order. */
  lemma {:induction false} KeptAll(keep: seq<bool>)
    requires forall i :: 0 <= i < |keep| ==> keep[i]
    ensures Kept(keep) == seq(|keep|, i => i)
  {
    if keep != [] {
      KeptAll(keep[..|keep| - 1]);
    }
  }

  /** pandas' boolean indexing s[keep]: the selected elements, in order. */
  function Select<T>(s: seq<T>, keep: seq<bool>): (r: seq<T>)
    requires |s| == |keep|
    ensures |r| == |Kept(keep)|
    ensures forall k :: 0 <= k < |r| ==> r[k] == s[Kept(keep)[k]]
  {
    if s == [] then []
    else
      var n := |s| - 1;
      var front := Select(s[..n], keep[..n]);
      assert forall k :: 0 <= k < |front| ==> front[k] == s[Kept(keep)[k]];
      front + (if keep[n] then [s[n]] else [])
  }

  /** One column restricted to the rows that keep selects. */
  function SelectColumn(c: Column, keep: seq<bool>): (r: Column)
    requires |c.cells| == |keep|
    ensures r.name == c.name && r.kind == c.kind
    ensures |r.cells| == |Kept(keep)|
    ensures forall k :: 0 <= k < |r.cells| ==> r.cells[k] == c.cells[Kept(keep)[k]]
    ensures WellKinded(c) ==> WellKinded(r)
  {
    c.(cells := Select(c.cells, keep))
  }

  /** The rows of t that keep selects, in order, with every column kept. */
  function FilterRows(t: Table, keep: seq<bool>): (r: Table)
    requires Valid(t) && |keep| == Height(t)
    ensures Valid(r) && SameSchema(t, r)
    ensures Height(r) == |Kept(keep)|
    ensures forall c, k :: 0 <= c < |r.columns| && 0 <= k < Height(r) ==>
      r.columns[c].cells[k] == t.columns[c].cells[Kept(keep)[k]]
  {
    Table(seq(|t.columns|, c requires 0 <= c < |t.columns| => SelectColumn(t.columns[c], keep)))
  }

  /** The k-th row of the filtered table is the k-th selected row of t. */
  lemma FilterRowsRows(t: Table, keep: seq<bool>)
    requires Valid(t) && |keep| == Height(t)
    ensures forall k :: 0 <= k < Height(FilterRows(t, keep)) ==>
      Kept(keep)[k] < Height(t) && Row(FilterRows(t, keep), k) == Row(t, Kept(keep)[k])
  {
    var r := FilterRows(t, keep);
    forall k | 0 <= k < Height(r)
      ensures Kept(keep)[k] < Height(t) && Row(r, k) == Row(t, Kept(keep)[k])
    {
      assert Row(r, k) == Row(t, Kept(keep)[k]);
    }
  }
}
