/** The group-sum-reindex pipeline the reports share: records tagged by a
    key (an employee, a project, a budget) and a column (a month or a
    project) are summed per (key, column); each key then yields one row
    whose cells line up one to one with a caller-supplied column list, with
    zeros where the key has no record in that column.  Optionally a total
    row sums every key per column, or a total cell sums every column of a key. */
module Aggregation {

  /** The two measures a record carries (load and volume, or hours and load). */
  datatype Cell = Cell(a: real, b: real)

  const Zero := Cell(0.0, 0.0)

  function Plus(x: Cell, y: Cell): Cell {
    Cell(x.a + y.a, x.b + y.b)
  }

  datatype Fact<K, C> = Fact(key: K, col: C, cell: Cell)

  /** One output row: the key and its cells, aligned with the column list. */
  datatype Row<K> = Row(key: K, cells: seq<Cell>)

  predicate Distinct<T(==)>(s: seq<T>) {
    forall i, j :: 0 <= i < j < |s| ==> s[i] != s[j]
  }

  predicate HasKey<K(==), C>(facts: seq<Fact<K, C>>, k: K) {
    exists i :: 0 <= i < |facts| && facts[i].key == k
  }

  predicate HasCol<K, C(==)>(facts: seq<Fact<K, C>>, c: C) {
    exists i :: 0 <= i < |facts| && facts[i].col == c
  }

  /** groupby([key, col]).sum() at (k, c): the measures of the records of key k in column c. */
  function CellSum<K(==), C(==)>(facts: seq<Fact<K, C>>, k: K, c: C): Cell {
    if |facts| == 0 then Zero
    else
      var f := facts[|facts| - 1];
      var rest := CellSum(facts[..|facts| - 1], k, c);
      if f.key == k && f.col == c then Plus(rest, f.cell) else rest
  }

  /** The measures of all records of key k, whatever their column. */
  function KeySum<K(==), C>(facts: seq<Fact<K, C>>, k: K): Cell {
    if |facts| == 0 then Zero
    else
      var f := facts[|facts| - 1];
      var rest := KeySum(facts[..|facts| - 1], k);
      if f.key == k then Plus(rest, f.cell) else rest
  }

  /** The measures of all records in column c, whatever their key. */
  function ColSum<K, C(==)>(facts: seq<Fact<K, C>>, c: C): Cell {
    if |facts| == 0 then Zero
    else
      var f := facts[|facts| - 1];
      var rest := ColSum(facts[..|facts| - 1], c);
      if f.col == c then Plus(rest, f.cell) else rest
  }

  /** The distinct keys of the records, each once, in order of first appearance. */
  function Keys<K(==), C>(facts: seq<Fact<K, C>>): seq<K> {
    if |facts| == 0 then []
    else
      var ks := Keys(facts[..|facts| - 1]);
      if facts[|facts| - 1].key in ks then ks else ks + [facts[|facts| - 1].key]
  }

  /** reindex(cols, fill_value=0) of one key's groups. */
  function Reindex<K(==), C(==)>(facts: seq<Fact<K, C>>, k: K, cols: seq<C>): (cells: seq<Cell>)
    ensures |cells| == |cols|
  {
    seq(|cols|, i requires 0 <= i < |cols| => CellSum(facts, k, cols[i]))
  }

  /** One row per key in ks. */
  function RowsFor<K(==), C(==)>(facts: seq<Fact<K, C>>, ks: seq<K>, cols: seq<C>): (rows: seq<Row<K>>)
    ensures |rows| == |ks|
  {
    seq(|ks|, j requires 0 <= j < |ks| => Row(ks[j], Reindex(facts, ks[j], cols)))
  }

  /** The whole pipeline: [] for an empty frame, else one row per key. */
  function Summary<K(==), C(==)>(facts: seq<Fact<K, C>>, cols: seq<C>): seq<Row<K>> {
    if |facts| == 0 then [] else RowsFor(facts, Keys(facts), cols)
  }

  /** The total row: groupby(col).sum().reindex(cols, fill_value=0). */
  function Totals<K, C(==)>(facts: seq<Fact<K, C>>, cols: seq<C>): (cells: seq<Cell>)
    ensures |cells| == |cols|
  {
    seq(|cols|, i requires 0 <= i < |cols| => ColSum(facts, cols[i]))
  }

  /** The sum of a list of cells. */
  function SumCells(cs: seq<Cell>): Cell {
    if |cs| == 0 then Zero else Plus(SumCells(cs[..|cs| - 1]), cs[|cs| - 1])
  }

  /** Cell i of every row, added up. */
  function SumColumn<K>(rows: seq<Row<K>>, i: nat): Cell
    requires forall j :: 0 <= j < |rows| ==> i < |rows[j].cells|
  {
    if |rows| == 0 then Zero else Plus(SumColumn(rows[..|rows| - 1], i), rows[|rows| - 1].cells[i])
  }

  // ---------------------------------------------------------------------------
  // Keys

  /** Keys lists every key of the records, each exactly once, and nothing else. */
  lemma {:induction false} KeysSpec<K, C>(facts: seq<Fact<K, C>>)
    ensures Distinct(Keys(facts))
    ensures forall k :: k in Keys(facts) <==> HasKey(facts, k)
  {
    if |facts| > 0 {
      var p := facts[..|facts| - 1];
      var f := facts[|facts| - 1];
      KeysSpec(p);
      forall k
        ensures HasKey(facts, k) <==> HasKey(p, k) || f.key == k
      {
        if HasKey(p, k) {
          var i :| 0 <= i < |p| && p[i].key == k;
          assert facts[i] == p[i];
        }
        if HasKey(facts, k) && f.key != k {
          var i :| 0 <= i < |facts| && facts[i].key == k;
          assert p[i] == facts[i];
        }
      }
    }
  }

  // ---------------------------------------------------------------------------
  // Zero fill

  /** A (key, column) pair without records sums to zero: the fill value. */
  lemma {:induction false} CellSumZero<K, C>(facts: seq<Fact<K, C>>, k: K, c: C)
    requires forall i :: 0 <= i < |facts| ==> !(facts[i].key == k && facts[i].col == c)
    ensures CellSum(facts, k, c) == Zero
  {
    if |facts| > 0 {
      var p := facts[..|facts| - 1];
      assert forall i :: 0 <= i < |p| ==> p[i] == facts[i];
      CellSumZero(p, k, c);
    }
  }

  /** A record counts in its own (key, column) cell and in no other. */
  lemma CellSumAppend<K, C>(facts: seq<Fact<K, C>>, f: Fact<K, C>, k: K, c: C)
    ensures CellSum(facts + [f], k, c) ==
      if f.key == k && f.col == c then Plus(CellSum(facts, k, c), f.cell) else CellSum(facts, k, c)
  {
    assert (facts + [f])[..|facts|] == facts;
  }

  /** The output of the pipeline: no rows for no records; otherwise one row
      per distinct key, every key of the records has its row, and each
      row's cell i holds the sums of that key's records in column cols[i]. */
  lemma SummaryShape<K, C>(facts: seq<Fact<K, C>>, cols: seq<C>)
    ensures |facts| == 0 ==> Summary(facts, cols) == []
    ensures forall j, j' :: 0 <= j < j' < |Summary(facts, cols)| ==> Summary(facts, cols)[j].key != Summary(facts, cols)[j'].key
    ensures forall k :: HasKey(facts, k) <==> exists j :: 0 <= j < |Summary(facts, cols)| && Summary(facts, cols)[j].key == k
    ensures forall j :: 0 <= j < |Summary(facts, cols)| ==>
      |Summary(facts, cols)[j].cells| == |cols| &&
      forall i :: 0 <= i < |cols| ==> Summary(facts, cols)[j].cells[i] == CellSum(facts, Summary(facts, cols)[j].key, cols[i])
  {
    KeysSpec(facts);
    var rows := Summary(facts, cols);
    if |facts| > 0 {
      var ks := Keys(facts);
      assert forall j :: 0 <= j < |rows| ==> rows[j].key == ks[j];
      forall k | HasKey(facts, k)
        ensures exists j :: 0 <= j < |rows| && rows[j].key == k
      {
        var j :| 0 <= j < |ks| && ks[j] == k;
        assert rows[j].key == k;
      }
    } else {
      forall k
        ensures !HasKey(facts, k)
      {
      }
    }
  }

  /** Records in a column outside the list reach no output cell: adding one
      for a key that already has records leaves every row unchanged. */
  lemma OutsideColumnIgnored<K, C>(facts: seq<Fact<K, C>>, f: Fact<K, C>, cols: seq<C>)
    requires f.col !in cols && f.key in Keys(facts)
    ensures Summary(facts + [f], cols) == Summary(facts, cols)
  {
    var g := facts + [f];
    assert g[..|g| - 1] == facts;
    assert Keys(g) == Keys(facts);
    forall k, i | 0 <= i < |cols|
      ensures CellSum(g, k, cols[i]) == CellSum(facts, k, cols[i])
    {
      CellSumAppend(facts, f, k, cols[i]);
    }
    assert |facts| > 0;
    var ks := Keys(facts);
    forall j | 0 <= j < |ks|
      ensures RowsFor(g, ks, cols)[j] == RowsFor(facts, ks, cols)[j]
    {
      assert Reindex(g, ks[j], cols) == Reindex(facts, ks[j], cols);
    }
  }

  // ---------------------------------------------------------------------------
  // Partition: the total row is the sum of the rows

  /** The sum over a list of keys of their cells in column c. */
  function SumOverKeys<K(==), C(==)>(facts: seq<Fact<K, C>>, ks: seq<K>, c: C): Cell {
    if |ks| == 0 then Zero else Plus(SumOverKeys(facts, ks[..|ks| - 1], c), CellSum(facts, ks[|ks| - 1], c))
  }

  /** Adding a record adds its measures to the key sum once, when its key is
      one of the (distinct) keys and its column is c. */
  lemma {:induction false} SumOverKeysAppend<K, C>(facts: seq<Fact<K, C>>, f: Fact<K, C>, ks: seq<K>, c: C)
    requires Distinct(ks)
    ensures SumOverKeys(facts + [f], ks, c) ==
      if f.col == c && f.key in ks then Plus(SumOverKeys(facts, ks, c), f.cell) else SumOverKeys(facts, ks, c)
  {
    if |ks| > 0 {
      var q := ks[..|ks| - 1];
      var k := ks[|ks| - 1];
      assert ks == q + [k];
      assert Distinct(q);
      assert f.key in ks <==> f.key in q || f.key == k;
      assert f.key == k ==> f.key !in q;
      SumOverKeysAppend(facts, f, q, c);
      CellSumAppend(facts, f, k, c);
    }
  }

  /** Summed over distinct keys that cover every record, the cells of a
      column add up to the column's total: the groups partition the records. */
  lemma {:induction false} KeysPartitionColumn<K, C>(facts: seq<Fact<K, C>>, ks: seq<K>, c: C)
    requires Distinct(ks)
    requires forall i :: 0 <= i < |facts| ==> facts[i].key in ks
    ensures SumOverKeys(facts, ks, c) == ColSum(facts, c)
  {
    if |facts| == 0 {
      SumOverKeysEmpty(facts, ks, c);
    } else {
      var p := facts[..|facts| - 1];
      var f := facts[|facts| - 1];
      assert facts == p + [f];
      assert forall i :: 0 <= i < |p| ==> p[i] == facts[i];
      KeysPartitionColumn(p, ks, c);
      SumOverKeysAppend(p, f, ks, c);
    }
  }

  lemma {:induction false} SumOverKeysEmpty<K, C>(facts: seq<Fact<K, C>>, ks: seq<K>, c: C)
    requires |facts| == 0
    ensures SumOverKeys(facts, ks, c) == Zero
  {
    if |ks| > 0 {
      SumOverKeysEmpty(facts, ks[..|ks| - 1], c);
    }
  }

  /** Column i of the rows for keys ks adds up the keys' cells in column cols[i]. */
  lemma {:induction false} SumColumnOfRows<K, C>(facts: seq<Fact<K, C>>, ks: seq<K>, cols: seq<C>, i: nat)
    requires i < |cols|
    ensures SumColumn(RowsFor(facts, ks, cols), i) == SumOverKeys(facts, ks, cols[i])
  {
    if |ks| > 0 {
      var q := ks[..|ks| - 1];
      var rows := RowsFor(facts, ks, cols);
      assert rows[..|rows| - 1] == RowsFor(facts, q, cols);
      SumColumnOfRows(facts, q, cols, i);
    }
  }

  /** The total row is the column-wise sum of the key rows: entry i of the
      totals equals the sum over all rows of their entry i. */
  lemma TotalsAreRowSums<K, C>(facts: seq<Fact<K, C>>, cols: seq<C>, i: nat)
    requires i < |cols|
    ensures forall j :: 0 <= j < |Summary(facts, cols)| ==> i < |Summary(facts, cols)[j].cells|
    ensures Totals(facts, cols)[i] == SumColumn(Summary(facts, cols), i)
  {
    if |facts| == 0 {
      assert ColSum(facts, cols[i]) == Zero;
    } else {
      KeysCover(facts);
      KeysPartitionColumn(facts, Keys(facts), cols[i]);
      SumColumnOfRows(facts, Keys(facts), cols, i);
    }
  }

  /** TotalsAreRowSums for every column at once. */
  lemma TotalRowAddsUp<K, C>(facts: seq<Fact<K, C>>, cols: seq<C>)
    ensures forall j :: 0 <= j < |Summary(facts, cols)| ==> |Summary(facts, cols)[j].cells| == |cols|
    ensures forall i :: 0 <= i < |cols| ==> Totals(facts, cols)[i] == SumColumn(Summary(facts, cols), i)
  {
    SummaryShape(facts, cols);
    forall i | 0 <= i < |cols|
      ensures Totals(facts, cols)[i] == SumColumn(Summary(facts, cols), i)
    {
      TotalsAreRowSums(facts, cols, i);
    }
  }

  /** Record i of g is record i of f, with the first measure scaled by s
      when the record is one of key k. */
  predicate ScaledAt<K(==), C(==)>(f: seq<Fact<K, C>>, g: seq<Fact<K, C>>, k: K, s: real, i: int)
    requires 0 <= i < |f| && |f| == |g|
  {
    && g[i].key == f[i].key
    && g[i].col == f[i].col
    && (f[i].key == k ==> g[i].cell.a == f[i].cell.a * s)
  }

  /** Sums scale with their records: when every record of key k in g is
      its counterpart in f with the first measure times s, so is each of
      k's sums. */
  lemma ScaledSums<K, C>(f: seq<Fact<K, C>>, g: seq<Fact<K, C>>, k: K, c: C, s: real)
    requires |f| == |g|
    requires forall i :: 0 <= i < |f| ==> ScaledAt(f, g, k, s, i)
    ensures ScaledBy(CellSum(f, k, c).a, CellSum(g, k, c).a, s)
  {
    ScaledColumn(f, g, k, c, s);
    ColumnScaledCells(f, g, k, c, s);
  }

  /** The same scaling read back from the column sums into the cells. */
  lemma ColumnScaledCells<K, C>(f: seq<Fact<K, C>>, g: seq<Fact<K, C>>, k: K, c: C, s: real)
    requires ScaledBy(SumReals(Column(f, k, c)), SumReals(Column(g, k, c)), s)
    ensures ScaledBy(CellSum(f, k, c).a, CellSum(g, k, c).a, s)
  {
    ColumnSum(f, k, c);
    ColumnSum(g, k, c);
  }

  /** y is x scaled by s. */
  predicate ScaledBy(x: real, y: real, s: real) {
    y == x * s
  }

  /** The first measures of key k's records in column c, with 0 for every other record. */
  function Column<K(==), C(==)>(f: seq<Fact<K, C>>, k: K, c: C): (xs: seq<real>)
    ensures |xs| == |f|
    ensures forall i :: 0 <= i < |f| ==> xs[i] == if f[i].key == k && f[i].col == c then f[i].cell.a else 0.0
  {
    seq(|f|, i requires 0 <= i < |f| => if f[i].key == k && f[i].col == c then f[i].cell.a else 0.0)
  }

  function SumReals(xs: seq<real>): real {
    if |xs| == 0 then 0.0 else SumReals(xs[..|xs| - 1]) + xs[|xs| - 1]
  }

  /** A cell's first measure is the sum of its column. */
  lemma {:induction false} ColumnSum<K, C>(f: seq<Fact<K, C>>, k: K, c: C)
    ensures SumReals(Column(f, k, c)) == CellSum(f, k, c).a
  {
    if |f| > 0 {
      var n := |f| - 1;
      assert Column(f, k, c)[..n] == Column(f[..n], k, c);
      ColumnSum(f[..n], k, c);
    }
  }

  lemma ScaledColumn<K, C>(f: seq<Fact<K, C>>, g: seq<Fact<K, C>>, k: K, c: C, s: real)
    requires |f| == |g|
    requires forall i :: 0 <= i < |f| ==> ScaledAt(f, g, k, s, i)
    ensures ScaledBy(SumReals(Column(f, k, c)), SumReals(Column(g, k, c)), s)
  {
    var xs, ys := Column(f, k, c), Column(g, k, c);
    forall i | 0 <= i < |xs|
      ensures TimesAt(xs, ys, s, i)
    {
      assert ScaledAt(f, g, k, s, i);
      ScaleZero(s);
    }
    SumScaled(xs, ys, s);
  }

  predicate TimesAt(xs: seq<real>, ys: seq<real>, s: real, i: int)
    requires 0 <= i < |xs| && |xs| == |ys|
  {
    ys[i] == xs[i] * s
  }

  /** Scaling every term scales the sum. */
  lemma {:induction false} SumScaled(xs: seq<real>, ys: seq<real>, s: real)
    requires |xs| == |ys|
    requires forall i :: 0 <= i < |xs| ==> TimesAt(xs, ys, s, i)
    ensures ScaledBy(SumReals(xs), SumReals(ys), s)
  {
    if |xs| > 0 {
      var n := |xs| - 1;
      forall i | 0 <= i < n
        ensures TimesAt(xs[..n], ys[..n], s, i)
      {
        assert TimesAt(xs, ys, s, i);
      }
      SumScaled(xs[..n], ys[..n], s);
      assert TimesAt(xs, ys, s, n);
      ScaleStep(SumReals(xs[..n]), SumReals(ys[..n]), xs[n], ys[n], SumReals(xs), SumReals(ys), s);
    } else {
      ScaleZero(s);
    }
  }

  /** The scalar step of SumScaled: sums of scaled parts are the scaled sum. */
  lemma ScaleStep(x: real, y: real, u: real, v: real, z: real, w: real, s: real)
    requires y == x * s && v == u * s && z == x + u && w == y + v
    ensures w == z * s
  {
    ScaleAdd(x, u, s);
  }

  lemma ScaleZero(s: real)
    ensures 0.0 * s == 0.0
  {
  }

  lemma ScaleAdd(x: real, y: real, s: real)
    ensures x * s + y * s == (x + y) * s
  {
  }

  /** Keys are distinct and every record's key is among them. */
  lemma KeysCover<K, C>(facts: seq<Fact<K, C>>)
    ensures Distinct(Keys(facts))
    ensures forall i :: 0 <= i < |facts| ==> facts[i].key in Keys(facts)
  {
    KeysSpec(facts);
    forall i | 0 <= i < |facts|
      ensures facts[i].key in Keys(facts)
    {
      assert HasKey(facts, facts[i].key);
    }
  }

  // ---------------------------------------------------------------------------
  // Partition: a key's total is the sum of its cells

  /** The sum over a list of columns of one key's cells. */
  function SumOverCols<K(==), C(==)>(facts: seq<Fact<K, C>>, k: K, cs: seq<C>): Cell {
    if |cs| == 0 then Zero else Plus(SumOverCols(facts, k, cs[..|cs| - 1]), CellSum(facts, k, cs[|cs| - 1]))
  }

  lemma {:induction false} SumOverColsAppend<K, C>(facts: seq<Fact<K, C>>, f: Fact<K, C>, k: K, cs: seq<C>)
    requires Distinct(cs)
    ensures SumOverCols(facts + [f], k, cs) ==
      if f.key == k && f.col in cs then Plus(SumOverCols(facts, k, cs), f.cell) else SumOverCols(facts, k, cs)
  {
    if |cs| > 0 {
      var q := cs[..|cs| - 1];
      var c := cs[|cs| - 1];
      assert cs == q + [c];
      assert Distinct(q);
      assert f.col in cs <==> f.col in q || f.col == c;
      assert f.col == c ==> f.col !in q;
      SumOverColsAppend(facts, f, k, q);
      CellSumAppend(facts, f, k, c);
    }
  }

  lemma {:induction false} SumOverColsEmpty<K, C>(facts: seq<Fact<K, C>>, k: K, cs: seq<C>)
    requires |facts| == 0
    ensures SumOverCols(facts, k, cs) == Zero
  {
    if |cs| > 0 {
      SumOverColsEmpty(facts, k, cs[..|cs| - 1]);
    }
  }

  /** Over distinct columns that cover every record, a key's cells add up to
      the key's total. */
  lemma {:induction false} ColsPartitionKey<K, C>(facts: seq<Fact<K, C>>, k: K, cs: seq<C>)
    requires Distinct(cs)
    requires forall i :: 0 <= i < |facts| ==> facts[i].col in cs
    ensures SumOverCols(facts, k, cs) == KeySum(facts, k)
  {
    if |facts| == 0 {
      SumOverColsEmpty(facts, k, cs);
    } else {
      var p := facts[..|facts| - 1];
      var f := facts[|facts| - 1];
      assert facts == p + [f];
      assert forall i :: 0 <= i < |p| ==> p[i] == facts[i];
      ColsPartitionKey(p, k, cs);
      SumOverColsAppend(p, f, k, cs);
    }
  }

  /** The cells of a reindexed row add up over its columns. */
  lemma {:induction false} SumCellsOfReindex<K, C>(facts: seq<Fact<K, C>>, k: K, cs: seq<C>)
    ensures SumCells(Reindex(facts, k, cs)) == SumOverCols(facts, k, cs)
  {
    if |cs| > 0 {
      var q := cs[..|cs| - 1];
      var r := Reindex(facts, k, cs);
      assert r[..|r| - 1] == Reindex(facts, k, q);
      SumCellsOfReindex(facts, k, q);
    }
  }

  /** When the column list is distinct and covers every record, a key's total
      equals the sum of its row's cells. */
  lemma KeyTotalIsRowSum<K, C>(facts: seq<Fact<K, C>>, k: K, cs: seq<C>)
    requires Distinct(cs)
    requires forall i :: 0 <= i < |facts| ==> facts[i].col in cs
    ensures KeySum(facts, k) == SumCells(Reindex(facts, k, cs))
  {
    ColsPartitionKey(facts, k, cs);
    SumCellsOfReindex(facts, k, cs);
  }

  /** A key's total also counts records in columns outside the list, which
      its row does not show. */
  lemma KeyTotalCountsUnlisted<K, C>(facts: seq<Fact<K, C>>, f: Fact<K, C>, cs: seq<C>)
    requires f.col !in cs
    ensures KeySum(facts + [f], f.key) == Plus(KeySum(facts, f.key), f.cell)
    ensures Reindex(facts + [f], f.key, cs) == Reindex(facts, f.key, cs)
  {
    var g := facts + [f];
    assert g[..|g| - 1] == facts;
    forall i | 0 <= i < |cs|
      ensures CellSum(g, f.key, cs[i]) == CellSum(facts, f.key, cs[i])
    {
      CellSumAppend(facts, f, f.key, cs[i]);
    }
  }
}
