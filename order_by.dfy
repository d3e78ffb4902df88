// ORDER BY comparison of rows: `ColumnOrder` names a column and a
// direction, and rows compare column by column in the given order, with the
// whole rows compared as a tie-break (as the order-sensitive aggregates
// sort their inputs). The comparison is a total order on rows.

module OrderBy {
  import opened Datums
  import opened DatumOrder
  import opened Sorting

  datatype ColumnOrder = ColumnOrder(column: nat, desc: bool)

  /// The datum a row holds at `i`; positions past the end read as Null.
  function At(row: seq<Datum>, i: nat): Datum {
    if i < |row| then row[i] else Null
  }

  function CmpColumn(c: ColumnOrder, l: seq<Datum>, r: seq<Datum>): Ordering {
    var o := Cmp(At(l, c.column), At(r, c.column));
    if c.desc then Flip(o) else o
  }

  /// `compare_columns` without its tie-break.
  function CompareColumns(order: seq<ColumnOrder>, l: seq<Datum>, r: seq<Datum>): Ordering
    decreases |order|
  {
    if order == [] then Equal
    else if CmpColumn(order[0], l, r) != Equal then CmpColumn(order[0], l, r)
    else CompareColumns(order[1..], l, r)
  }

  /// The comparison the order-sensitive aggregates sort by: the ORDER BY
  /// columns, then the whole rows.
  function CompareRows(order: seq<ColumnOrder>, l: seq<Datum>, r: seq<Datum>): Ordering {
    if CompareColumns(order, l, r) != Equal then CompareColumns(order, l, r) else CmpSeq(l, r)
  }

  lemma CmpColumnFacts(c: ColumnOrder, a: seq<Datum>, b: seq<Datum>, d: seq<Datum>)
    ensures CmpColumn(c, b, a) == Flip(CmpColumn(c, a, b))
    ensures CmpColumn(c, a, b) == Equal ==> CmpColumn(c, a, d) == CmpColumn(c, b, d)
    ensures CmpColumn(c, a, b) == Less && CmpColumn(c, b, d) == Less ==> CmpColumn(c, a, d) == Less
  {
    var x, y, z := At(a, c.column), At(b, c.column), At(d, c.column);
    CmpEqual(x, y);
    CmpEqual(y, z);
    CmpEqual(x, z);
    if Cmp(x, y) == Less && Cmp(y, z) == Less { CmpTrans(x, y, z); }
    if Cmp(y, x) == Less && Cmp(z, y) == Less { CmpTrans(z, y, x); }
  }

  lemma {:induction false} CompareColumnsFlip(order: seq<ColumnOrder>, a: seq<Datum>, b: seq<Datum>)
    ensures CompareColumns(order, b, a) == Flip(CompareColumns(order, a, b))
    decreases |order|
  {
    if order != [] {
      CmpColumnFacts(order[0], a, b, b);
      CompareColumnsFlip(order[1..], a, b);
    }
  }

  /// Column-wise comparison is transitive, and the composite is Equal only
  /// when both steps are.
  lemma {:induction false} CompareColumnsTrans(order: seq<ColumnOrder>, a: seq<Datum>, b: seq<Datum>, d: seq<Datum>)
    requires CompareColumns(order, a, b) != Greater && CompareColumns(order, b, d) != Greater
    ensures CompareColumns(order, a, d) != Greater
    ensures CompareColumns(order, a, d) == Equal ==>
      CompareColumns(order, a, b) == Equal && CompareColumns(order, b, d) == Equal
    decreases |order|
  {
    if order != [] {
      var c := order[0];
      CmpColumnFacts(c, a, b, d);
      CmpColumnFacts(c, b, d, a);
      CmpColumnFacts(c, a, d, d);
      if CmpColumn(c, a, b) == Equal && CmpColumn(c, b, d) == Equal {
        CompareColumnsTrans(order[1..], a, b, d);
      }
    }
  }

  /// `CompareRows` is a total order: it is antisymmetric, Equal only on
  /// equal rows, and transitive.
  lemma CompareRowsOrder(order: seq<ColumnOrder>, a: seq<Datum>, b: seq<Datum>, d: seq<Datum>)
    ensures CompareRows(order, b, a) == Flip(CompareRows(order, a, b))
    ensures CompareRows(order, a, b) == Equal <==> a == b
    ensures CompareRows(order, a, b) != Greater && CompareRows(order, b, d) != Greater ==>
      CompareRows(order, a, d) != Greater
  {
    CompareColumnsFlip(order, a, b);
    RowTotalOrder(a, b, d);
    RowTotalOrder(a, d, b);
    if a == b { CompareColumnsEqual(order, a); }
    if CompareRows(order, a, b) != Greater && CompareRows(order, b, d) != Greater {
      CompareColumnsTrans(order, a, b, d);
    }
  }

  lemma {:induction false} CompareColumnsEqual(order: seq<ColumnOrder>, a: seq<Datum>)
    ensures CompareColumns(order, a, a) == Equal
    decreases |order|
  {
    if order != [] {
      CmpEqual(At(a, order[0].column), At(a, order[0].column));
      CompareColumnsEqual(order[1..], a);
    }
  }

  /// Items paired with their ORDER BY row.
  datatype Keyed<T> = Keyed(item: T, orderRow: seq<Datum>)

  function RowLe<T>(order: seq<ColumnOrder>): (Keyed<T>, Keyed<T>) -> bool {
    (x: Keyed<T>, y: Keyed<T>) => CompareRows(order, x.orderRow, y.orderRow) != Greater
  }

  lemma RowLeOrder<T(!new)>(order: seq<ColumnOrder>)
    ensures TotalPreorder(RowLe<T>(order))
  {
    var le := RowLe<T>(order);
    forall x: Keyed<T>, y: Keyed<T> ensures le(x, y) || le(y, x) {
      CompareRowsOrder(order, x.orderRow, y.orderRow, y.orderRow);
    }
    forall x: Keyed<T>, y: Keyed<T>, z: Keyed<T> | le(x, y) && le(y, z) ensures le(x, z) {
      CompareRowsOrder(order, x.orderRow, y.orderRow, z.orderRow);
    }
  }
}
