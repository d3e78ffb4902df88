// Operations on the `(row, diff)` updates of constant collections, as
// constant folding applies them: consolidation, nullability, negation,
// thresholding, mapping, filtering, projection, cross products, table
// functions and grouped aggregation.
//
// A panic of the source (an `assert!`, an `unwrap_*` on a datum of the
// wrong kind, an index out of bounds) is an `Err` carrying an internal
// error here.

module ConstantRows {
  import opened Datums
  import O = DatumOrder
  import SE = ScalarExpr
  import SO = ScalarOps
  import AG = Aggregate
  import TF = TableFunc
  import R = Repr
  import RE = RelationExpr

  type Update = TF.Update

  /// The order rows are sorted in: lexicographic by datum.
  predicate RowLt(a: seq<Datum>, b: seq<Datum>) {
    O.CmpSeq(a, b) == O.Less
  }

  lemma RowLtFacts(a: seq<Datum>, b: seq<Datum>, c: seq<Datum>)
    ensures !RowLt(a, a)
    ensures a != b ==> RowLt(a, b) || RowLt(b, a)
    ensures RowLt(a, b) ==> !RowLt(b, a)
    ensures RowLt(a, b) && RowLt(b, c) ==> RowLt(a, c)
  {
    O.RowTotalOrder(a, b, c);
    if RowLt(a, b) && RowLt(b, c) { O.SeqTrans(a, b, c); }
  }

  // ---------------------------------------------------------------------
  // Multiplicities and consolidation

  /// The total multiplicity of `row` among the updates.
  function Sum(us: seq<Update>, row: seq<Datum>): int {
    if us == [] then 0 else (if us[0].row == row then us[0].diff else 0) + Sum(us[1..], row)
  }

  lemma {:induction false} SumAppend(a: seq<Update>, b: seq<Update>, row: seq<Datum>)
    ensures Sum(a + b, row) == Sum(a, row) + Sum(b, row)
    decreases |a|
  {
    if a == [] {
      assert a + b == b;
    } else {
      assert (a + b)[1..] == a[1..] + b;
      SumAppend(a[1..], b, row);
    }
  }

  lemma {:induction false} SumAbsent(us: seq<Update>, row: seq<Datum>)
    requires forall i :: 0 <= i < |us| ==> us[i].row != row
    ensures Sum(us, row) == 0
    decreases |us|
  {
    if us != [] { SumAbsent(us[1..], row); }
  }

  /// The consolidated form: rows strictly ascending, hence each at most
  /// once, and no zero multiplicity.
  predicate Canonical(us: seq<Update>) {
    (forall i, j :: 0 <= i < j < |us| ==> RowLt(us[i].row, us[j].row))
    && (forall i :: 0 <= i < |us| ==> us[i].diff != 0)
  }

  /// `out` consolidates `input`: canonical, and every row has the total
  /// multiplicity it has in `input`.
  ghost predicate IsConsolidation(input: seq<Update>, out: seq<Update>) {
    Canonical(out) && forall row :: Sum(out, row) == Sum(input, row)
  }

  /// In a canonical collection a row's multiplicity is its one diff.
  lemma {:induction false} CanonicalSum(us: seq<Update>, i: nat)
    requires Canonical(us) && i < |us|
    ensures Sum(us, us[i].row) == us[i].diff
    decreases |us|
  {
    RowLtFacts(us[i].row, us[i].row, us[i].row);
    if i == 0 {
      forall k | 0 <= k < |us[1..]| ensures us[1..][k].row != us[0].row {
        RowLtFacts(us[0].row, us[k + 1].row, us[0].row);
      }
      SumAbsent(us[1..], us[0].row);
    } else {
      RowLtFacts(us[0].row, us[i].row, us[0].row);
      CanonicalSum(us[1..], i - 1);
    }
  }

  /// Adds one update to a canonical collection.
  function AddTo(acc: seq<Update>, u: Update): seq<Update>
    decreases |acc|
  {
    if acc == [] then (if u.diff == 0 then [] else [u])
    else if acc[0].row == u.row then
      (if acc[0].diff + u.diff == 0 then acc[1..] else [TF.Update(u.row, acc[0].diff + u.diff)] + acc[1..])
    else if RowLt(u.row, acc[0].row) then (if u.diff == 0 then acc else [u] + acc)
    else [acc[0]] + AddTo(acc[1..], u)
  }

  /// Adding to a collection whose rows all lie above `lo` an update
  /// above `lo` keeps every row above `lo`.
  lemma {:induction false} AddToAbove(acc: seq<Update>, u: Update, lo: seq<Datum>)
    requires RowLt(lo, u.row) && forall j :: 0 <= j < |acc| ==> RowLt(lo, acc[j].row)
    ensures forall k :: 0 <= k < |AddTo(acc, u)| ==> RowLt(lo, AddTo(acc, u)[k].row)
    decreases |acc|
  {
    if acc != [] && acc[0].row != u.row && !RowLt(u.row, acc[0].row) {
      AddToAbove(acc[1..], u, lo);
    }
  }

  lemma {:induction false} AddToCanonical(acc: seq<Update>, u: Update)
    requires Canonical(acc)
    ensures Canonical(AddTo(acc, u))
    decreases |acc|
  {
    var r := AddTo(acc, u);
    if acc == [] {
    } else if acc[0].row == u.row {
    } else if RowLt(u.row, acc[0].row) {
      if u.diff != 0 {
        forall i, j | 0 <= i < j < |r| ensures RowLt(r[i].row, r[j].row) {
          if i == 0 && j > 1 { RowLtFacts(u.row, acc[0].row, acc[j - 1].row); }
        }
      }
    } else {
      var rest := AddTo(acc[1..], u);
      AddToCanonical(acc[1..], u);
      RowLtFacts(u.row, acc[0].row, u.row);
      AddToAbove(acc[1..], u, acc[0].row);
      assert r == [acc[0]] + rest;
    }
  }

  lemma {:induction false} AddToSum(acc: seq<Update>, u: Update, row: seq<Datum>)
    ensures Sum(AddTo(acc, u), row) == Sum(acc, row) + (if row == u.row then u.diff else 0)
    decreases |acc|
  {
    var r := AddTo(acc, u);
    if acc == [] {
    } else if acc[0].row == u.row {
      if acc[0].diff + u.diff != 0 { assert r[1..] == acc[1..]; }
    } else if RowLt(u.row, acc[0].row) {
      if u.diff != 0 { assert r[1..] == acc; }
    } else {
      AddToSum(acc[1..], u, row);
      assert r[1..] == AddTo(acc[1..], u);
    }
  }

  function MapGet(m: map<seq<Datum>, int>, row: seq<Datum>): int {
    if row in m then m[row] else 0
  }

  /// The closing consolidation of constant folding: sums the diffs per row
  /// in a map, drops the rows whose sum is zero, and sorts the rest.
  method Consolidate(rows: seq<Update>) returns (out: seq<Update>)
    ensures IsConsolidation(rows, out)
  {
    var accum: map<seq<Datum>, int> := map[];
    var i := 0;
    while i < |rows|
      invariant 0 <= i <= |rows|
      invariant forall row :: MapGet(accum, row) == Sum(rows[..i], row)
    {
      assert rows[..i + 1] == rows[..i] + [rows[i]];
      var next := accum[rows[i].row := MapGet(accum, rows[i].row) + rows[i].diff];
      forall row ensures MapGet(next, row) == Sum(rows[..i + 1], row) {
        SumAppend(rows[..i], [rows[i]], row);
        assert Sum([rows[i]], row) == if row == rows[i].row then rows[i].diff else 0;
      }
      accum := next;
      i := i + 1;
    }
    assert rows[..i] == rows;
    accum := map row | row in accum && accum[row] != 0 :: accum[row];
    var pending := accum.Keys;
    out := [];
    while pending != {}
      invariant pending <= accum.Keys
      invariant Canonical(out)
      invariant forall row :: Sum(out, row) == if row in pending then 0 else MapGet(accum, row)
      decreases |pending|
    {
      var row :| row in pending;
      AddToCanonical(out, TF.Update(row, accum[row]));
      forall x ensures Sum(AddTo(out, TF.Update(row, accum[row])), x) == Sum(out, x) + (if x == row then accum[row] else 0) {
        AddToSum(out, TF.Update(row, accum[row]), x);
      }
      out := AddTo(out, TF.Update(row, accum[row]));
      pending := pending - {row};
    }
  }

  /// The consolidated form of a collection is unique: the model's
  /// consolidation agrees with any other way of computing it.
  lemma {:induction false} ConsolidationUnique(a: seq<Update>, b: seq<Update>)
    requires Canonical(a) && Canonical(b)
    requires forall row :: Sum(a, row) == Sum(b, row)
    ensures a == b
    decreases |a| + |b|
  {
    if a == [] && b != [] {
      CanonicalSum(b, 0);
    } else if a != [] && b == [] {
      CanonicalSum(a, 0);
    } else if a != [] {
      var x, y := a[0].row, b[0].row;
      CanonicalSum(a, 0);
      CanonicalSum(b, 0);
      if x != y {
        RowLtFacts(x, y, x);
        if RowLt(x, y) {
          forall j | 0 <= j < |b| ensures b[j].row != x {
            if j > 0 { RowLtFacts(x, y, b[j].row); RowLtFacts(b[j].row, b[j].row, b[j].row); }
          }
          SumAbsent(b, x);
        } else {
          forall j | 0 <= j < |a| ensures a[j].row != y {
            if j > 0 { RowLtFacts(y, x, a[j].row); RowLtFacts(a[j].row, a[j].row, a[j].row); }
          }
          SumAbsent(a, y);
        }
      } else {
        assert a[0] == b[0];
        forall row ensures Sum(a[1..], row) == Sum(b[1..], row) {
          assert Sum(a, row) == (if a[0].row == row then a[0].diff else 0) + Sum(a[1..], row);
          assert Sum(b, row) == (if b[0].row == row then b[0].diff else 0) + Sum(b[1..], row);
        }
        ConsolidationUnique(a[1..], b[1..]);
        assert a == [a[0]] + a[1..] && b == [b[0]] + b[1..];
      }
    }
  }

  /// Consolidating a consolidated collection changes nothing.
  lemma ConsolidatedFixpoint(us: seq<Update>, out: seq<Update>)
    requires Canonical(us) && IsConsolidation(us, out)
    ensures out == us
  {
    ConsolidationUnique(out, us);
  }

  // ---------------------------------------------------------------------
  // Nullability

  /// Some update holds Null in column `i`.
  predicate HasNull(rows: seq<Update>, i: nat) {
    exists k :: 0 <= k < |rows| && i < |rows[k].row| && rows[k].row[i].Null?
  }

  /// `t` is `typ` with the nullability of every column re-derived from the
  /// rows.
  predicate Renulled(typ: R.RelationType, rows: seq<Update>, t: R.RelationType) {
    t.keys == typ.keys && |t.columnTypes| == |typ.columnTypes|
    && forall i :: 0 <= i < |t.columnTypes| ==>
      t.columnTypes[i].scalar == typ.columnTypes[i].scalar
      && (t.columnTypes[i].nullable <==> HasNull(rows, i))
  }

  /// Re-derives the nullability of every column from the rows: a column is
  /// nullable exactly when some row holds Null in it. Keys and scalar
  /// types are kept.
  method Renullable(typ: R.RelationType, rows: seq<Update>) returns (t: R.RelationType)
    ensures Renulled(typ, rows, t)
  {
    var cols := typ.columnTypes;
    var c := 0;
    while c < |cols|
      invariant 0 <= c <= |cols| && |cols| == |typ.columnTypes|
      invariant forall i :: 0 <= i < |cols| ==> cols[i].scalar == typ.columnTypes[i].scalar
      invariant forall i :: 0 <= i < c ==> !cols[i].nullable
    {
      cols := cols[c := R.ColumnType(cols[c].scalar, false)];
      c := c + 1;
    }
    var k := 0;
    while k < |rows|
      invariant 0 <= k <= |rows| && |cols| == |typ.columnTypes|
      invariant forall i :: 0 <= i < |cols| ==> cols[i].scalar == typ.columnTypes[i].scalar
      invariant forall i :: 0 <= i < |cols| ==> (cols[i].nullable <==> HasNull(rows[..k], i))
    {
      var row := rows[k].row;
      var index := 0;
      while index < |row|
        invariant 0 <= index <= |row| && |cols| == |typ.columnTypes|
        invariant forall i :: 0 <= i < |cols| ==> cols[i].scalar == typ.columnTypes[i].scalar
        invariant forall i :: 0 <= i < |cols| ==>
          (cols[i].nullable <==> HasNull(rows[..k], i) || (i < index && row[i].Null?))
      {
        if row[index].Null? && index < |cols| {
          cols := cols[index := R.ColumnType(cols[index].scalar, true)];
        }
        index := index + 1;
      }
      forall i | 0 <= i < |cols| ensures HasNull(rows[..k + 1], i) <==> HasNull(rows[..k], i) || (i < |row| && row[i].Null?) {
        assert forall j :: 0 <= j < k ==> rows[..k + 1][j] == rows[..k][j];
        if i < |row| && row[i].Null? { assert rows[..k + 1][k].row == row; }
        if HasNull(rows[..k + 1], i) {
          var j :| 0 <= j < k + 1 && i < |rows[..k + 1][j].row| && rows[..k + 1][j].row[i].Null?;
          if j < k { assert rows[..k][j] == rows[..k + 1][j]; }
        }
      }
      k := k + 1;
    }
    assert rows[..k] == rows;
    t := R.RelationType(cols, typ.keys);
  }

  // ---------------------------------------------------------------------
  // Negate and Threshold

  /// Every diff negated.
  function Negated(us: seq<Update>): (r: seq<Update>)
    ensures |r| == |us|
  {
    seq(|us|, i requires 0 <= i < |us| => TF.Update(us[i].row, -us[i].diff))
  }

  /// Negation flips every row's multiplicity.
  lemma {:induction false} NegatedSum(us: seq<Update>, row: seq<Datum>)
    ensures Sum(Negated(us), row) == -Sum(us, row)
    decreases |us|
  {
    if us != [] {
      assert Negated(us)[1..] == Negated(us[1..]);
      NegatedSum(us[1..], row);
    }
  }

  /// Negating twice gives back the collection.
  lemma NegatedTwice(us: seq<Update>)
    ensures Negated(Negated(us)) == us
  {
    assert forall i :: 0 <= i < |us| ==> Negated(Negated(us))[i] == us[i];
  }

  /// Constant folding of `Negate`: multiplies every diff by -1 in place.
  method NegateRows(rows: seq<Update>) returns (out: seq<Update>)
    ensures out == Negated(rows)
  {
    out := rows;
    var i := 0;
    while i < |out|
      invariant 0 <= i <= |out| == |rows|
      invariant forall k :: 0 <= k < i ==> out[k] == TF.Update(rows[k].row, -rows[k].diff)
      invariant forall k :: i <= k < |out| ==> out[k] == rows[k]
    {
      out := out[i := TF.Update(out[i].row, out[i].diff * -1)];
      i := i + 1;
    }
  }

  /// The elements of `s` that satisfy `p`, in order (`Vec::retain`).
  function Keep<T>(s: seq<T>, p: T -> bool): seq<T> {
    if s == [] then [] else (if p(s[0]) then [s[0]] else []) + Keep(s[1..], p)
  }

  /// Retaining keeps exactly the elements satisfying the predicate, each as
  /// often as in the input.
  lemma {:induction false} KeepCount<T>(s: seq<T>, p: T -> bool)
    ensures forall x :: multiset(Keep(s, p))[x] == if p(x) then multiset(s)[x] else 0
    decreases |s|
  {
    if s != [] {
      KeepCount(s[1..], p);
      assert s == [s[0]] + s[1..];
      assert multiset(s) == multiset{s[0]} + multiset(s[1..]);
    }
  }

  lemma {:induction false} KeepAll<T>(s: seq<T>, p: T -> bool)
    requires forall k :: 0 <= k < |s| ==> p(s[k])
    ensures Keep(s, p) == s
    decreases |s|
  {
    if s != [] {
      KeepAll(s[1..], p);
      assert s == [s[0]] + s[1..];
    }
  }

  function Positive(): Update -> bool {
    (u: Update) => u.diff > 0
  }

  /// Threshold keeps exactly the updates with a positive diff.
  lemma ThresholdSpec(us: seq<Update>)
    ensures forall u :: multiset(Keep(us, Positive()))[u] == if u.diff > 0 then multiset(us)[u] else 0
    ensures forall u :: u in Keep(us, Positive()) <==> u in us && u.diff > 0
  {
    KeepCount(us, Positive());
    forall u ensures u in Keep(us, Positive()) <==> u in us && u.diff > 0 {
      assert u in Keep(us, Positive()) <==> multiset(Keep(us, Positive()))[u] > 0;
    }
  }

  // ---------------------------------------------------------------------
  // Map

  /// The row extended by the value of each scalar, each evaluated on the
  /// row as extended so far; the first error is the result.
  function ExtendRow(scalars: seq<SE.Expr>, row: seq<Datum>): Result<seq<Datum>>
    decreases |scalars|
  {
    if scalars == [] then Ok(row)
    else
      match ExtendRow(scalars[..|scalars| - 1], row)
      case Err(e) => Err(e)
      case Ok(acc) =>
        match SE.Eval(scalars[|scalars| - 1], acc)
        case Err(e) => Err(e)
        case Ok(d) => Ok(acc + [d])
  }

  /// An extended row keeps the input row as its prefix and holds one value
  /// per scalar, each the scalar's value on the columns before it.
  lemma {:induction false} ExtendRowSpec(scalars: seq<SE.Expr>, row: seq<Datum>)
    ensures var r := ExtendRow(scalars, row);
      r.Ok? ==> (|r.value| == |row| + |scalars| && r.value[..|row|] == row
        && forall k :: 0 <= k < |scalars| ==> SE.Eval(scalars[k], r.value[..|row| + k]) == Ok(r.value[|row| + k]))
    decreases |scalars|
  {
    if scalars != [] {
      var n := |scalars| - 1;
      var init := scalars[..n];
      ExtendRowSpec(init, row);
      var r := ExtendRow(scalars, row);
      if ExtendRow(init, row).Ok? && r.Ok? {
        var acc := ExtendRow(init, row).value;
        assert r.value == acc + [r.value[|row| + n]];
        forall k | 0 <= k < |scalars| ensures SE.Eval(scalars[k], r.value[..|row| + k]) == Ok(r.value[|row| + k]) {
          if k < n {
            assert r.value[..|row| + k] == acc[..|row| + k];
            assert init[k] == scalars[k];
          } else {
            assert r.value[..|row| + k] == acc;
          }
        }
      }
    }
  }

  /// `unpacked.push(scalar.eval(&unpacked)?)` for each scalar in turn.
  method ExtendRowLoop(scalars: seq<SE.Expr>, row: seq<Datum>) returns (r: Result<seq<Datum>>)
    ensures r == ExtendRow(scalars, row)
  {
    var unpacked := row;
    var i := 0;
    while i < |scalars|
      invariant 0 <= i <= |scalars|
      invariant ExtendRow(scalars[..i], row) == Ok(unpacked)
    {
      assert scalars[..i + 1][..i] == scalars[..i];
      var v := SE.Eval(scalars[i], unpacked);
      if v.Err? {
        r := Err(v.error);
        ErrorPersists(scalars, row, i + 1);
        return;
      }
      unpacked := unpacked + [v.value];
      i := i + 1;
    }
    assert scalars[..i] == scalars;
    r := Ok(unpacked);
  }

  /// Once a prefix of the scalars fails, so does the whole list, with the
  /// same error.
  lemma {:induction false} ErrorPersists(scalars: seq<SE.Expr>, row: seq<Datum>, i: nat)
    requires i <= |scalars| && ExtendRow(scalars[..i], row).Err?
    ensures ExtendRow(scalars, row) == ExtendRow(scalars[..i], row)
    decreases |scalars| - i
  {
    if i < |scalars| {
      assert scalars[..i + 1][..i] == scalars[..i];
      ErrorPersists(scalars, row, i + 1);
    } else {
      assert scalars[..i] == scalars;
    }
  }

  /// Every row extended by the scalars, diffs unchanged; the first row that
  /// fails gives the result's error.
  function MapRows(scalars: seq<SE.Expr>, us: seq<Update>): (r: Result<seq<Update>>)
    ensures r.Ok? ==> |r.value| == |us| && forall i :: 0 <= i < |us| ==>
      r.value[i].diff == us[i].diff && ExtendRow(scalars, us[i].row) == Ok(r.value[i].row)
    ensures r.Err? ==> exists i :: 0 <= i < |us| && ExtendRow(scalars, us[i].row) == Err(r.error)
  {
    if us == [] then Ok([])
    else
      match ExtendRow(scalars, us[0].row)
      case Err(e) => Err(e)
      case Ok(row) =>
        match MapRows(scalars, us[1..])
        case Err(e) => Err(e)
        case Ok(rest) => Ok([TF.Update(row, us[0].diff)] + rest)
  }

  /// Constant folding of `Map`: extends each row in turn.
  method MapLoop(scalars: seq<SE.Expr>, us: seq<Update>) returns (r: Result<seq<Update>>)
    ensures r == MapRows(scalars, us)
  {
    var out: seq<Update> := [];
    var i := 0;
    assert us[0..] == us;
    PrependStep([], [], MapRows(scalars, us));
    while i < |us|
      invariant 0 <= i <= |us|
      invariant MapRows(scalars, us) == Prepend(out, MapRows(scalars, us[i..]))
    {
      var row := ExtendRowLoop(scalars, us[i].row);
      assert us[i..][1..] == us[i + 1..];
      if row.Err? {
        r := Err(row.error);
        return;
      }
      PrependStep(out, [TF.Update(row.value, us[i].diff)], MapRows(scalars, us[i + 1..]));
      out := out + [TF.Update(row.value, us[i].diff)];
      i := i + 1;
    }
    PrependStep(out, [], Ok([]));
    r := Ok(out);
  }

  /// `out` followed by the rows of `rest`, or the error of `rest`.
  function Prepend<T>(out: seq<T>, rest: Result<seq<T>>): Result<seq<T>> {
    match rest
    case Err(e) => Err(e)
    case Ok(rs) => Ok(out + rs)
  }

  lemma PrependStep<T>(out: seq<T>, more: seq<T>, rest: Result<seq<T>>)
    ensures Prepend(out, Prepend(more, rest)) == Prepend(out + more, rest)
    ensures Prepend(out, Ok([])) == Ok(out)
    ensures Prepend([], rest) == rest
  {
    if rest.Ok? {
      assert out + (more + rest.value) == out + more + rest.value;
      assert [] + rest.value == rest.value;
    }
    assert out + [] == out;
  }

  // ---------------------------------------------------------------------
  // Filter

  /// Whether a row passes the predicates: each evaluated in turn, the
  /// first one that is not True rejects the row, and an error before that
  /// is the result.
  function Passes(preds: seq<SE.Expr>, row: seq<Datum>): Result<bool> {
    if preds == [] then Ok(true)
    else
      match SE.Eval(preds[0], row)
      case Err(e) => Err(e)
      case Ok(d) => if d != Bool(true) then Ok(false) else Passes(preds[1..], row)
  }

  /// A row passes exactly when every predicate evaluates to True on it.
  lemma {:induction false} PassesSpec(preds: seq<SE.Expr>, row: seq<Datum>)
    ensures Passes(preds, row) == Ok(true) <==> forall k :: 0 <= k < |preds| ==> SE.Eval(preds[k], row) == Ok(Bool(true))
    decreases |preds|
  {
    if preds != [] {
      PassesSpec(preds[1..], row);
      assert forall k :: 1 <= k < |preds| ==> preds[k] == preds[1..][k - 1];
    }
  }

  /// `fold_filter_constant`: the rows that pass, in order, or the first
  /// error.
  function FilterRows(preds: seq<SE.Expr>, us: seq<Update>): Result<seq<Update>> {
    if us == [] then Ok([])
    else
      match Passes(preds, us[0].row)
      case Err(e) => Err(e)
      case Ok(b) => Prepend(if b then [us[0]] else [], FilterRows(preds, us[1..]))
  }

  /// On success the filter keeps exactly the updates whose row passes, each
  /// as often as in its input; it fails exactly when some row's predicates
  /// fail.
  lemma FilterSpec(preds: seq<SE.Expr>, us: seq<Update>)
    ensures FilterRows(preds, us).Ok? ==> forall u ::
      multiset(FilterRows(preds, us).value)[u] == if Passes(preds, u.row) == Ok(true) then multiset(us)[u] else 0
    ensures FilterRows(preds, us).Err? <==> exists i :: 0 <= i < |us| && Passes(preds, us[i].row).Err?
  {
    FilterCounts(preds, us);
    FilterFails(preds, us);
  }

  /// One step of the filter: the first update is kept if its row passes.
  lemma FilterStep(preds: seq<SE.Expr>, us: seq<Update>)
    requires us != []
    ensures var p, rest := Passes(preds, us[0].row), FilterRows(preds, us[1..]);
      FilterRows(preds, us) ==
        if p.Err? then Err(p.error)
        else if rest.Err? then Err(rest.error)
        else Ok((if p.value then [us[0]] else []) + rest.value)
  {
  }

  lemma {:induction false} FilterCounts(preds: seq<SE.Expr>, us: seq<Update>)
    ensures FilterRows(preds, us).Ok? ==> forall u ::
      multiset(FilterRows(preds, us).value)[u] == if Passes(preds, u.row) == Ok(true) then multiset(us)[u] else 0
    decreases |us|
  {
    if us != [] {
      FilterCounts(preds, us[1..]);
      FilterStep(preds, us);
      var p := Passes(preds, us[0].row);
      if p.Ok? && FilterRows(preds, us[1..]).Ok? {
        var rest := FilterRows(preds, us[1..]).value;
        var kept := if p.value then [us[0]] else [];
        assert us == [us[0]] + us[1..];
        assert multiset(us) == multiset{us[0]} + multiset(us[1..]);
        assert multiset(kept + rest) == multiset(kept) + multiset(rest);
      }
    }
  }

  lemma {:induction false} FilterFails(preds: seq<SE.Expr>, us: seq<Update>)
    ensures FilterRows(preds, us).Err? <==> exists i :: 0 <= i < |us| && Passes(preds, us[i].row).Err?
    decreases |us|
  {
    if us != [] {
      FilterFails(preds, us[1..]);
      FilterStep(preds, us);
      forall i | 1 <= i < |us| ensures us[i] == us[1..][i - 1] { }
      if exists i :: 1 <= i < |us| && Passes(preds, us[i].row).Err? {
        var i :| 1 <= i < |us| && Passes(preds, us[i].row).Err?;
        assert Passes(preds, us[1..][i - 1].row).Err?;
      }
    }
  }

  /// The source's loop over the rows with an inner loop over the
  /// predicates, which moves on to the next row at the first predicate
  /// that is not True.
  method FilterLoop(preds: seq<SE.Expr>, us: seq<Update>) returns (r: Result<seq<Update>>)
    ensures r == FilterRows(preds, us)
  {
    var out: seq<Update> := [];
    var i := 0;
    assert us[0..] == us;
    PrependStep([], [], FilterRows(preds, us));
    while i < |us|
      invariant 0 <= i <= |us|
      invariant FilterRows(preds, us) == Prepend(out, FilterRows(preds, us[i..]))
    {
      var row := us[i].row;
      assert us[i..][1..] == us[i + 1..];
      var keep := true;
      var j := 0;
      assert preds[0..] == preds;
      while j < |preds| && keep
        invariant 0 <= j <= |preds|
        invariant Passes(preds, row) == if keep then Passes(preds[j..], row) else Ok(false)
      {
        assert preds[j..][1..] == preds[j + 1..];
        var v := SE.Eval(preds[j], row);
        if v.Err? {
          r := Err(v.error);
          return;
        }
        if v.value != Bool(true) {
          keep := false;
        }
        j := j + 1;
      }
      assert keep ==> preds[j..] == [];
      var kept := if keep then [us[i]] else [];
      PrependStep(out, kept, FilterRows(preds, us[i + 1..]));
      out := out + kept;
      i := i + 1;
    }
    PrependStep(out, [], Ok([]));
    r := Ok(out);
  }

  // ---------------------------------------------------------------------
  // Project

  /// The datums at the output indices; an index past the row is the
  /// source's out-of-bounds panic.
  function ProjectRow(outputs: seq<nat>, row: seq<Datum>): (r: Result<seq<Datum>>)
    ensures r.Ok? <==> forall k :: 0 <= k < |outputs| ==> outputs[k] < |row|
    ensures r.Ok? ==> |r.value| == |outputs| && forall k :: 0 <= k < |outputs| ==> r.value[k] == row[outputs[k]]
  {
    if outputs == [] then Ok([])
    else if outputs[0] >= |row| then Err(Internal("index out of bounds"))
    else
      match ProjectRow(outputs[1..], row)
      case Err(e) => Err(e)
      case Ok(rest) => Ok([row[outputs[0]]] + rest)
  }

  /// Constant folding of `Project`: each row mapped to its output columns,
  /// diffs unchanged.
  function ProjectRows(outputs: seq<nat>, us: seq<Update>): (r: Result<seq<Update>>)
    ensures r.Ok? <==> forall i :: 0 <= i < |us| ==> ProjectRow(outputs, us[i].row).Ok?
    ensures r.Ok? ==> |r.value| == |us| && forall i :: 0 <= i < |us| ==>
      r.value[i] == TF.Update(ProjectRow(outputs, us[i].row).value, us[i].diff)
  {
    if us == [] then Ok([])
    else
      match ProjectRow(outputs, us[0].row)
      case Err(e) => Err(e)
      case Ok(row) => Prepend([TF.Update(row, us[0].diff)], ProjectRows(outputs, us[1..]))
  }

  // ---------------------------------------------------------------------
  // Join

  /// One row joined with each row of `rs` in turn: the rows concatenated,
  /// the diffs multiplied.
  function Pair(x: Update, rs: seq<Update>): seq<Update>
    decreases |rs|
  {
    if rs == [] then []
    else
      var y := rs[|rs| - 1];
      Pair(x, rs[..|rs| - 1]) + [TF.Update(x.row + y.row, x.diff * y.diff)]
  }

  /// The cross product: each row of `a` in order, joined with every row of
  /// `b`.
  function Cross(a: seq<Update>, b: seq<Update>): seq<Update>
    decreases |a|
  {
    if a == [] then [] else Cross(a[..|a| - 1], b) + Pair(a[|a| - 1], b)
  }

  lemma {:induction false} PairIndex(x: Update, rs: seq<Update>)
    ensures |Pair(x, rs)| == |rs|
    ensures forall j :: 0 <= j < |rs| ==> Pair(x, rs)[j] == TF.Update(x.row + rs[j].row, x.diff * rs[j].diff)
    decreases |rs|
  {
    if rs != [] {
      PairIndex(x, rs[..|rs| - 1]);
    }
  }

  lemma {:induction false} CrossLength(a: seq<Update>, b: seq<Update>)
    ensures |Cross(a, b)| == |a| * |b|
    decreases |a|
  {
    if a != [] {
      CrossLength(a[..|a| - 1], b);
      PairIndex(a[|a| - 1], b);
      assert (|a| - 1) * |b| + |b| == |a| * |b|;
    }
  }

  lemma MulStep(i: nat, n: nat, m: nat, j: nat)
    requires i < n && j < m
    ensures i * m + j < n * m
  {
    assert (i + 1) * m == i * m + m;
    assert (i + 1) * m <= n * m;
  }

  lemma {:induction false} CrossAt(a: seq<Update>, b: seq<Update>, i: nat, j: nat)
    requires i < |a| && j < |b|
    ensures i * |b| + j < |Cross(a, b)|
    ensures Cross(a, b)[i * |b| + j] == TF.Update(a[i].row + b[j].row, a[i].diff * b[j].diff)
    decreases |a|
  {
    var n := |a| - 1;
    CrossLength(a[..n], b);
    CrossLength(a, b);
    PairIndex(a[n], b);
    MulStep(i, |a|, |b|, j);
    if i < n {
      CrossAt(a[..n], b, i, j);
      MulStep(i, n, |b|, j);
      assert a[..n][i] == a[i];
    }
  }

  /// The product of `a` and `b` holds, at position `i * |b| + j`, row `i`
  /// of `a` joined with row `j` of `b`, and nothing else.
  lemma {:induction false} CrossIndex(a: seq<Update>, b: seq<Update>)
    ensures |Cross(a, b)| == |a| * |b|
    ensures forall i, j :: 0 <= i < |a| && 0 <= j < |b| ==> (var p := i * |b| + j;
      p < |Cross(a, b)| && Cross(a, b)[p] == TF.Update(a[i].row + b[j].row, a[i].diff * b[j].diff))
  {
    CrossLength(a, b);
    forall i, j | 0 <= i < |a| && 0 <= j < |b| {
      CrossAt(a, b, i, j);
    }
  }

  /// The single empty row with multiplicity one is the unit of the product.
  lemma CrossUnit(a: seq<Update>)
    ensures Cross([TF.Update([], 1)], a) == a
  {
    var one := [TF.Update([], 1)];
    assert one[..0] == [];
    PairIndex(one[0], a);
    forall j | 0 <= j < |a| ensures Cross(one, a)[j] == a[j] {
      assert [] + a[j].row == a[j].row;
    }
  }

  /// The product of `acc` with each input in turn, unless some step would
  /// start from more than `limit` candidate rows: then None.
  function Product(acc: seq<Update>, inputs: seq<seq<Update>>, limit: Option<nat>): Option<seq<Update>>
    decreases |inputs|
  {
    if inputs == [] then Some(acc)
    else if limit.Some? && |acc| * |inputs[0]| > limit.value then None
    else Product(Cross(acc, inputs[0]), inputs[1..], limit)
  }

  /// A limit only ever makes the product give up: when it does not, the
  /// result is the unlimited product.
  lemma {:induction false} ProductLimit(acc: seq<Update>, inputs: seq<seq<Update>>, n: nat)
    ensures Product(acc, inputs, None).Some?
    ensures Product(acc, inputs, Some(n)).Some? ==> Product(acc, inputs, Some(n)) == Product(acc, inputs, None)
    decreases |inputs|
  {
    if inputs != [] {
      ProductLimit(Cross(acc, inputs[0]), inputs[1..], n);
    }
  }

  /// Without a limit, the join of two constants is their cross product.
  lemma ProductOfTwo(a: seq<Update>, b: seq<Update>)
    ensures Product([TF.Update([], 1)], [a, b], None) == Some(Cross(a, b))
  {
    var one := [TF.Update([], 1)];
    CrossUnit(a);
    CrossLength(one, a);
    CrossLength(a, b);
    assert [a, b][1..] == [b];
    assert [b][1..] == [];
    assert Product(one, [a, b], None) == Product(Cross(one, a), [b], None);
    assert Product(a, [b], None) == Product(Cross(a, b), [], None);
  }

  /// The join's nested loops: `old_rows` starts as the single empty row and
  /// is replaced, input by input, by its product with that input, after the
  /// limit check.
  lemma ProductStep(acc: seq<Update>, inputs: seq<seq<Update>>, limit: Option<nat>)
    requires inputs != []
    ensures limit.Some? && |acc| * |inputs[0]| > limit.value ==> Product(acc, inputs, limit) == None
    ensures !(limit.Some? && |acc| * |inputs[0]| > limit.value) ==>
      Product(acc, inputs, limit) == Product(Cross(acc, inputs[0]), inputs[1..], limit)
  {
  }

  method JoinProduct(inputs: seq<seq<Update>>, limit: Option<nat>) returns (r: Option<seq<Update>>)
    ensures r == Product([TF.Update([], 1)], inputs, limit)
  {
    var oldRows := [TF.Update([], 1)];
    var k := 0;
    assert inputs[0..] == inputs;
    while k < |inputs|
      invariant 0 <= k <= |inputs|
      invariant Product([TF.Update([], 1)], inputs, limit) == Product(oldRows, inputs[k..], limit)
    {
      var rows := inputs[k];
      assert inputs[k..][1..] == inputs[k + 1..];
      ProductStep(oldRows, inputs[k..], limit);
      if limit.Some? && |oldRows| * |rows| > limit.value {
        return None;
      }
      oldRows := CrossLoop(oldRows, rows);
      k := k + 1;
    }
    r := Some(oldRows);
  }

  /// The two inner loops of the join: every row of `oldRows` joined with
  /// every row of `rows`.
  method CrossLoop(oldRows: seq<Update>, rows: seq<Update>) returns (nextRows: seq<Update>)
    ensures nextRows == Cross(oldRows, rows)
  {
    nextRows := [];
    var p := 0;
    while p < |oldRows|
      invariant 0 <= p <= |oldRows|
      invariant nextRows == Cross(oldRows[..p], rows)
    {
      var q := 0;
      while q < |rows|
        invariant 0 <= q <= |rows|
        invariant nextRows == Cross(oldRows[..p], rows) + Pair(oldRows[p], rows[..q])
      {
        assert rows[..q + 1][..q] == rows[..q];
        nextRows := nextRows + [TF.Update(oldRows[p].row + rows[q].row, oldRows[p].diff * rows[q].diff)];
        q := q + 1;
      }
      assert rows[..q] == rows;
      assert oldRows[..p + 1][..p] == oldRows[..p];
      p := p + 1;
    }
    assert oldRows[..p] == oldRows;
  }

  /// Every expression of an equivalence class evaluates, on the row, to
  /// the same result as the first one (errors compare like values).
  predicate ClassHolds(cls: seq<SE.Expr>, row: seq<Datum>) {
    forall k :: 0 <= k < |cls| ==> SE.Eval(cls[k], row) == SE.Eval(cls[0], row)
  }

  predicate EquivalencesHold(eqs: seq<seq<SE.Expr>>, row: seq<Datum>) {
    forall c :: 0 <= c < |eqs| ==> ClassHolds(eqs[c], row)
  }

  function SatisfiesEquivalences(eqs: seq<seq<SE.Expr>>): Update -> bool {
    (u: Update) => EquivalencesHold(eqs, u.row)
  }

  /// The joined rows the equivalences keep: exactly those on which every
  /// class agrees, as often as they were produced.
  lemma JoinFilterSpec(eqs: seq<seq<SE.Expr>>, rows: seq<Update>)
    ensures forall u :: (multiset(Keep(rows, SatisfiesEquivalences(eqs)))[u] ==
      if EquivalencesHold(eqs, u.row) then multiset(rows)[u] else 0)
    ensures eqs == [] ==> Keep(rows, SatisfiesEquivalences(eqs)) == rows
  {
    KeepCount(rows, SatisfiesEquivalences(eqs));
    if eqs == [] {
      KeepAll(rows, SatisfiesEquivalences(eqs));
    }
  }

  // ---------------------------------------------------------------------
  // FlatMap

  /// The table function's output rows for one input update: each appended
  /// to the input row, with the diffs multiplied.
  function Combine(u: Update, outs: seq<Update>): (r: seq<Update>)
    ensures |r| == |outs|
  {
    seq(|outs|, k requires 0 <= k < |outs| => TF.Update(u.row + outs[k].row, outs[k].diff * u.diff))
  }

  /// The table function's updates for one input row: the arguments'
  /// first error, the type error of an argument of the wrong kind, or the
  /// function's own result.
  function CallTable(func: TF.TableFunction, exprs: seq<SE.Expr>, row: seq<Datum>, render: Datum -> string): Result<seq<Update>> {
    match SE.EvalAll(exprs, row)
    case Err(e) => Err(e)
    case Ok(ds) =>
      if Null in ds || TF.WellTyped(func, ds) then TF.Eval(func, ds, render) else Err(SO.TypeMismatch)
  }

  /// `fold_flat_map_constant` from the rows `acc` gathered so far: an
  /// error stops it, and it gives up (Ok(None)) as soon as the rows would
  /// exceed the limit; no limit means no bound.
  function FlatMapFrom(func: TF.TableFunction, exprs: seq<SE.Expr>, us: seq<Update>, limit: Option<nat>,
                       render: Datum -> string, acc: seq<Update>): Result<Option<seq<Update>>>
    decreases |us|
  {
    if us == [] then Ok(Some(acc))
    else
      match CallTable(func, exprs, us[0].row, render)
      case Err(e) => Err(e)
      case Ok(outs) =>
        if limit.Some? && |acc| + |outs| > limit.value then Ok(None)
        else FlatMapFrom(func, exprs, us[1..], limit, render, acc + Combine(us[0], outs))
  }

  /// The limit only makes the fold give up: within the limit the result is
  /// the unlimited one, and the fold gives up exactly when the unlimited
  /// result is larger than the limit.
  lemma {:induction false} FlatMapLimit(func: TF.TableFunction, exprs: seq<SE.Expr>, us: seq<Update>, n: nat,
                                        render: Datum -> string, acc: seq<Update>)
    requires |acc| <= n
    ensures var all := FlatMapFrom(func, exprs, us, None, render, acc);
      all.Ok? && all.value.Some? ==> (|all.value.value| >= |acc| &&
        FlatMapFrom(func, exprs, us, Some(n), render, acc) == (if |all.value.value| <= n then all else Ok(None)))
    ensures var lim := FlatMapFrom(func, exprs, us, Some(n), render, acc);
      lim.Ok? && lim.value.Some? ==> lim == FlatMapFrom(func, exprs, us, None, render, acc)
    decreases |us|
  {
    if us != [] {
      var o := CallTable(func, exprs, us[0].row, render);
      if o.Ok? {
        var next := acc + Combine(us[0], o.value);
        if |next| <= n {
          FlatMapLimit(func, exprs, us[1..], n, render, next);
        } else {
          FlatMapGrows(func, exprs, us[1..], render, next);
        }
      }
    }
  }

  /// The unlimited fold never drops gathered rows.
  lemma {:induction false} FlatMapGrows(func: TF.TableFunction, exprs: seq<SE.Expr>, us: seq<Update>,
                                        render: Datum -> string, acc: seq<Update>)
    ensures var all := FlatMapFrom(func, exprs, us, None, render, acc);
      all.Ok? ==> all.value.Some? && acc <= all.value.value
    decreases |us|
  {
    if us != [] {
      var o := CallTable(func, exprs, us[0].row, render);
      if o.Ok? {
        FlatMapGrows(func, exprs, us[1..], render, acc + Combine(us[0], o.value));
      }
    }
  }

  /// Rows of `m + OutputArity(func)` columns, all with a positive diff
  /// when `positive` holds.
  predicate Shaped(vs: seq<Update>, m: nat, func: TF.TableFunction, positive: bool) {
    forall p :: 0 <= p < |vs| ==> |vs[p].row| == m + TF.OutputArity(func) && (positive ==> vs[p].diff > 0)
  }

  /// The table function's rows have its arity, and multiplicity one when
  /// it preserves monotonicity.
  lemma CallTableShape(func: TF.TableFunction, exprs: seq<SE.Expr>, row: seq<Datum>, render: Datum -> string)
    ensures var o := CallTable(func, exprs, row, render);
      o.Ok? ==> forall u :: u in o.value ==> |u.row| == TF.OutputArity(func) && (TF.PreservesMonotonicity(func) ==> u.diff == 1)
  {
  }

  /// Every row the fold adds extends an input row of `m` columns by the
  /// table function's arity; when the function preserves monotonicity, it
  /// turns positive input diffs into positive output diffs.
  lemma {:induction false} FlatMapShape(func: TF.TableFunction, exprs: seq<SE.Expr>, us: seq<Update>,
                                        limit: Option<nat>, render: Datum -> string, acc: seq<Update>,
                                        m: nat, positive: bool)
    requires forall i :: 0 <= i < |us| ==> |us[i].row| == m
    requires positive ==> TF.PreservesMonotonicity(func) && forall i :: 0 <= i < |us| ==> us[i].diff > 0
    ensures var r := FlatMapFrom(func, exprs, us, limit, render, acc);
      r.Ok? && r.value.Some? ==> acc <= r.value.value && Shaped(r.value.value[|acc|..], m, func, positive)
    decreases |us|
  {
    var r := FlatMapFrom(func, exprs, us, limit, render, acc);
    if us != [] && r.Ok? && r.value.Some? {
      var o := CallTable(func, exprs, us[0].row, render);
      var c := Combine(us[0], o.value);
      var next := acc + c;
      FlatMapStep(func, exprs, us, limit, render, acc);
      FlatMapShape(func, exprs, us[1..], limit, render, next, m, positive);
      CombineShape(func, exprs, us[0], render, m, positive);
      var all := r.value.value;
      PrefixSlice(acc, c, all);
      ShapedAppend(c, all[|next|..], m, func, positive);
    }
  }

  lemma PrefixSlice<T>(a: seq<T>, c: seq<T>, all: seq<T>)
    requires a + c <= all
    ensures a <= all && all[|a|..] == c + all[|a + c|..]
  {
    assert all[..|a|] == (a + c)[..|a|] == a;
  }

  /// One step of the fold: the first update's rows are gathered.
  lemma FlatMapStep(func: TF.TableFunction, exprs: seq<SE.Expr>, us: seq<Update>, limit: Option<nat>,
                    render: Datum -> string, acc: seq<Update>)
    requires us != []
    ensures var o := CallTable(func, exprs, us[0].row, render);
      FlatMapFrom(func, exprs, us, limit, render, acc) ==
        if o.Err? then Err(o.error)
        else if limit.Some? && |acc| + |o.value| > limit.value then Ok(None)
        else FlatMapFrom(func, exprs, us[1..], limit, render, acc + Combine(us[0], o.value))
  {
  }

  /// The rows one input update contributes are shaped.
  lemma CombineShape(func: TF.TableFunction, exprs: seq<SE.Expr>, u: Update, render: Datum -> string,
                     m: nat, positive: bool)
    requires |u.row| == m
    requires positive ==> TF.PreservesMonotonicity(func) && u.diff > 0
    ensures var o := CallTable(func, exprs, u.row, render);
      o.Ok? ==> Shaped(Combine(u, o.value), m, func, positive)
  {
    var o := CallTable(func, exprs, u.row, render);
    if o.Ok? {
      CallTableShape(func, exprs, u.row, render);
      var outs := o.value;
      var c := Combine(u, outs);
      forall p | 0 <= p < |c| ensures |c[p].row| == m + TF.OutputArity(func) && (positive ==> c[p].diff > 0) {
        assert outs[p] in outs;
      }
    }
  }

  lemma ShapedAppend(a: seq<Update>, b: seq<Update>, m: nat, func: TF.TableFunction, positive: bool)
    requires Shaped(a, m, func, positive) && Shaped(b, m, func, positive)
    ensures Shaped(a + b, m, func, positive)
  {
    forall p | 0 <= p < |a + b|
      ensures |(a + b)[p].row| == m + TF.OutputArity(func) && (positive ==> (a + b)[p].diff > 0)
    {
      if p < |a| { assert (a + b)[p] == a[p]; } else { assert (a + b)[p] == b[p - |a|]; }
    }
  }

  /// Appends the output rows of one input update while the limit allows;
  /// `exhausted` reports an output row left over.
  method AppendWithin(start: seq<Update>, u: Update, rows: seq<Update>, limit: Option<nat>)
    returns (newRows: seq<Update>, exhausted: bool)
    requires limit.Some? ==> |start| <= limit.value
    ensures exhausted <==> limit.Some? && |start| + |rows| > limit.value
    ensures !exhausted ==> newRows == start + Combine(u, rows)
  {
    newRows := start;
    var k := 0;
    while k < |rows| && (limit.None? || |newRows| < limit.value)
      invariant 0 <= k <= |rows|
      invariant newRows == start + Combine(u, rows)[..k]
      invariant limit.Some? ==> |start| + k <= limit.value
    {
      assert Combine(u, rows)[..k + 1] == Combine(u, rows)[..k] + [Combine(u, rows)[k]];
      newRows := newRows + [TF.Update(u.row + rows[k].row, rows[k].diff * u.diff)];
      k := k + 1;
    }
    exhausted := k < |rows|;
    assert Combine(u, rows)[..|rows|] == Combine(u, rows);
  }

  /// The source's loop: per input row, the table function's output rows
  /// are appended while the limit allows; one left over means giving up.
  method FlatMapLoop(func: TF.TableFunction, exprs: seq<SE.Expr>, us: seq<Update>, limit: Option<nat>,
                     render: Datum -> string) returns (r: Result<Option<seq<Update>>>)
    ensures r == FlatMapFrom(func, exprs, us, limit, render, [])
  {
    var newRows: seq<Update> := [];
    var i := 0;
    assert us[0..] == us;
    while i < |us|
      invariant 0 <= i <= |us|
      invariant limit.Some? ==> |newRows| <= limit.value
      invariant FlatMapFrom(func, exprs, us, limit, render, []) == FlatMapFrom(func, exprs, us[i..], limit, render, newRows)
    {
      var res, stop;
      res, newRows, stop := FlatMapRow(func, exprs, us[i..], limit, render, newRows);
      if stop {
        return res;
      }
      i := i + 1;
    }
    r := Ok(Some(newRows));
  }

  /// The body of the source's loop for the first remaining input row.
  method FlatMapRow(func: TF.TableFunction, exprs: seq<SE.Expr>, us: seq<Update>, limit: Option<nat>,
                    render: Datum -> string, acc: seq<Update>)
    returns (res: Result<Option<seq<Update>>>, next: seq<Update>, stop: bool)
    requires us != [] && (limit.Some? ==> |acc| <= limit.value)
    ensures stop ==> res == FlatMapFrom(func, exprs, us, limit, render, acc)
    ensures !stop ==> limit.Some? ==> |next| <= limit.value
    ensures !stop ==> FlatMapFrom(func, exprs, us, limit, render, acc) == FlatMapFrom(func, exprs, us[1..], limit, render, next)
  {
    FlatMapStep(func, exprs, us, limit, render, acc);
    next := acc;
    var outs := CallTable(func, exprs, us[0].row, render);
    if outs.Err? {
      return Err(outs.error), acc, true;
    }
    var exhausted;
    next, exhausted := AppendWithin(acc, us[0], outs.value, limit);
    if exhausted {
      return Ok(None), next, true;
    }
    res, stop := Ok(None), false;
  }

  // ---------------------------------------------------------------------
  // Reduce

  /// The `assert!` that guards `fold_reduce_constant` against retractions.
  const NonPositiveReduce: EvalError :=
    Internal("constant folding encountered reduce on collection with non-positive multiplicities")

  function AggExprs(aggs: seq<RE.AggregateExpr>): (r: seq<SE.Expr>)
    ensures |r| == |aggs| && forall a :: 0 <= a < |aggs| ==> r[a] == aggs[a].expr
  {
    seq(|aggs|, a requires 0 <= a < |aggs| => aggs[a].expr)
  }

  lemma {:induction false} EvalAllLength(args: seq<SE.Expr>, row: seq<Datum>)
    ensures SE.EvalAll(args, row).Ok? ==> |SE.EvalAll(args, row).value| == |args|
    decreases |args|
  {
    if args != [] {
      EvalAllLength(args[1..], row);
    }
  }

  /// One input row's share in a reduction: its group key, the arguments
  /// of its aggregates, and how many times it occurs.
  datatype Contribution = Contribution(key: seq<Datum>, val: seq<Datum>, copies: nat)

  /// Each row's key and aggregate arguments, in row order; the first
  /// non-positive diff or evaluation error stops the fold (the key is
  /// evaluated before the arguments).
  function Contributions(groupKey: seq<SE.Expr>, aggs: seq<RE.AggregateExpr>, us: seq<Update>): (r: Result<seq<Contribution>>)
    ensures r.Ok? ==> |r.value| == |us| && forall i :: 0 <= i < |us| ==>
      us[i].diff > 0 && r.value[i].copies == us[i].diff && SE.EvalAll(groupKey, us[i].row) == Ok(r.value[i].key)
      && SE.EvalAll(AggExprs(aggs), us[i].row) == Ok(r.value[i].val)
    ensures (exists i :: 0 <= i < |us| && us[i].diff <= 0) ==> r.Err?
  {
    if us == [] then Ok([])
    else if us[0].diff <= 0 then Err(NonPositiveReduce)
    else
      match SE.EvalAll(groupKey, us[0].row)
      case Err(e) => Err(e)
      case Ok(key) =>
        match SE.EvalAll(AggExprs(aggs), us[0].row)
        case Err(e) => Err(e)
        case Ok(val) =>
          assert forall i :: 1 <= i < |us| ==> us[i] == us[1..][i - 1];
          Prepend([Contribution(key, val, us[0].diff)], Contributions(groupKey, aggs, us[1..]))
  }

  /// One step of `Contributions`: the first row, then the rest.
  lemma ContributionsStep(groupKey: seq<SE.Expr>, aggs: seq<RE.AggregateExpr>, us: seq<Update>)
    requires us != []
    ensures us[0].diff <= 0 ==> Contributions(groupKey, aggs, us) == Err(NonPositiveReduce)
    ensures us[0].diff > 0 && SE.EvalAll(groupKey, us[0].row).Err? ==>
      Contributions(groupKey, aggs, us) == Err(SE.EvalAll(groupKey, us[0].row).error)
    ensures us[0].diff > 0 && SE.EvalAll(groupKey, us[0].row).Ok? && SE.EvalAll(AggExprs(aggs), us[0].row).Err? ==>
      Contributions(groupKey, aggs, us) == Err(SE.EvalAll(AggExprs(aggs), us[0].row).error)
    ensures us[0].diff > 0 && SE.EvalAll(groupKey, us[0].row).Ok? && SE.EvalAll(AggExprs(aggs), us[0].row).Ok? ==>
      Contributions(groupKey, aggs, us) == Prepend([Contribution(SE.EvalAll(groupKey, us[0].row).value,
        SE.EvalAll(AggExprs(aggs), us[0].row).value, us[0].diff)], Contributions(groupKey, aggs, us[1..]))
  {
  }

  /// `n` copies of a value.
  function Copies(v: seq<Datum>, n: nat): (r: seq<seq<Datum>>)
    ensures |r| == n && forall k :: 0 <= k < n ==> r[k] == v
  {
    seq(n, _ => v)
  }

  /// One entry of the ordered map from group keys to the aggregate
  /// arguments pushed for that key.
  datatype Group = Group(key: seq<Datum>, vals: seq<seq<Datum>>)

  function KeysOf(gs: seq<Group>): (r: seq<seq<Datum>>)
    ensures |r| == |gs| && forall i :: 0 <= i < |gs| ==> r[i] == gs[i].key
  {
    seq(|gs|, i requires 0 <= i < |gs| => gs[i].key)
  }

  /// The keys of the map ascend strictly, as those of a `BTreeMap` do.
  predicate GroupsSorted(gs: seq<Group>) {
    forall i, j :: 0 <= i < j < |gs| ==> RowLt(gs[i].key, gs[j].key)
  }

  /// The values stored under `k`, none if the key is absent.
  function Lookup(gs: seq<Group>, k: seq<Datum>): seq<seq<Datum>> {
    if gs == [] then [] else if gs[0].key == k then gs[0].vals else Lookup(gs[1..], k)
  }

  /// `groups.entry(key).or_insert_with(Vec::new)` followed by pushing `vs`.
  function AddGroup(gs: seq<Group>, key: seq<Datum>, vs: seq<seq<Datum>>): seq<Group> {
    if gs == [] then [Group(key, vs)]
    else if gs[0].key == key then [Group(key, gs[0].vals + vs)] + gs[1..]
    else if RowLt(key, gs[0].key) then [Group(key, vs)] + gs
    else [gs[0]] + AddGroup(gs[1..], key, vs)
  }

  lemma {:induction false} LookupAbsent(gs: seq<Group>, k: seq<Datum>)
    requires k !in KeysOf(gs)
    ensures Lookup(gs, k) == []
    decreases |gs|
  {
    if gs != [] {
      assert KeysOf(gs[1..]) == KeysOf(gs)[1..];
      LookupAbsent(gs[1..], k);
    }
  }

  lemma {:induction false} LookupSorted(gs: seq<Group>, i: nat)
    requires GroupsSorted(gs) && i < |gs|
    ensures Lookup(gs, gs[i].key) == gs[i].vals
    decreases |gs|
  {
    if i > 0 {
      RowLtFacts(gs[0].key, gs[i].key, gs[i].key);
      assert gs[1..][i - 1] == gs[i];
      LookupSorted(gs[1..], i - 1);
    }
  }

  /// What adding `vs` under `key` to `gs` promises.
  ghost predicate AddsGroup(gs: seq<Group>, key: seq<Datum>, vs: seq<seq<Datum>>, r: seq<Group>) {
    && GroupsSorted(r)
    && (forall k :: k in KeysOf(r) <==> k in KeysOf(gs) || k == key)
    && (forall k :: Lookup(r, k) == Lookup(gs, k) + (if k == key then vs else []))
  }

  /// Adding to the map keeps its keys ascending, adds `key` to them, and
  /// appends `vs` to the values under `key` only.
  lemma {:induction false} AddGroupSpec(gs: seq<Group>, key: seq<Datum>, vs: seq<seq<Datum>>)
    requires GroupsSorted(gs)
    ensures GroupsSorted(AddGroup(gs, key, vs))
    ensures forall k :: k in KeysOf(AddGroup(gs, key, vs)) <==> k in KeysOf(gs) || k == key
    ensures forall k :: Lookup(AddGroup(gs, key, vs), k) == Lookup(gs, k) + (if k == key then vs else [])
    decreases |gs|
  {
    var r := AddGroup(gs, key, vs);
    if gs == [] {
      assert KeysOf(r) == [key];
    } else if gs[0].key == key {
      assert KeysOf(r) == KeysOf(gs);
      assert r[1..] == gs[1..];
    } else if RowLt(key, gs[0].key) {
      AddGroupFront(gs, key, vs);
    } else {
      assert GroupsSorted(gs[1..]);
      AddGroupSpec(gs[1..], key, vs);
      AddGroupLater(gs, key, vs);
    }
  }

  lemma AddGroupFront(gs: seq<Group>, key: seq<Datum>, vs: seq<seq<Datum>>)
    requires GroupsSorted(gs) && gs != [] && RowLt(key, gs[0].key)
    ensures AddsGroup(gs, key, vs, AddGroup(gs, key, vs))
  {
    RowLtFacts(key, key, key);
    var r := [Group(key, vs)] + gs;
    assert AddGroup(gs, key, vs) == r;
    assert key !in KeysOf(gs) by {
      forall j | 0 <= j < |gs| ensures gs[j].key != key {
        RowLtFacts(key, gs[0].key, gs[j].key);
      }
    }
    LookupAbsent(gs, key);
    ConsSorted(Group(key, vs), gs);
    ConsKeys(Group(key, vs), gs);
    ConsLookups(Group(key, vs), gs);
  }

  lemma ConsSorted(g: Group, gs: seq<Group>)
    requires GroupsSorted(gs) && gs != [] && RowLt(g.key, gs[0].key)
    ensures GroupsSorted([g] + gs)
  {
    var r := [g] + gs;
    forall i, j | 0 <= i < j < |r| ensures RowLt(r[i].key, r[j].key) {
      if i == 0 {
        RowLtFacts(g.key, gs[0].key, r[j].key);
      } else {
        assert r[i] == gs[i - 1] && r[j] == gs[j - 1];
      }
    }
  }

  lemma ConsKeys(g: Group, gs: seq<Group>)
    ensures forall k :: k in KeysOf([g] + gs) <==> k == g.key || k in KeysOf(gs)
  {
    assert KeysOf([g] + gs) == [g.key] + KeysOf(gs);
  }

  lemma ConsLookups(g: Group, gs: seq<Group>)
    ensures forall k :: Lookup([g] + gs, k) == if k == g.key then g.vals else Lookup(gs, k)
  {
    assert ([g] + gs)[1..] == gs;
  }

  lemma AddGroupLater(gs: seq<Group>, key: seq<Datum>, vs: seq<seq<Datum>>)
    requires GroupsSorted(gs) && gs != [] && gs[0].key != key && !RowLt(key, gs[0].key)
    requires AddsGroup(gs[1..], key, vs, AddGroup(gs[1..], key, vs))
    ensures AddsGroup(gs, key, vs, AddGroup(gs, key, vs))
  {
    var t := gs[1..];
    var rest := AddGroup(t, key, vs);
    assert gs == [gs[0]] + t;
    assert AddGroup(gs, key, vs) == [gs[0]] + rest;
    ConsKeys(gs[0], t);
    ConsKeys(gs[0], rest);
    ConsLookups(gs[0], t);
    ConsLookups(gs[0], rest);
    RowLtFacts(gs[0].key, key, key);
    assert forall m :: 0 <= m < |t| ==> RowLt(gs[0].key, t[m].key);
    LaterSorted(gs[0], rest, t, key);
  }

  lemma LaterSorted(g: Group, rest: seq<Group>, t: seq<Group>, key: seq<Datum>)
    requires GroupsSorted(rest) && RowLt(g.key, key)
    requires forall m :: 0 <= m < |t| ==> RowLt(g.key, t[m].key)
    requires forall k :: k in KeysOf(rest) ==> k in KeysOf(t) || k == key
    ensures GroupsSorted([g] + rest)
  {
    var r := [g] + rest;
    forall i, j | 0 <= i < j < |r| ensures RowLt(r[i].key, r[j].key) {
      if i == 0 {
        assert r[j] == rest[j - 1];
        assert rest[j - 1].key in KeysOf(rest);
        if rest[j - 1].key != key {
          var m :| 0 <= m < |t| && t[m].key == rest[j - 1].key;
        }
      } else {
        assert r[i] == rest[i - 1] && r[j] == rest[j - 1];
      }
    }
  }

  /// The map after pushing each contribution in turn.
  function Grouped(cs: seq<Contribution>): seq<Group>
    decreases |cs|
  {
    if cs == [] then []
    else
      var c := cs[|cs| - 1];
      AddGroup(Grouped(cs[..|cs| - 1]), c.key, Copies(c.val, c.copies))
  }

  lemma GroupedSnoc(cs: seq<Contribution>, c: Contribution)
    ensures Grouped(cs + [c]) == AddGroup(Grouped(cs), c.key, Copies(c.val, c.copies))
  {
    assert (cs + [c])[..|cs|] == cs;
  }

  /// Every contribution with key `k`, in row order, each repeated as often
  /// as its row occurs.
  function Collect(cs: seq<Contribution>, k: seq<Datum>): seq<seq<Datum>>
    decreases |cs|
  {
    if cs == [] then []
    else
      var c := cs[|cs| - 1];
      Collect(cs[..|cs| - 1], k) + (if c.key == k then Copies(c.val, c.copies) else [])
  }

  function ContributionKeys(cs: seq<Contribution>): (r: seq<seq<Datum>>)
    ensures |r| == |cs| && forall i :: 0 <= i < |cs| ==> r[i] == cs[i].key
  {
    seq(|cs|, i requires 0 <= i < |cs| => cs[i].key)
  }

  /// The grouping holds one entry per distinct key, keys ascending, and
  /// under each key exactly the arguments of the rows with that key, in row
  /// order and with their multiplicities.
  lemma {:induction false} GroupedSpec(cs: seq<Contribution>)
    ensures GroupsSorted(Grouped(cs))
    ensures forall k :: k in KeysOf(Grouped(cs)) <==> k in ContributionKeys(cs)
    ensures forall k :: Lookup(Grouped(cs), k) == Collect(cs, k)
    decreases |cs|
  {
    if cs != [] {
      var n := |cs| - 1;
      var c := cs[n];
      GroupedSpec(cs[..n]);
      AddGroupSpec(Grouped(cs[..n]), c.key, Copies(c.val, c.copies));
      assert ContributionKeys(cs) == ContributionKeys(cs[..n]) + [c.key];
    }
  }

  /// The aggregate's argument column: the `i`-th argument of every pushed
  /// value.
  function AggColumn(vals: seq<seq<Datum>>, i: nat): (r: seq<Datum>)
    ensures |r| == |vals|
  {
    seq(|vals|, j requires 0 <= j < |vals| => if i < |vals[j]| then vals[j][i] else Null)
  }

  /// The distinct datums, each at its first occurrence.
  function Dedup(ds: seq<Datum>): (r: seq<Datum>)
    ensures forall x :: x in r <==> x in ds
    ensures forall i, j :: 0 <= i < j < |r| ==> r[i] != r[j]
    decreases |ds|
  {
    if ds == [] then []
    else
      var d := Dedup(ds[..|ds| - 1]);
      assert ds == ds[..|ds| - 1] + [ds[|ds| - 1]];
      if ds[|ds| - 1] in d then d else d + [ds[|ds| - 1]]
  }

  /// One aggregate over its column; a `distinct` aggregate sees each value
  /// once. Arguments the function cannot take are the source's panic.
  function AggValue(agg: RE.AggregateExpr, col: seq<Datum>): Result<Datum> {
    var ds := if agg.distinct then Dedup(col) else col;
    if AG.AcceptsAll(agg.func, ds) then Ok(AG.Eval(agg.func, ds)) else Err(SO.TypeMismatch)
  }

  /// The first `n` aggregates over the group's values.
  function AggResults(aggs: seq<RE.AggregateExpr>, vals: seq<seq<Datum>>, n: nat): (r: Result<seq<Datum>>)
    requires n <= |aggs|
    ensures r.Ok? ==> |r.value| == n && forall a :: 0 <= a < n ==> AggValue(aggs[a], AggColumn(vals, a)) == Ok(r.value[a])
  {
    if n == 0 then Ok([])
    else
      match AggResults(aggs, vals, n - 1)
      case Err(e) => Err(e)
      case Ok(rs) =>
        match AggValue(aggs[n - 1], AggColumn(vals, n - 1))
        case Err(e) => Err(e)
        case Ok(d) =>
          assert forall a :: 0 <= a < n - 1 ==> (rs + [d])[a] == rs[a];
          Ok(rs + [d])
  }

  /// One output row per group: its key followed by its aggregates, once.
  function OutputRows(gs: seq<Group>, aggs: seq<RE.AggregateExpr>): (r: Result<seq<Update>>)
    ensures r.Ok? ==> |r.value| == |gs| && forall i :: 0 <= i < |gs| ==>
      AggResults(aggs, gs[i].vals, |aggs|).Ok? && r.value[i] == TF.Update(gs[i].key + AggResults(aggs, gs[i].vals, |aggs|).value, 1)
  {
    if gs == [] then Ok([])
    else
      var first := AggResults(aggs, gs[0].vals, |aggs|);
      if first.Err? then Err(first.error)
      else
        var rest := OutputRows(gs[1..], aggs);
        if rest.Err? then Err(rest.error)
        else
          var u := TF.Update(gs[0].key + first.value, 1);
          assert forall i :: 1 <= i < |gs| ==> gs[i] == gs[1..][i - 1] && ([u] + rest.value)[i] == rest.value[i - 1];
          Ok([u] + rest.value)
  }

  /// `fold_reduce_constant`.
  function ReduceRows(groupKey: seq<SE.Expr>, aggs: seq<RE.AggregateExpr>, us: seq<Update>): Result<seq<Update>> {
    match Contributions(groupKey, aggs, us)
    case Err(e) => Err(e)
    case Ok(cs) => OutputRows(Grouped(cs), aggs)
  }

  /// A reduction yields one row per distinct group key of its input, keys
  /// ascending, each once: the key followed by every aggregate over exactly
  /// the arguments of the input rows with that key, in row order and with
  /// their multiplicities.
  lemma ReduceSpec(groupKey: seq<SE.Expr>, aggs: seq<RE.AggregateExpr>, us: seq<Update>, cs: seq<Contribution>)
    requires Contributions(groupKey, aggs, us) == Ok(cs)
    ensures var r := ReduceRows(groupKey, aggs, us);
      var gs := Grouped(cs);
      r.Ok? ==> (|r.value| == |gs| && GroupsSorted(gs)
        && (forall k :: k in KeysOf(gs) <==> k in ContributionKeys(cs))
        && forall i :: 0 <= i < |gs| ==> (
          var row := r.value[i].row;
          r.value[i].diff == 1 && |row| == |gs[i].key| + |aggs| && row[..|gs[i].key|] == gs[i].key
          && forall a :: 0 <= a < |aggs| ==>
            AggValue(aggs[a], AggColumn(Collect(cs, gs[i].key), a)) == Ok(row[|gs[i].key| + a])))
  {
    var gs := Grouped(cs);
    GroupedSpec(cs);
    var r := ReduceRows(groupKey, aggs, us);
    if r.Ok? {
      forall i | 0 <= i < |gs| ensures Collect(cs, gs[i].key) == gs[i].vals {
        LookupSorted(gs, i);
      }
    }
  }

  /// `for _ in 0..diff { entry.push(val.clone()) }`.
  method PushCopies(v: seq<Datum>, n: nat) returns (pushes: seq<seq<Datum>>)
    ensures pushes == Copies(v, n)
  {
    pushes := [];
    var j := 0;
    while j < n
      invariant 0 <= j <= n
      invariant pushes == Copies(v, j)
    {
      pushes := pushes + [v];
      j := j + 1;
    }
  }

  /// The source's loop: per input row, the multiplicity check, the key,
  /// the aggregate arguments, and `diff` pushes into the key's entry; then
  /// one output row per entry.
  method ReduceLoop(groupKey: seq<SE.Expr>, aggs: seq<RE.AggregateExpr>, us: seq<Update>) returns (r: Result<seq<Update>>)
    ensures r == ReduceRows(groupKey, aggs, us)
  {
    var groups: seq<Group> := [];
    ghost var cs: seq<Contribution> := [];
    var i := 0;
    assert us[0..] == us;
    PrependStep([], [], Contributions(groupKey, aggs, us));
    while i < |us|
      invariant 0 <= i <= |us|
      invariant Contributions(groupKey, aggs, us) == Prepend(cs, Contributions(groupKey, aggs, us[i..]))
      invariant groups == Grouped(cs)
    {
      var u := us[i];
      assert us[i..][0] == u && us[i..][1..] == us[i + 1..];
      ContributionsStep(groupKey, aggs, us[i..]);
      if u.diff <= 0 {
        return Err(NonPositiveReduce);
      }
      var key := SE.EvalAll(groupKey, u.row);
      if key.Err? {
        return Err(key.error);
      }
      var val := SE.EvalAll(AggExprs(aggs), u.row);
      if val.Err? {
        return Err(val.error);
      }
      var pushes := PushCopies(val.value, u.diff);
      groups := AddGroup(groups, key.value, pushes);
      var c := Contribution(key.value, val.value, u.diff);
      PrependStep(cs, [c], Contributions(groupKey, aggs, us[i + 1..]));
      GroupedSnoc(cs, c);
      cs := cs + [c];
      i := i + 1;
    }
    PrependStep(cs, [], Ok([]));
    r := OutputRows(groups, aggs);
  }
}
