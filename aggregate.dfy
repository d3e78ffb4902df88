// Aggregate functions over the datums of one group: the Null-ignoring
// minimum, maximum, sum and count, the three-valued `any`/`all` folds, and
// the order-sensitive aggregates, whose inputs are lists holding the value
// followed by its ORDER BY columns.
//
// Every `unwrap_*` the source applies to an input panics on a datum of
// another kind; `Accepts` states what each aggregate demands of its
// inputs, and `Eval` requires it.

module Aggregate {
  import opened Datums
  import opened IntArith
  import opened Sorting
  import opened EntrySort
  import opened OrderBy
  import O = DatumOrder
  import SO = ScalarOps
  import SF = StringFunc
  import R = Repr

  datatype AggregateFunc =
    | MaxInt(w: Width)
    | MaxBool
    | MaxString
    | MinInt(w: Width)
    | MinBool
    | MinString
    | SumInt16
    | SumInt32
    | SumInt64
    | Count
    | Any
    | All
    | JsonbAgg(orderBy: seq<ColumnOrder>)
    | JsonbObjectAgg(orderBy: seq<ColumnOrder>)
    | ArrayConcat(orderBy: seq<ColumnOrder>)
    | ListConcat(orderBy: seq<ColumnOrder>)
    | StringAgg(orderBy: seq<ColumnOrder>)
    | Dummy

  predicate OrderSensitive(f: AggregateFunc) {
    f.JsonbAgg? || f.JsonbObjectAgg? || f.ArrayConcat? || f.ListConcat? || f.StringAgg?
  }

  /// A `jsonb_object_agg` value: Null, or a list starting with a key (Null
  /// or a string) and its value.
  predicate ObjectInput(v: Datum) {
    v.Null? || (v.List? && |v.elems| >= 2 && (v.elems[0].Null? || v.elems[0].String?))
  }

  /// A `string_agg` value: Null, or a list of a value and a separator, the
  /// value Null or a string and, for a string value, the separator too.
  predicate StringAggInput(v: Datum) {
    v.Null? || (v.List? && |v.elems| >= 2 && (v.elems[0].Null? || (v.elems[0].String? && (v.elems[1].Null? || v.elems[1].String?))))
  }

  /// What the aggregated value (the first element of an order-sensitive
  /// input) must be.
  predicate AcceptsValue(f: AggregateFunc, v: Datum) {
    if f.JsonbObjectAgg? then ObjectInput(v)
    else if f.ArrayConcat? then v.Array?
    else if f.ListConcat? then v.List?
    else if f.StringAgg? then StringAggInput(v)
    else true
  }

  /// An input of an order-sensitive aggregate: the value, then its ORDER BY
  /// columns.
  predicate OrderedInput(f: AggregateFunc, d: Datum) {
    d.List? && |d.elems| >= 1 && AcceptsValue(f, d.elems[0])
  }

  predicate IntOrNull(w: Width, d: Datum) {
    d.Null? || SO.AsInt(w, d).Some?
  }

  /// An input of an order-insensitive aggregate.
  predicate PlainInput(f: AggregateFunc, d: Datum) {
    if f.MaxInt? || f.MinInt? then IntOrNull(f.w, d)
    else if f.MaxBool? || f.MinBool? then d.Null? || d.Bool?
    else if f.MaxString? || f.MinString? then d.Null? || d.String?
    else if f.SumInt16? then IntOrNull(W16, d)
    else if f.SumInt32? then IntOrNull(W32, d)
    else if f.SumInt64? then IntOrNull(W64, d)
    else true
  }

  /// The inputs an aggregate accepts without panicking.
  predicate Accepts(f: AggregateFunc, d: Datum) {
    if OrderSensitive(f) then OrderedInput(f, d) else PlainInput(f, d)
  }

  predicate AcceptsAll(f: AggregateFunc, ds: seq<Datum>) {
    forall i :: 0 <= i < |ds| ==> Accepts(f, ds[i])
  }

  // ---------------------------------------------------------------------
  // Null-ignoring aggregates

  /// The inputs with every Null dropped.
  function NonNull(ds: seq<Datum>): (r: seq<Datum>)
    ensures |r| <= |ds|
    ensures forall i :: 0 <= i < |r| ==> !r[i].Null? && r[i] in ds
  {
    if ds == [] then [] else if ds[0].Null? then NonNull(ds[1..]) else [ds[0]] + NonNull(ds[1..])
  }

  /// The Null filter keeps each non-Null input as often as it occurs and in
  /// its order.
  lemma {:induction false} NonNullKeeps(ds: seq<Datum>)
    ensures multiset(NonNull(ds)) == multiset(ds)[Null := 0]
    ensures IsSubsequence(NonNull(ds), ds)
  {
    if ds != [] {
      var rest := NonNull(ds[1..]);
      NonNullKeeps(ds[1..]);
      assert ds == [ds[0]] + ds[1..];
      if ds[0].Null? {
        assert rest != [] ==> rest[0] in rest;
      } else {
        assert ([ds[0]] + rest)[1..] == rest;
      }
    }
  }

  /// The greatest (or least) non-Null datum, or Null when there is none.
  function Extreme(ds: seq<Datum>, wantMax: bool): Datum {
    if ds == [] then Null
    else
      var m := Extreme(ds[1..], wantMax);
      if ds[0].Null? then m
      else if m.Null? then ds[0]
      else if (if wantMax then O.Le(m, ds[0]) else O.Le(ds[0], m)) then ds[0]
      else m
  }

  lemma {:induction false} ExtremeSpec(ds: seq<Datum>, wantMax: bool)
    ensures Extreme(ds, wantMax).Null? <==> forall i :: 0 <= i < |ds| ==> ds[i].Null?
    ensures !Extreme(ds, wantMax).Null? ==> Extreme(ds, wantMax) in ds
    ensures forall i :: 0 <= i < |ds| && !ds[i].Null? ==>
      if wantMax then O.Le(ds[i], Extreme(ds, wantMax)) else O.Le(Extreme(ds, wantMax), ds[i])
  {
    if ds != [] {
      ExtremeSpec(ds[1..], wantMax);
      var m := Extreme(ds[1..], wantMax);
      var r := Extreme(ds, wantMax);
      assert forall i :: 1 <= i < |ds| ==> ds[i] == ds[1..][i - 1];
      forall i | 0 <= i < |ds| && !ds[i].Null?
        ensures if wantMax then O.Le(ds[i], r) else O.Le(r, ds[i])
      {
        O.DatumTotalOrder(ds[i], m, ds[0]);
        O.DatumTotalOrder(ds[0], m, ds[i]);
        O.DatumTotalOrder(ds[i], ds[i], ds[i]);
        O.DatumTotalOrder(m, ds[0], ds[0]);
      }
    }
  }

  function IntSum(w: Width, ds: seq<Datum>): int
    requires forall i :: 0 <= i < |ds| ==> IntOrNull(w, ds[i])
  {
    if ds == [] then 0
    else
      assert IntOrNull(w, ds[0]);
      (if ds[0].Null? then 0 else SO.AsInt(w, ds[0]).value) + IntSum(w, ds[1..])
  }

  /// The `any` fold step: True dominates, then Null, else False.
  function AnyStep(state: Datum, next: Datum): Datum {
    if state == Bool(true) || next == Bool(true) then Bool(true)
    else if state.Null? || next.Null? then Null
    else Bool(false)
  }

  /// The `all` fold step: False dominates, then Null, else True.
  function AllStep(state: Datum, next: Datum): Datum {
    if state == Bool(false) || next == Bool(false) then Bool(false)
    else if state.Null? || next.Null? then Null
    else Bool(true)
  }

  function Fold(isAny: bool, state: Datum, ds: seq<Datum>): Datum
    decreases |ds|
  {
    if ds == [] then state
    else Fold(isAny, if isAny then AnyStep(state, ds[0]) else AllStep(state, ds[0]), ds[1..])
  }

  // ---------------------------------------------------------------------
  // Order-sensitive aggregates

  /// The value and ORDER BY row of one input (a datum that is no list
  /// holding a value is never passed by `Eval`).
  function Split(d: Datum): Keyed<Datum> {
    if d.List? && |d.elems| >= 1 then Keyed(d.elems[0], d.elems[1..]) else Keyed(Null, [])
  }

  function Keyeds(ds: seq<Datum>): (r: seq<Keyed<Datum>>)
    ensures |r| == |ds|
    ensures forall i :: 0 <= i < |ds| ==> r[i] == Split(ds[i])
  {
    if ds == [] then [] else [Split(ds[0])] + Keyeds(ds[1..])
  }

  function Items(ks: seq<Keyed<Datum>>): (r: seq<Datum>)
    ensures |r| == |ks|
    ensures forall i :: 0 <= i < |ks| ==> r[i] == ks[i].item
  {
    if ks == [] then [] else [ks[0].item] + Items(ks[1..])
  }

  /// `order_aggregate_datums`: the aggregated values, stably sorted by
  /// their ORDER BY rows.
  function OrderAggregateDatums(ds: seq<Datum>, order: seq<ColumnOrder>): (r: seq<Datum>)
  {
    Items(SortBy(Keyeds(ds), RowLe(order)))
  }

  /// The sorted values are the values of a permutation of the inputs, in
  /// ORDER BY order, and inputs with the same ORDER BY row keep their input
  /// order.
  lemma OrderAggregateSpec(ds: seq<Datum>, order: seq<ColumnOrder>, c: Keyed<Datum>)
    ensures var sorted := SortBy(Keyeds(ds), RowLe(order));
      OrderAggregateDatums(ds, order) == Items(sorted) && multiset(sorted) == multiset(Keyeds(ds))
      && SortedBy(sorted, RowLe(order))
      && Class(sorted, RowLe(order), c) == Class(Keyeds(ds), RowLe(order), c)
  {
    RowLeOrder<Datum>(order);
    SortBySorted(Keyeds(ds), RowLe(order));
    SortByStable(Keyeds(ds), RowLe(order), c);
  }

  /// Every sorted value is the value of one of the inputs.
  lemma OrderedAccepted(f: AggregateFunc, ds: seq<Datum>)
    requires OrderSensitive(f) && AcceptsAll(f, ds)
    ensures forall i :: 0 <= i < |OrderAggregateDatums(ds, f.orderBy)| ==>
      AcceptsValue(f, OrderAggregateDatums(ds, f.orderBy)[i])
  {
    var sorted := SortBy(Keyeds(ds), RowLe(f.orderBy));
    var r := OrderAggregateDatums(ds, f.orderBy);
    forall i | 0 <= i < |r| ensures AcceptsValue(f, r[i]) {
      assert sorted[i] in multiset(Keyeds(ds));
      var j :| 0 <= j < |ds| && Keyeds(ds)[j] == sorted[i];
      assert Accepts(f, ds[j]);
    }
  }

  /// The `(key, value)` pairs of `jsonb_object_agg`, without Null inputs
  /// and Null keys.
  function ObjectPairs(vs: seq<Datum>): (r: seq<Entry>)
  {
    if vs == [] then []
    else
      var rest := ObjectPairs(vs[1..]);
      var v := vs[0];
      if v.List? && |v.elems| >= 2 && v.elems[0].String? then [Entry(v.elems[0].s, v.elems[1])] + rest
      else rest
  }

  /// Stable sort by key, reverse, keep the first of each key, reverse.
  function LastWins(es: seq<Entry>): seq<Entry> {
    Reverse(DedupFirst(Reverse(SortBy(es, KeyLe()))))
  }

  /// The separator and value `string_agg` takes from one input.
  datatype SepValue = SepValue(sep: string, value: string)

  /// The separator and value of one input, unless it or its value is Null.
  function SepValueOf(v: Datum): Option<SepValue> {
    if v.List? && |v.elems| >= 2 && v.elems[0].String? then
      Some(SepValue(if v.elems[1].String? then v.elems[1].s else "", v.elems[0].s))
    else None
  }

  function SepValues(vs: seq<Datum>): (r: seq<SepValue>)
    decreases |vs|
  {
    if vs == [] then []
    else
      var init := SepValues(vs[..|vs| - 1]);
      match SepValueOf(vs[|vs| - 1])
      case None => init
      case Some(p) => init + [p]
  }

  /// Each further value prefixed by its separator.
  function Prefixed(ps: seq<SepValue>): string
    decreases |ps|
  {
    if ps == [] then "" else Prefixed(ps[..|ps| - 1]) + ps[|ps| - 1].sep + ps[|ps| - 1].value
  }

  /// `string_agg`'s result on its `(separator, value)` pairs: the first
  /// value without its separator, then every other one with its own; Null
  /// when there is no value.
  function JoinSepValues(ps: seq<SepValue>): (r: Datum)
    ensures r.Null? <==> ps == []
  {
    if ps == [] then Null else String(ps[0].value + Prefixed(ps[1..]))
  }

  function Values(ps: seq<SepValue>): (r: seq<string>)
    ensures |r| == |ps|
    ensures forall i :: 0 <= i < |ps| ==> r[i] == ps[i].value
  {
    seq(|ps|, i requires 0 <= i < |ps| => ps[i].value)
  }

  /// With one separator throughout, `string_agg` is joining the values with
  /// it.
  lemma {:induction false} JoinSepValuesUniform(ps: seq<SepValue>, sep: string)
    requires ps != [] && forall i :: 0 < i < |ps| ==> ps[i].sep == sep
    ensures JoinSepValues(ps) == String(SF.Join(Values(ps), sep))
    decreases |ps|
  {
    if |ps| > 1 {
      var init, last := ps[..|ps| - 1], ps[|ps| - 1];
      JoinSepValuesUniform(init, sep);
      JoinSepSnoc(ps);
      JoinAppend(Values(init), last.value, sep);
      ValuesSnoc(ps);
    }
  }

  lemma JoinSepSnoc(ps: seq<SepValue>)
    requires |ps| > 1
    ensures var init, last := ps[..|ps| - 1], ps[|ps| - 1];
      JoinSepValues(ps) == String(JoinSepValues(init).s + last.sep + last.value)
  {
    var init := ps[..|ps| - 1];
    assert init[1..] == ps[1..][..|ps[1..]| - 1];
  }

  lemma ValuesSnoc(ps: seq<SepValue>)
    requires ps != []
    ensures Values(ps) == Values(ps[..|ps| - 1]) + [ps[|ps| - 1].value]
  {
    var init := ps[..|ps| - 1];
    var a, b := Values(ps), Values(init) + [ps[|ps| - 1].value];
    forall i | 0 <= i < |a| ensures a[i] == b[i] {
      if i < |init| { assert b[i] == Values(init)[i] == init[i].value; }
    }
  }

  lemma {:induction false} JoinAppend(xs: seq<string>, x: string, sep: string)
    requires xs != []
    ensures SF.Join(xs + [x], sep) == SF.Join(xs, sep) + sep + x
    decreases |xs|
  {
    if |xs| > 1 {
      assert (xs + [x])[1..] == xs[1..] + [x];
      JoinAppend(xs[1..], x, sep);
    } else {
      assert (xs + [x])[1..] == [x];
    }
  }

  /// `string_agg`'s loop over its sorted inputs: the first value is pushed
  /// bare, every later one after its separator.
  method StringAggLoop(vs: seq<Datum>) returns (r: Datum)
    requires forall i :: 0 <= i < |vs| ==> StringAggInput(vs[i])
    ensures r == JoinSepValues(SepValues(vs))
  {
    var s := "";
    var started := false;
    var i := 0;
    while i < |vs|
      invariant 0 <= i <= |vs|
      invariant started <==> SepValues(vs[..i]) != []
      invariant started ==> s == SepValues(vs[..i])[0].value + Prefixed(SepValues(vs[..i])[1..])
    {
      var v := vs[i];
      assert vs[..i + 1][..i] == vs[..i];
      assert StringAggInput(v);
      ghost var before := SepValues(vs[..i]);
      if !v.Null? && !v.elems[0].Null? {
        var sep := if v.elems[1].Null? then "" else v.elems[1].s;
        var p := SepValue(sep, v.elems[0].s);
        assert SepValueOf(v) == Some(p);
        assert SepValues(vs[..i + 1]) == before + [p];
        if !started {
          s := p.value;
          started := true;
        } else {
          assert (before + [p])[1..][..|before| - 1] == before[1..];
          s := s + p.sep + p.value;
        }
      }
      i := i + 1;
    }
    assert vs[..|vs|] == vs;
    r := if started then String(s) else Null;
  }

  /// All elements of the listed arrays or lists, in order.
  function Concat(vs: seq<Datum>): seq<Datum>
  {
    if vs == [] then [] else (if vs[0].Array? || vs[0].List? then vs[0].elems else []) + Concat(vs[1..])
  }

  // ---------------------------------------------------------------------
  // AggregateFunc

  /// The order-sensitive aggregates on their sorted values.
  function EvalOrdered(f: AggregateFunc, vs: seq<Datum>): Datum
    requires OrderSensitive(f)
  {
    match f
    case JsonbAgg(_) => List(NonNull(vs))
    case JsonbObjectAgg(_) => Map(LastWins(ObjectPairs(vs)))
    case ArrayConcat(_) => var es := Concat(vs); Array(es, [ArrayDim(1, |es|)])
    case ListConcat(_) => List(Concat(vs))
    case StringAgg(_) => JoinSepValues(SepValues(vs))
  }

  /// The order-insensitive aggregates.
  function EvalPlain(f: AggregateFunc, ds: seq<Datum>): Datum
    requires !OrderSensitive(f)
    requires forall i :: 0 <= i < |ds| ==> PlainInput(f, ds[i])
  {
    match f
    case MaxInt(_) => Extreme(ds, true)
    case MaxBool => Extreme(ds, true)
    case MaxString => Extreme(ds, true)
    case MinInt(_) => Extreme(ds, false)
    case MinBool => Extreme(ds, false)
    case MinString => Extreme(ds, false)
    case SumInt16 =>
      assert forall i :: 0 <= i < |ds| ==> PlainInput(f, ds[i]) ==> IntOrNull(W16, ds[i]);
      if NonNull(ds) == [] then Null else Int64(IntSum(W16, ds))
    case SumInt32 =>
      assert forall i :: 0 <= i < |ds| ==> PlainInput(f, ds[i]) ==> IntOrNull(W32, ds[i]);
      if NonNull(ds) == [] then Null else Int64(IntSum(W32, ds))
    case SumInt64 =>
      assert forall i :: 0 <= i < |ds| ==> PlainInput(f, ds[i]) ==> IntOrNull(W64, ds[i]);
      if NonNull(ds) == [] then Null else Numeric(IntSum(W64, ds))
    case Count => Int64(|NonNull(ds)|)
    case Any => Fold(true, Bool(false), ds)
    case All => Fold(false, Bool(true), ds)
    case Dummy => Datum.Dummy
  }

  /// `AggregateFunc::eval` on the datums of one group.
  function Eval(f: AggregateFunc, ds: seq<Datum>): Datum
    requires AcceptsAll(f, ds)
  {
    if OrderSensitive(f) then EvalOrdered(f, OrderAggregateDatums(ds, f.orderBy))
    else EvalPlain(f, ds)
  }

  /// `AggregateFunc::default`: the result on an empty group.
  function Default(f: AggregateFunc): Datum {
    match f
    case Count => Int64(0)
    case Any => Bool(false)
    case All => Bool(true)
    case Dummy => Datum.Dummy
    case _ => Null
  }

  /// `AggregateFunc::identity_datum`: an input that does not change the
  /// result.
  function Identity(f: AggregateFunc): Datum {
    match f
    case Any => Bool(false)
    case All => Bool(true)
    case Dummy => Datum.Dummy
    case ArrayConcat(_) => Array([], [])
    case ListConcat(_) => List([])
    case _ => Null
  }

  // ---------------------------------------------------------------------
  // Properties

  /// Minimum and maximum ignore Nulls, are Null only without a non-Null
  /// input, and otherwise are an input bounding every non-Null input.
  lemma MinMaxSpec(f: AggregateFunc, ds: seq<Datum>)
    requires f.MaxInt? || f.MaxBool? || f.MaxString? || f.MinInt? || f.MinBool? || f.MinString?
    requires AcceptsAll(f, ds)
    ensures Eval(f, ds).Null? <==> forall i :: 0 <= i < |ds| ==> ds[i].Null?
    ensures !Eval(f, ds).Null? ==> Eval(f, ds) in ds
    ensures forall i :: 0 <= i < |ds| && !ds[i].Null? ==>
      if f.MaxInt? || f.MaxBool? || f.MaxString? then O.Le(ds[i], Eval(f, ds)) else O.Le(Eval(f, ds), ds[i])
  {
    var wantMax := f.MaxInt? || f.MaxBool? || f.MaxString?;
    assert !OrderSensitive(f);
    assert Eval(f, ds) == EvalPlain(f, ds) == Extreme(ds, wantMax);
    ExtremeSpec(ds, wantMax);
  }

  /// For integers of one width the datum order is the numeric order, so
  /// `max_int*` is the numeric maximum of the non-Null inputs.
  lemma MaxIntSpec(w: Width, ds: seq<Datum>)
    requires AcceptsAll(MaxInt(w), ds)
    requires exists i :: 0 <= i < |ds| && !ds[i].Null?
    ensures SO.AsInt(w, Eval(MaxInt(w), ds)).Some?
    ensures forall i :: 0 <= i < |ds| && !ds[i].Null? ==>
      SO.AsInt(w, ds[i]).value <= SO.AsInt(w, Eval(MaxInt(w), ds)).value
  {
    MinMaxSpec(MaxInt(w), ds);
    var m := Eval(MaxInt(w), ds);
    assert Accepts(MaxInt(w), m);
  }

  /// Sums are Null exactly when there is no non-Null input; 16- and 32-bit
  /// sums fit the 64-bit accumulator for up to 2^32 inputs.
  lemma {:induction false} SumSpec(w: Width, ds: seq<Datum>)
    requires w != W64
    requires forall i :: 0 <= i < |ds| ==> IntOrNull(w, ds[i])
    ensures (NonNull(ds) == []) <==> forall i :: 0 <= i < |ds| ==> ds[i].Null?
    ensures -|ds| * 0x8000_0000 <= IntSum(w, ds) <= |ds| * 0x8000_0000
    ensures |ds| <= 0x1_0000_0000 ==> InRange(W64, IntSum(w, ds))
    decreases |ds|
  {
    if ds != [] {
      SumSpec(w, ds[1..]);
      assert forall i :: 1 <= i < |ds| ==> ds[i] == ds[1..][i - 1];
      if !ds[0].Null? { assert NonNull(ds) != []; }
    }
  }

  /// `count` is the number of non-Null inputs.
  lemma CountSpec(ds: seq<Datum>)
    ensures Eval(Count, ds) == Int64(|NonNull(ds)|)
    ensures |NonNull(ds)| == |ds| - multiset(ds)[Null]
  {
    NonNullCount(ds);
  }

  lemma {:induction false} NonNullCount(ds: seq<Datum>)
    ensures |NonNull(ds)| == |ds| - multiset(ds)[Null]
    decreases |ds|
  {
    if ds != [] {
      NonNullCount(ds[1..]);
      assert ds == [ds[0]] + ds[1..];
      assert multiset(ds) == multiset{ds[0]} + multiset(ds[1..]);
    }
  }

  /// Kleene's disjunction of many truth values: True if any is True,
  /// otherwise Null if any is Null, otherwise False.
  function KleeneAny(ds: seq<Datum>): Datum {
    if Bool(true) in ds then Bool(true) else if Null in ds then Null else Bool(false)
  }

  /// Kleene's conjunction of many truth values.
  function KleeneAll(ds: seq<Datum>): Datum {
    if Bool(false) in ds then Bool(false) else if Null in ds then Null else Bool(true)
  }

  lemma {:induction false} FoldAny(state: Datum, ds: seq<Datum>)
    requires state.Bool? || state.Null?
    ensures Fold(true, state, ds) == KleeneAny([state] + ds)
    decreases |ds|
  {
    if ds != [] {
      var a, rest := AnyStep(state, ds[0]), ds[1..];
      FoldAny(a, rest);
      assert Fold(true, state, ds) == Fold(true, a, rest);
      assert [state] + ds == [state, ds[0]] + rest;
      assert (Bool(true) in [state] + ds) == (Bool(true) in [a] + rest);
      assert (Null in [state] + ds) == (state.Null? || ds[0].Null? || Null in rest);
      assert (Null in [a] + rest) == (a.Null? || Null in rest);
      assert KleeneAny([state] + ds) == KleeneAny([a] + rest);
    }
  }

  lemma {:induction false} FoldAll(state: Datum, ds: seq<Datum>)
    requires state.Bool? || state.Null?
    ensures Fold(false, state, ds) == KleeneAll([state] + ds)
    decreases |ds|
  {
    if ds != [] {
      var a, rest := AllStep(state, ds[0]), ds[1..];
      FoldAll(a, rest);
      assert Fold(false, state, ds) == Fold(false, a, rest);
      assert [state] + ds == [state, ds[0]] + rest;
      assert (Bool(false) in [state] + ds) == (Bool(false) in [a] + rest);
      assert (Null in [state] + ds) == (state.Null? || ds[0].Null? || Null in rest);
      assert (Null in [a] + rest) == (a.Null? || Null in rest);
      assert KleeneAll([state] + ds) == KleeneAll([a] + rest);
    }
  }

  /// `any` and `all` are Kleene's connectives over the group.
  lemma AnyAllSpec(ds: seq<Datum>)
    ensures Eval(Any, ds) == KleeneAny(ds)
    ensures Eval(All, ds) == KleeneAll(ds)
  {
    FoldAny(Bool(false), ds);
    FoldAll(Bool(true), ds);
  }

  /// On an empty group the Null-ignoring aggregates, `count`, `any`, `all`
  /// and `dummy` give their default; `jsonb_agg`, `jsonb_object_agg`,
  /// `array_concat` and `list_concat` would give an empty collection
  /// instead, and `string_agg` gives its default Null.
  lemma EvalEmpty(f: AggregateFunc)
    ensures !OrderSensitive(f) || f.StringAgg? ==> Eval(f, []) == Default(f)
    ensures f.JsonbAgg? ==> Eval(f, []) == List([])
    ensures f.JsonbObjectAgg? ==> Eval(f, []) == Map([])
    ensures f.ArrayConcat? ==> Eval(f, []) == Array([], [ArrayDim(1, 0)])
    ensures f.ListConcat? ==> Eval(f, []) == List([])
  {
    if OrderSensitive(f) {
      assert OrderAggregateDatums([], f.orderBy) == [];
      assert SortBy<Entry>([], KeyLe()) == [];
    }
  }

  /// Adding the identity datum anywhere to a group leaves the result of
  /// every order-insensitive aggregate unchanged.
  lemma IdentityNeutral(f: AggregateFunc, ds: seq<Datum>, i: nat)
    requires !OrderSensitive(f) && AcceptsAll(f, ds) && i <= |ds|
    ensures AcceptsAll(f, ds[..i] + [Identity(f)] + ds[i..])
    ensures Eval(f, ds[..i] + [Identity(f)] + ds[i..]) == Eval(f, ds)
  {
    var a, b := ds[..i], ds[i..];
    assert ds == a + b;
    InsertAccepted(f, a, b, Identity(f));
    if f.Any? || f.All? {
      AnyAllSpec(ds);
      AnyAllSpec(a + [Identity(f)] + b);
    } else if !f.Dummy? {
      NullNeutral(f, a, b);
    }
  }

  lemma InsertAccepted(f: AggregateFunc, a: seq<Datum>, b: seq<Datum>, x: Datum)
    requires AcceptsAll(f, a + b) && Accepts(f, x)
    ensures AcceptsAll(f, a + [x] + b)
  {
    var e := a + [x] + b;
    forall j | 0 <= j < |e| ensures Accepts(f, e[j]) {
      if j < |a| { assert e[j] == (a + b)[j]; }
      else if j > |a| { assert e[j] == (a + b)[j - 1]; }
    }
  }

  /// A Null input is ignored by the Null-ignoring aggregates.
  lemma NullNeutral(f: AggregateFunc, a: seq<Datum>, b: seq<Datum>)
    requires !OrderSensitive(f) && !f.Any? && !f.All? && !f.Dummy?
    requires AcceptsAll(f, a + b)
    ensures AcceptsAll(f, a + [Null] + b)
    ensures Eval(f, a + [Null] + b) == Eval(f, a + b)
  {
    InsertAccepted(f, a, b, Null);
    NonNullSkip(a, b);
    ExtremeSkip(a, b, true);
    ExtremeSkip(a, b, false);
    if f.SumInt16? { IntSumSkip(W16, a, b); }
    if f.SumInt32? { IntSumSkip(W32, a, b); }
    if f.SumInt64? { IntSumSkip(W64, a, b); }
  }

  lemma {:induction false} NonNullSkip(a: seq<Datum>, b: seq<Datum>)
    ensures NonNull(a + [Null] + b) == NonNull(a + b)
    decreases |a|
  {
    if a == [] {
      assert (a + [Null] + b)[1..] == b && a + b == b;
    } else {
      assert (a + [Null] + b)[1..] == a[1..] + [Null] + b;
      assert (a + b)[1..] == a[1..] + b;
      NonNullSkip(a[1..], b);
    }
  }

  lemma {:induction false} ExtremeSkip(a: seq<Datum>, b: seq<Datum>, wantMax: bool)
    ensures Extreme(a + [Null] + b, wantMax) == Extreme(a + b, wantMax)
    decreases |a|
  {
    if a == [] {
      assert (a + [Null] + b)[1..] == b && a + b == b;
    } else {
      assert (a + [Null] + b)[1..] == a[1..] + [Null] + b;
      assert (a + b)[1..] == a[1..] + b;
      ExtremeSkip(a[1..], b, wantMax);
    }
  }

  lemma {:induction false} IntSumSkip(w: Width, a: seq<Datum>, b: seq<Datum>)
    requires forall i :: 0 <= i < |a + b| ==> IntOrNull(w, (a + b)[i])
    requires forall i :: 0 <= i < |a + [Null] + b| ==> IntOrNull(w, (a + [Null] + b)[i])
    ensures IntSum(w, a + [Null] + b) == IntSum(w, a + b)
    decreases |a|
  {
    var e := a + [Null] + b;
    if a == [] {
      assert e[1..] == b && a + b == b;
    } else {
      assert e[1..] == a[1..] + [Null] + b;
      assert (a + b)[1..] == a[1..] + b;
      IntSumSkip(w, a[1..], b);
    }
  }

  /// `jsonb_object_agg`: keys come out unique and ascending, and each key
  /// holds the value of its last occurrence in ORDER BY order.
  lemma JsonbObjectAggSpec(order: seq<ColumnOrder>, ds: seq<Datum>)
    requires AcceptsAll(JsonbObjectAgg(order), ds)
    ensures Eval(JsonbObjectAgg(order), ds).Map?
    ensures var es := Eval(JsonbObjectAgg(order), ds).entries;
      var pairs := ObjectPairs(OrderAggregateDatums(ds, order));
      KeysStrictlySorted(es) && forall k :: Lookup(es, k) == Lookup(Reverse(pairs), k)
  {
    SortDedupLast(ObjectPairs(OrderAggregateDatums(ds, order)));
  }

  /// `count` never yields Null; every other aggregate's output is nullable
  /// exactly when its input is.
  function OutputType(f: AggregateFunc, input: R.ColumnType): (r: Result<R.ColumnType>)
    ensures f.Count? ==> r.Ok? && !r.value.nullable
    ensures !(f.ArrayConcat? || f.ListConcat?) ==> r.Ok?
    ensures r.Ok? && !f.Count? ==> r.value.nullable == input.nullable
    ensures (f.ArrayConcat? || f.ListConcat?) ==> (r.Ok? <==> input.scalar.Record? && input.scalar.fields != [])
  {
    var nullable := if f.Count? then false else input.nullable;
    match f
    case Count => Ok(R.Nullable(R.Int64, nullable))
    case Any => Ok(R.Nullable(R.Bool, nullable))
    case All => Ok(R.Nullable(R.Bool, nullable))
    case JsonbAgg(_) => Ok(R.Nullable(R.Jsonb, nullable))
    case JsonbObjectAgg(_) => Ok(R.Nullable(R.Jsonb, nullable))
    case SumInt16 => Ok(R.Nullable(R.Int64, nullable))
    case SumInt32 => Ok(R.Nullable(R.Int64, nullable))
    case SumInt64 => Ok(R.Nullable(R.Numeric, nullable))
    case ArrayConcat(_) =>
      if input.scalar.Record? && input.scalar.fields != [] then Ok(R.Nullable(input.scalar.fields[0].typ.scalar, nullable))
      else Err(Internal("entered unreachable code"))
    case ListConcat(_) =>
      if input.scalar.Record? && input.scalar.fields != [] then Ok(R.Nullable(input.scalar.fields[0].typ.scalar, nullable))
      else Err(Internal("entered unreachable code"))
    case StringAgg(_) => Ok(R.Nullable(R.String, nullable))
    case _ => Ok(R.Nullable(input.scalar, nullable))
  }

  /// `count`'s result is never Null, matching its output type.
  lemma CountNeverNull(ds: seq<Datum>, t: R.ColumnType)
    ensures !Eval(Count, ds).Null? && !OutputType(Count, t).value.nullable
  {
  }
}
