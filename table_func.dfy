// Table functions: each turns one input row into a stream of
// `(row, multiplicity)` updates.

module TableFunc {
  import opened Datums
  import opened IntArith
  import SO = ScalarOps
  import R = Repr

  datatype TableFunction =
    | JsonbEach(stringify: bool)
    | JsonbObjectKeys
    | JsonbArrayElements(stringify: bool)
    | GenerateSeriesInt32
    | GenerateSeriesInt64
    | Repeat
    | UnnestArray(elTyp: R.ScalarType)
    | UnnestList(elTyp: R.ScalarType)

  /// One output row and how many times it occurs.
  datatype Update = Update(row: seq<Datum>, diff: int)

  /// `jsonb_stringify`: JSON null becomes SQL Null, a JSON string stays as
  /// it is, and any other value is rendered as JSON text by `render`.
  function Stringify(d: Datum, render: Datum -> string): (r: Datum)
    ensures d.JsonNull? ==> r.Null?
    ensures d.String? ==> r == d
    ensures !d.JsonNull? ==> r.String?
  {
    if d.JsonNull? then Null else if d.String? then d else String(render(d))
  }

  /// The entries of a map, or none when the datum is no map.
  function MapEntries(d: Datum): seq<Entry> {
    if d.Map? then d.entries else []
  }

  function EachRows(es: seq<Entry>, stringify: bool, render: Datum -> string): (r: seq<Update>)
    ensures |r| == |es|
    ensures forall i :: 0 <= i < |es| ==>
      r[i] == Update([String(es[i].key), if stringify then Stringify(es[i].val, render) else es[i].val], 1)
  {
    if es == [] then []
    else
      var v := if stringify then Stringify(es[0].val, render) else es[0].val;
      [Update([String(es[0].key), v], 1)] + EachRows(es[1..], stringify, render)
  }

  function KeyRows(es: seq<Entry>): (r: seq<Update>)
    ensures |r| == |es|
    ensures forall i :: 0 <= i < |es| ==> r[i] == Update([String(es[i].key)], 1)
  {
    if es == [] then [] else [Update([String(es[0].key)], 1)] + KeyRows(es[1..])
  }

  /// One single-column row per element, each once.
  function ElementRows(xs: seq<Datum>, stringify: bool, render: Datum -> string): (r: seq<Update>)
    ensures |r| == |xs|
    ensures forall i :: 0 <= i < |xs| ==>
      r[i] == Update([if stringify then Stringify(xs[i], render) else xs[i]], 1)
  {
    if xs == [] then []
    else [Update([if stringify then Stringify(xs[0], render) else xs[0]], 1)] + ElementRows(xs[1..], stringify, render)
  }

  /// The values of `num::range_step_inclusive(start, stop, step)`: `start`,
  /// then every further step while the value has not passed `stop`. The
  /// source ends the range when the next step overflows; such a value
  /// would lie past `stop` anyway.
  function Series(start: int, stop: int, step: int): seq<int>
    requires step != 0
    decreases if step > 0 then stop - start + step else start - stop - step
  {
    if (step > 0 && start > stop) || (step < 0 && start < stop) then []
    else [start] + Series(start + step, stop, step)
  }

  /// The series holds exactly the values `start + i * step` that have not
  /// passed `stop`, in order.
  lemma {:induction false} SeriesSpec(start: int, stop: int, step: int)
    requires step != 0
    ensures var s := Series(start, stop, step);
      (forall i :: 0 <= i < |s| ==> (s[i] == start + i * step
        && (if step > 0 then start <= s[i] <= stop else stop <= s[i] <= start)))
      && (if step > 0 then start + |s| * step > stop else start + |s| * step < stop)
    decreases if step > 0 then stop - start + step else start - stop - step
  {
    var s := Series(start, stop, step);
    if !((step > 0 && start > stop) || (step < 0 && start < stop)) {
      SeriesSpec(start + step, stop, step);
      var t := Series(start + step, stop, step);
      assert s == [start] + t;
      forall i | 1 <= i < |s| ensures s[i] == start + i * step {
        assert s[i] == t[i - 1] == start + step + (i - 1) * step;
      }
      assert start + |s| * step == start + step + |t| * step;
    }
  }

  function SeriesRows(w: Width, xs: seq<int>): (r: seq<Update>)
    ensures |r| == |xs|
    ensures forall i :: 0 <= i < |xs| ==> r[i] == Update([SO.MakeInt(w, xs[i])], 1)
  {
    if xs == [] then [] else [Update([SO.MakeInt(w, xs[0])], 1)] + SeriesRows(w, xs[1..])
  }

  /// `generate_series` on three integers of width `w`.
  function GenerateSeries(w: Width, start: int, stop: int, step: int): (r: Result<seq<Update>>)
  {
    if step == 0 then Err(InvalidParameterValue("step size cannot equal zero"))
    else Ok(SeriesRows(w, Series(start, stop, step)))
  }

  /// `repeat`: the empty row with multiplicity `n`, unless `n` is zero.
  function RepeatRows(n: int): seq<Update> {
    if n != 0 then [Update([], n)] else []
  }

  /// `TableFunc::empty_on_null_input`: true for every table function.
  predicate EmptyOnNullInput(f: TableFunction) {
    true
  }

  /// `TableFunc::preserves_monotonicity`.
  predicate PreservesMonotonicity(f: TableFunction) {
    !f.Repeat?
  }

  /// What each table function demands of its arguments when none is Null:
  /// the `unwrap_*` calls and the indexing of the source panic otherwise.
  predicate WellTyped(f: TableFunction, ds: seq<Datum>) {
    match f
    case GenerateSeriesInt32 =>
      |ds| >= 3 && SO.AsInt(W32, ds[0]).Some? && SO.AsInt(W32, ds[1]).Some? && SO.AsInt(W32, ds[2]).Some?
    case GenerateSeriesInt64 =>
      |ds| >= 3 && SO.AsInt(W64, ds[0]).Some? && SO.AsInt(W64, ds[1]).Some? && SO.AsInt(W64, ds[2]).Some?
    case Repeat => |ds| >= 1 && ds[0].Int64?
    case UnnestArray(_) => |ds| >= 1 && ds[0].Array?
    case UnnestList(_) => |ds| >= 1 && ds[0].List?
    case _ => |ds| >= 1
  }

  /// `TableFunc::eval`; `render` stands for the JSON text rendering of
  /// `cast_jsonb_to_string`.
  ///
  /// A Null argument gives no rows at all; every row has the declared
  /// arity; and every table function but `repeat` yields each row with
  /// multiplicity one.
  function Eval(f: TableFunction, ds: seq<Datum>, render: Datum -> string): (r: Result<seq<Update>>)
    requires Null in ds || WellTyped(f, ds)
    ensures Null in ds ==> r == Ok([])
    ensures r.Ok? ==> forall u :: u in r.value ==> |u.row| == OutputArity(f)
    ensures r.Ok? && PreservesMonotonicity(f) ==> forall u :: u in r.value ==> u.diff == 1
  {
    if EmptyOnNullInput(f) && Null in ds then Ok([])
    else
      match f
      case JsonbEach(stringify) => Ok(EachRows(MapEntries(ds[0]), stringify, render))
      case JsonbObjectKeys => Ok(KeyRows(MapEntries(ds[0])))
      case JsonbArrayElements(stringify) =>
        Ok(ElementRows(if ds[0].List? then ds[0].elems else [], stringify, render))
      case GenerateSeriesInt32 =>
        GenerateSeries(W32, SO.AsInt(W32, ds[0]).value, SO.AsInt(W32, ds[1]).value, SO.AsInt(W32, ds[2]).value)
      case GenerateSeriesInt64 =>
        GenerateSeries(W64, SO.AsInt(W64, ds[0]).value, SO.AsInt(W64, ds[1]).value, SO.AsInt(W64, ds[2]).value)
      case Repeat => Ok(RepeatRows(ds[0].i))
      case UnnestArray(_) => Ok(ElementRows(ds[0].elems, false, render))
      case UnnestList(_) => Ok(ElementRows(ds[0].elems, false, render))
  }

  /// `TableFunc::output_type`.
  function OutputType(f: TableFunction): R.RelationType {
    R.RelationType(
      match f
      case JsonbEach(stringify) =>
        if stringify then [R.Nullable(R.String, false), R.Nullable(R.String, true)]
        else [R.Nullable(R.String, false), R.Nullable(R.Jsonb, false)]
      case JsonbObjectKeys => [R.Nullable(R.String, false)]
      case JsonbArrayElements(stringify) =>
        if stringify then [R.Nullable(R.String, true)] else [R.Nullable(R.Jsonb, false)]
      case GenerateSeriesInt32 => [R.Nullable(R.Int32, false)]
      case GenerateSeriesInt64 => [R.Nullable(R.Int64, false)]
      case Repeat => []
      case UnnestArray(t) => [R.Nullable(t, true)]
      case UnnestList(t) => [R.Nullable(t, true)],
      [])
  }

  /// `TableFunc::output_arity`: the number of columns of the declared type.
  function OutputArity(f: TableFunction): (n: nat)
    ensures n == R.Arity(OutputType(f))
  {
    match f
    case JsonbEach(_) => 2
    case JsonbObjectKeys => 1
    case JsonbArrayElements(_) => 1
    case GenerateSeriesInt32 => 1
    case GenerateSeriesInt64 => 1
    case Repeat => 0
    case UnnestArray(_) => 1
    case UnnestList(_) => 1
  }

  // ---------------------------------------------------------------------
  // Properties

  /// `generate_series` fails exactly on a zero step; otherwise it yields
  /// `start, start + step, …` up to and including `stop`, each once.
  lemma GenerateSeriesSpec(w: Width, start: int, stop: int, step: int)
    requires InRange(w, start) && InRange(w, stop) && InRange(w, step)
    ensures GenerateSeries(w, start, stop, step).Err? <==> step == 0
    ensures step != 0 ==>
      var us := GenerateSeries(w, start, stop, step).value;
      (forall i :: 0 <= i < |us| ==>
        us[i].diff == 1 && us[i].row == [SO.MakeInt(w, start + i * step)]
        && (if step > 0 then start <= start + i * step <= stop else stop <= start + i * step <= start))
      && (if step > 0 then start + |us| * step > stop else start + |us| * step < stop)
  {
    if step != 0 { SeriesSpec(start, stop, step); }
  }

  /// Every value of a series fits the width of its bounds.
  lemma SeriesInRange(w: Width, start: int, stop: int, step: int, i: nat)
    requires InRange(w, start) && InRange(w, stop) && step != 0
    requires i < |Series(start, stop, step)|
    ensures InRange(w, Series(start, stop, step)[i])
  {
    SeriesSpec(start, stop, step);
  }

  /// `repeat(n)` yields the empty row `n` times (one update of
  /// multiplicity `n`) and nothing for zero.
  lemma RepeatSpec(n: int, render: Datum -> string)
    ensures n != 0 ==> Eval(Repeat, [Int64(n)], render) == Ok([Update([], n)])
    ensures n == 0 ==> Eval(Repeat, [Int64(n)], render) == Ok([])
  {
  }

  /// `unnest` yields each element once, in order, as a one-column row.
  lemma UnnestSpec(t: R.ScalarType, xs: seq<Datum>, render: Datum -> string)
    ensures var r := Eval(UnnestList(t), [List(xs)], render);
      r.Ok? && |r.value| == |xs| && forall i :: 0 <= i < |xs| ==> r.value[i] == Update([xs[i]], 1)
  {
  }

  /// `jsonb_each` yields every entry of an object once, as a key and value
  /// row; on anything but an object it yields nothing.
  lemma JsonbEachSpec(d: Datum, stringify: bool, render: Datum -> string)
    requires !d.Null?
    ensures var r := Eval(JsonbEach(stringify), [d], render);
      r.Ok? && (!d.Map? ==> r.value == [])
      && (d.Map? ==> |r.value| == |d.entries| && forall i :: 0 <= i < |d.entries| ==>
        r.value[i].row[0] == String(d.entries[i].key) && r.value[i].diff == 1
        && (stringify || r.value[i].row[1] == d.entries[i].val))
  {
  }
}
