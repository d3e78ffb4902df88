// The scalar operators of the expression language: the modelled unary,
// binary and variadic function variants, their static metadata
// (null propagation, null introduction, output types, negation) and their
// bodies applied to already evaluated operands.
//
// A Rust `unwrap_*` on a datum of the wrong kind panics; here it yields
// `Err(TypeMismatch)`. Integer payloads outside their tag's width cannot
// exist in the source, and the model's unwrap treats them the same way.

module ScalarOps {
  import opened Datums
  import opened IntArith
  import O = DatumOrder
  import CF = CollectionFunc
  import SF = StringFunc
  import R = Repr

  const TypeMismatch: EvalError := Internal("datum of unexpected type")

  datatype UnaryFunc =
    | CastBoolToString
    | CastBoolToInt32
    | CastInt16ToInt32
    | CastInt16ToInt64
    | CastInt32ToBool
    | CastInt32ToInt16
    | CastInt32ToInt64
    | CastInt64ToBool
    | CastInt64ToInt16
    | CastInt64ToInt32
    | CastJsonbOrNullToJsonb
    | CastJsonbToBool
    | JsonbArrayLength
    | JsonbTypeof
    | ListLength
    | RecordGet(field: nat)

  /// The integer variants carry their width: `Add(W32)` is `AddInt32`.
  datatype BinaryFunc =
    | And
    | Or
    | Add(w: Width)
    | Sub(w: Width)
    | Mul(w: Width)
    | Div(w: Width)
    | Mod(w: Width)
    | Eq
    | NotEq
    | Lt
    | Lte
    | Gt
    | Gte
    | TextConcat
    | JsonbConcat
    | JsonbContainsString
    | JsonbDeleteInt64
    | JsonbDeleteString
    | MapContainsKey
    | MapGetValue
    | MapContainsAllKeys
    | MapContainsAnyKeys
    | MapContainsMap
    | Left
    | Position
    | Right
    | ListIndex
    | ArrayIndex
    | ArrayLength
    | ArrayContains
    | ListListConcat
    | ListElementConcat
    | ElementListConcat

  datatype VariadicFunc =
    | Coalesce
    | Concat
    | PadLeading
    | Substr
    | SplitPart
    | JsonbBuildArray
    | JsonbBuildObject
    | ArrayCreate(elemType: R.ScalarType)
    | ListCreate(elemType: R.ScalarType)
    | RecordCreate(fieldNames: seq<string>)
    | ErrorIfNull

  // ---------------------------------------------------------------------
  // Integer datums

  /// `unwrap_int16/32/64`: the payload of an integer datum of width `w`.
  function AsInt(w: Width, d: Datum): (r: Option<int>)
    ensures r.Some? ==> InRange(w, r.value)
  {
    match d
    case Int16(x) => if w == W16 && InRange(W16, x) then Some(x) else None
    case Int32(x) => if w == W32 && InRange(W32, x) then Some(x) else None
    case Int64(x) => if w == W64 && InRange(W64, x) then Some(x) else None
    case _ => None
  }

  function MakeInt(w: Width, x: int): (d: Datum)
    ensures InRange(w, x) ==> AsInt(w, d) == Some(x)
  {
    match w
    case W16 => Int16(x)
    case W32 => Int32(x)
    case W64 => Int64(x)
  }

  function IntDatum(w: Width, r: Result<int>): Result<Datum> {
    match r
    case Ok(x) => Ok(MakeInt(w, x))
    case Err(e) => Err(e)
  }

  /// A widening cast (`i64::from(i32)` and the like).
  function Widen(from: Width, to: Width, d: Datum): (r: Result<Datum>)
    requires Wider(to, from)
    ensures AsInt(from, d).Some? <==> r.Ok?
    ensures r.Ok? ==> AsInt(to, r.value) == AsInt(from, d)
  {
    match AsInt(from, d)
    case Some(x) => Ok(MakeInt(to, x))
    case None => Err(TypeMismatch)
  }

  /// A narrowing cast (`i16::try_from(i32)` and the like).
  function NarrowCast(from: Width, to: Width, d: Datum): (r: Result<Datum>)
    ensures AsInt(from, d).None? ==> r == Err(TypeMismatch)
    ensures AsInt(from, d).Some? ==> (r.Ok? <==> InRange(to, AsInt(from, d).value))
    ensures AsInt(from, d).Some? && r.Err? ==> r.error == OutOfRange(to)
    ensures r.Ok? ==> AsInt(to, r.value) == AsInt(from, d)
  {
    match AsInt(from, d)
    case Some(x) => IntDatum(to, Narrow(to, x))
    case None => Err(TypeMismatch)
  }

  function IntToBool(w: Width, d: Datum): (r: Result<Datum>)
    ensures AsInt(w, d).Some? <==> r.Ok?
    ensures r.Ok? ==> r.value == Bool(AsInt(w, d).value != 0)
  {
    match AsInt(w, d)
    case Some(x) => Ok(Bool(x != 0))
    case None => Err(TypeMismatch)
  }

  // ---------------------------------------------------------------------
  // Unary functions

  /// `UnaryFunc::propagates_nulls`: every modelled variant except the cast
  /// that turns SQL Null into jsonb null.
  predicate UnaryPropagatesNulls(f: UnaryFunc) {
    !f.CastJsonbOrNullToJsonb?
  }

  /// `UnaryFunc::introduces_nulls`.
  predicate UnaryIntroducesNulls(f: UnaryFunc) {
    f.CastJsonbToBool? || f.RecordGet? || f.JsonbArrayLength?
  }

  /// The body of a unary function, on a non-Null operand (or on any operand
  /// for a variant that does not propagate Nulls).
  function UnaryBody(f: UnaryFunc, x: Datum): Result<Datum> {
    match f
    case CastBoolToString => if x.Bool? then Ok(String(if x.b then "true" else "false")) else Err(TypeMismatch)
    case CastBoolToInt32 => if x.Bool? then Ok(Int32(if x.b then 1 else 0)) else Err(TypeMismatch)
    case CastInt16ToInt32 => Widen(W16, W32, x)
    case CastInt16ToInt64 => Widen(W16, W64, x)
    case CastInt32ToBool => IntToBool(W32, x)
    case CastInt32ToInt16 => NarrowCast(W32, W16, x)
    case CastInt32ToInt64 => Widen(W32, W64, x)
    case CastInt64ToBool => IntToBool(W64, x)
    case CastInt64ToInt16 => NarrowCast(W64, W16, x)
    case CastInt64ToInt32 => NarrowCast(W64, W32, x)
    case CastJsonbOrNullToJsonb => Ok(CF.CastJsonbOrNullToJsonb(x))
    case CastJsonbToBool => if CF.JsonbKind(x) then CF.CastJsonbToBool(x) else Err(TypeMismatch)
    case JsonbArrayLength => Ok(CF.JsonbArrayLength(x))
    case JsonbTypeof => if CF.JsonbKind(x) || x.Null? then Ok(CF.JsonbTypeof(x)) else Err(TypeMismatch)
    case ListLength => if x.List? then Ok(CF.ListLength(x.elems)) else Err(TypeMismatch)
    case RecordGet(i) => if x.List? && i < |x.elems| then Ok(CF.RecordGet(x.elems, i)) else Err(TypeMismatch)
  }

  /// `UnaryFunc::eval` once the operand is evaluated: a Null operand of a
  /// propagating variant gives Null before the body runs.
  function EvalUnary(f: UnaryFunc, x: Datum): (r: Result<Datum>)
    ensures UnaryPropagatesNulls(f) && x.Null? ==> r == Ok(Null)
    ensures !(UnaryPropagatesNulls(f) && x.Null?) ==> r == UnaryBody(f, x)
  {
    if UnaryPropagatesNulls(f) && x.Null? then Ok(Null) else UnaryBody(f, x)
  }

  /// A variant that does not introduce Nulls never yields Null from a
  /// non-Null operand.
  lemma UnaryNoNewNulls(f: UnaryFunc, x: Datum)
    requires !UnaryIntroducesNulls(f) && !x.Null?
    ensures EvalUnary(f, x).Ok? ==> !EvalUnary(f, x).value.Null?
  {
  }

  /// Widening an integer and narrowing it back gives the original datum;
  /// narrowing fails exactly when the value does not fit.
  lemma CastRoundTrip(x: int)
    ensures InRange(W16, x) ==> EvalUnary(CastInt32ToInt16, Int32(x)) == Ok(Int16(x))
    ensures InRange(W32, x) && !InRange(W16, x) ==> EvalUnary(CastInt32ToInt16, Int32(x)) == Err(Int16OutOfRange)
    ensures InRange(W64, x) && !InRange(W32, x) ==> EvalUnary(CastInt64ToInt32, Int64(x)) == Err(Int32OutOfRange)
    ensures InRange(W16, x) ==> EvalUnary(CastInt32ToInt16, EvalUnary(CastInt16ToInt32, Int16(x)).value) == Ok(Int16(x))
    ensures InRange(W32, x) ==> EvalUnary(CastInt64ToInt32, EvalUnary(CastInt32ToInt64, Int32(x)).value) == Ok(Int32(x))
    ensures InRange(W16, x) ==> EvalUnary(CastInt64ToInt16, EvalUnary(CastInt16ToInt64, Int16(x)).value) == Ok(Int16(x))
  {
  }

  /// `UnaryFunc::output_type` of the modelled variants.
  function UnaryOutputType(f: UnaryFunc, input: R.ColumnType): (r: Result<R.ColumnType>)
    ensures !f.RecordGet? ==> r.Ok?
    ensures f.RecordGet? ==> (r.Ok? <==> input.scalar.Record? && f.field < |input.scalar.fields|)
    ensures f.RecordGet? && r.Ok? ==>
      (r.value.scalar == input.scalar.fields[f.field].typ.scalar
       && r.value.nullable == (input.scalar.fields[f.field].typ.nullable || input.nullable))
  {
    var nullable := if UnaryIntroducesNulls(f) then true
      else if UnaryPropagatesNulls(f) then input.nullable
      else false;
    match f
    case CastBoolToString => Ok(R.Nullable(R.String, nullable))
    case CastBoolToInt32 => Ok(R.Nullable(R.Int32, nullable))
    case CastInt16ToInt32 => Ok(R.Nullable(R.Int32, nullable))
    case CastInt16ToInt64 => Ok(R.Nullable(R.Int64, nullable))
    case CastInt32ToBool => Ok(R.Nullable(R.Bool, nullable))
    case CastInt32ToInt16 => Ok(R.Nullable(R.Int16, nullable))
    case CastInt32ToInt64 => Ok(R.Nullable(R.Int64, nullable))
    case CastInt64ToBool => Ok(R.Nullable(R.Bool, nullable))
    case CastInt64ToInt16 => Ok(R.Nullable(R.Int16, nullable))
    case CastInt64ToInt32 => Ok(R.Nullable(R.Int32, nullable))
    case CastJsonbOrNullToJsonb => Ok(R.Nullable(R.Jsonb, nullable))
    case CastJsonbToBool => Ok(R.Nullable(R.Bool, nullable))
    case JsonbArrayLength => Ok(R.Nullable(R.Int64, nullable))
    case JsonbTypeof => Ok(R.Nullable(R.String, nullable))
    case ListLength => Ok(R.Nullable(R.Int64, nullable))
    case RecordGet(i) =>
      if input.scalar.Record? && i < |input.scalar.fields| then
        var ty := input.scalar.fields[i].typ;
        Ok(ty.(nullable := ty.nullable || input.nullable))
      else Err(Internal("RecordGet specified nonexistent field"))
  }

  /// The nullability law the unit variants obey: a variant that introduces
  /// Nulls always has a nullable output; otherwise a non-nullable input
  /// gives a non-nullable output, and a nullable input gives a nullable
  /// output exactly when the variant propagates Nulls.
  lemma UnaryNullability(f: UnaryFunc, t: R.ColumnType)
    requires !f.RecordGet?
    ensures UnaryIntroducesNulls(f) ==> UnaryOutputType(f, t).value.nullable
    ensures !UnaryIntroducesNulls(f) && !t.nullable ==> !UnaryOutputType(f, t).value.nullable
    ensures !UnaryIntroducesNulls(f) && t.nullable ==> UnaryOutputType(f, t).value.nullable == UnaryPropagatesNulls(f)
  {
  }

  // ---------------------------------------------------------------------
  // Binary functions

  /// `BinaryFunc::propagates_nulls`.
  predicate BinaryPropagatesNulls(f: BinaryFunc) {
    !(f.And? || f.Or? || f.ListListConcat? || f.ListElementConcat? || f.ElementListConcat?)
  }

  /// `BinaryFunc::introduces_nulls`: the logical, comparison and integer
  /// arithmetic variants are listed as not introducing Nulls.
  predicate BinaryIntroducesNulls(f: BinaryFunc) {
    !(f.And? || f.Or? || f.Eq? || f.NotEq? || f.Lt? || f.Lte? || f.Gt? || f.Gte?
      || f.Add? || f.Sub? || f.Mul? || f.Div? || f.Mod?)
  }

  /// Integer division and remainder. The source panics on `MIN / -1` (and
  /// `MIN % -1`); the model reports that as an internal error.
  function DivMod(isDiv: bool, w: Width, x: Datum, y: Datum): (r: Result<Datum>)
    ensures AsInt(w, x).Some? && AsInt(w, y).Some? && !(AsInt(w, x).value == Min(w) && AsInt(w, y).value == -1) ==>
      r == IntDatum(w, if isDiv then CheckedDiv(w, AsInt(w, x).value, AsInt(w, y).value)
                       else CheckedRem(w, AsInt(w, x).value, AsInt(w, y).value))
  {
    match (AsInt(w, x), AsInt(w, y))
    case (Some(a), Some(b)) =>
      if a == Min(w) && b == -1 then Err(Internal("attempt to divide with overflow"))
      else IntDatum(w, if isDiv then CheckedDiv(w, a, b) else CheckedRem(w, a, b))
    case _ => Err(TypeMismatch)
  }

  function Arith(f: BinaryFunc, x: Datum, y: Datum): (r: Result<Datum>)
    requires f.Add? || f.Sub? || f.Mul?
    ensures AsInt(f.w, x).Some? && AsInt(f.w, y).Some? ==>
      var a, b := AsInt(f.w, x).value, AsInt(f.w, y).value;
      var exact := if f.Add? then a + b else if f.Sub? then a - b else a * b;
      r == if InRange(f.w, exact) then Ok(MakeInt(f.w, exact)) else Err(NumericFieldOverflow)
  {
    match (AsInt(f.w, x), AsInt(f.w, y))
    case (Some(a), Some(b)) =>
      IntDatum(f.w, if f.Add? then CheckedAdd(f.w, a, b) else if f.Sub? then CheckedSub(f.w, a, b) else CheckedMul(f.w, a, b))
    case _ => Err(TypeMismatch)
  }

  predicate KeyArray(d: Datum) {
    d.Array? && forall i :: 0 <= i < |d.elems| ==> CF.StringOrNull(d.elems[i])
  }

  predicate IsComparison(f: BinaryFunc) {
    f.Eq? || f.NotEq? || f.Lt? || f.Lte? || f.Gt? || f.Gte?
  }

  /// The comparison operators: equality is datum equality, the others
  /// follow the datum order.
  function Compare(f: BinaryFunc, x: Datum, y: Datum): bool
    requires IsComparison(f)
  {
    match f
    case Eq => x == y
    case NotEq => x != y
    case Lt => O.Lt(x, y)
    case Lte => O.Le(x, y)
    case Gt => O.Lt(y, x)
    case Gte => O.Le(y, x)
  }

  /// The body of an eager binary function on evaluated operands.
  function BinaryBody(f: BinaryFunc, x: Datum, y: Datum): Result<Datum>
    requires !f.And? && !f.Or?
  {
    if f.Add? || f.Sub? || f.Mul? then Arith(f, x, y)
    else if f.Div? || f.Mod? then DivMod(f.Div?, f.w, x, y)
    else if IsComparison(f) then Ok(Bool(Compare(f, x, y)))
    else match f
    case TextConcat => if x.String? && y.String? then Ok(String(x.s + y.s)) else Err(TypeMismatch)
    case JsonbConcat => Ok(CF.JsonbConcat(x, y))
    case JsonbContainsString => if y.String? then Ok(Bool(CF.JsonbContainsString(x, y.s))) else Err(TypeMismatch)
    case JsonbDeleteInt64 =>
      (match AsInt(W64, y) case Some(i) => Ok(CF.JsonbDeleteInt64(x, i)) case None => Err(TypeMismatch))
    case JsonbDeleteString => if x.Map? ==> y.String? then Ok(CF.JsonbDeleteString(x, y)) else Err(TypeMismatch)
    case MapContainsKey =>
      if x.Map? && y.String? then Ok(Bool(CF.MapContainsKey(x.entries, y.s))) else Err(TypeMismatch)
    case MapGetValue => if x.Map? && y.String? then Ok(CF.MapGetValue(x.entries, y.s)) else Err(TypeMismatch)
    case MapContainsAllKeys =>
      if x.Map? && KeyArray(y) then Ok(Bool(CF.MapContainsAllKeys(x.entries, y.elems))) else Err(TypeMismatch)
    case MapContainsAnyKeys =>
      if x.Map? && KeyArray(y) then Ok(Bool(CF.MapContainsAnyKeys(x.entries, y.elems))) else Err(TypeMismatch)
    case MapContainsMap =>
      if x.Map? && y.Map? then Ok(Bool(CF.MapContainsMap(x.entries, y.entries))) else Err(TypeMismatch)
    case Left =>
      (match AsInt(W32, y) case Some(n) => if x.String? then Ok(String(SF.Left(x.s, n))) else Err(TypeMismatch)
       case None => Err(TypeMismatch))
    case Right =>
      (match AsInt(W32, y) case Some(n) => if x.String? then Ok(String(SF.Right(x.s, n))) else Err(TypeMismatch)
       case None => Err(TypeMismatch))
    case Position =>
      if x.String? && y.String? then
        (match SF.Position(x.s, y.s) case Ok(p) => Ok(Int32(p)) case Err(e) => Err(e))
      else Err(TypeMismatch)
    case ListIndex =>
      (match AsInt(W64, y) case Some(i) => if x.List? then Ok(CF.ListIndex(x.elems, i)) else Err(TypeMismatch)
       case None => Err(TypeMismatch))
    case ArrayIndex =>
      (match AsInt(W64, y) case Some(i) => if x.Array? then Ok(CF.ArrayIndex(x, i)) else Err(TypeMismatch)
       case None => Err(TypeMismatch))
    case ArrayLength =>
      (match AsInt(W64, y) case Some(i) => if x.Array? then Ok(CF.ArrayLength(x, i)) else Err(TypeMismatch)
       case None => Err(TypeMismatch))
    case ArrayContains => if y.Array? then Ok(Bool(CF.ArrayContains(x, y))) else Err(TypeMismatch)
    case ListListConcat =>
      if CF.ListOrNull(x) && CF.ListOrNull(y) then Ok(CF.ListListConcat(x, y)) else Err(TypeMismatch)
    case ListElementConcat => if CF.ListOrNull(x) then Ok(CF.ListElementConcat(x, y)) else Err(TypeMismatch)
    case ElementListConcat => if CF.ListOrNull(y) then Ok(CF.ElementListConcat(x, y)) else Err(TypeMismatch)
  }

  /// The integer arithmetic variants through the datum layer: exact
  /// results in range, `NumericFieldOverflow` outside it, `DivisionByZero`
  /// exactly for a zero divisor.
  lemma ArithSemantics(w: Width, a: int, b: int)
    requires InRange(w, a) && InRange(w, b)
    ensures BinaryBody(Add(w), MakeInt(w, a), MakeInt(w, b)) ==
      if InRange(w, a + b) then Ok(MakeInt(w, a + b)) else Err(NumericFieldOverflow)
    ensures BinaryBody(Sub(w), MakeInt(w, a), MakeInt(w, b)) ==
      if InRange(w, a - b) then Ok(MakeInt(w, a - b)) else Err(NumericFieldOverflow)
    ensures BinaryBody(Mul(w), MakeInt(w, a), MakeInt(w, b)) ==
      if InRange(w, a * b) then Ok(MakeInt(w, a * b)) else Err(NumericFieldOverflow)
    ensures !(a == Min(w) && b == -1) ==>
      (BinaryBody(Div(w), MakeInt(w, a), MakeInt(w, b)) == if b == 0 then Err(DivisionByZero) else Ok(MakeInt(w, DivT(a, b))))
    ensures !(a == Min(w) && b == -1) ==>
      (BinaryBody(Mod(w), MakeInt(w, a), MakeInt(w, b)) == if b == 0 then Err(DivisionByZero) else Ok(MakeInt(w, RemT(a, b))))
  {
  }

  /// The logical and comparison variants and the integer arithmetic never
  /// yield Null from non-Null operands, as `introduces_nulls` claims.
  lemma BinaryNoNewNulls(f: BinaryFunc, x: Datum, y: Datum)
    requires !BinaryIntroducesNulls(f) && !f.And? && !f.Or? && !x.Null? && !y.Null?
    ensures BinaryBody(f, x, y).Ok? ==> !BinaryBody(f, x, y).value.Null?
  {
    if f.Add? || f.Sub? || f.Mul? {
      assert BinaryBody(f, x, y) == Arith(f, x, y);
      ArithNotNull(f, x, y);
    } else if f.Div? || f.Mod? {
      assert BinaryBody(f, x, y) == DivMod(f.Div?, f.w, x, y);
    } else {
      BodyCompare(f, x, y);
    }
  }

  lemma BodyCompare(f: BinaryFunc, x: Datum, y: Datum)
    requires IsComparison(f)
    ensures BinaryBody(f, x, y) == Ok(Bool(Compare(f, x, y)))
  {
  }

  lemma ArithNotNull(f: BinaryFunc, x: Datum, y: Datum)
    requires f.Add? || f.Sub? || f.Mul?
    ensures Arith(f, x, y).Ok? ==> !Arith(f, x, y).value.Null?
  {
  }

  /// `BinaryFunc::negate`.
  function Negate(f: BinaryFunc): (r: Option<BinaryFunc>)
    ensures r.Some? <==> IsComparison(f)
    ensures r.Some? ==> IsComparison(r.value)
  {
    match f
    case Eq => Some(NotEq)
    case NotEq => Some(Eq)
    case Lt => Some(Gte)
    case Gte => Some(Lt)
    case Gt => Some(Lte)
    case Lte => Some(Gt)
    case _ => None
  }

  /// Negation is an involution, and the negated comparison yields the
  /// logical negation of the original on all operands.
  lemma NegateCorrect(f: BinaryFunc, x: Datum, y: Datum)
    requires Negate(f).Some?
    ensures Negate(Negate(f).value) == Some(f)
    ensures BinaryBody(f, x, y) == Ok(Bool(Compare(f, x, y)))
    ensures BinaryBody(Negate(f).value, x, y) == Ok(Bool(!Compare(f, x, y)))
  {
    O.CmpEqual(x, y);
    BodyCompare(f, x, y);
    BodyCompare(Negate(f).value, x, y);
  }

  /// `ScalarType::default_embedded_value` (scalar.rs is not part of this
  /// model): the type with the outer custom oid and name cleared.
  function DefaultEmbedded(t: R.ScalarType): (r: R.ScalarType)
    ensures R.BaseEq(r, t)
    ensures (r.List? || r.Map? || r.Record?) ==> r.customOid.None?
    ensures r.Record? ==> r.customName.None?
    ensures r.List? <==> t.List?
    ensures r.Map? <==> t.Map?
    ensures r.Record? <==> t.Record?
  {
    R.BaseEqRefl(t);
    match t
    case List(e, _) => R.List(e, None)
    case Map(v, _) => R.Map(v, None)
    case Record(fs, _, _) => R.Record(fs, None, None)
    case _ => t
  }

  function IntType(w: Width): R.ScalarType {
    match w
    case W16 => R.Int16
    case W32 => R.Int32
    case W64 => R.Int64
  }

  /// The binary variants whose output type is nullable whatever the input.
  predicate AlwaysNullableOutput(f: BinaryFunc) {
    f.MapGetValue? || f.ListIndex? || f.ArrayIndex? || f.JsonbConcat? || f.JsonbDeleteInt64?
    || f.JsonbDeleteString? || f.ArrayLength? || f.ListListConcat? || f.ListElementConcat?
    || f.ElementListConcat? || f.Div? || f.Mod?
  }

  /// `BinaryFunc::output_type` of the modelled variants. The element-type
  /// unwraps panic in the source on a non-collection input type.
  function BinaryOutputType(f: BinaryFunc, t1: R.ColumnType, t2: R.ColumnType): (r: Result<R.ColumnType>)
  {
    var inNullable := t1.nullable || t2.nullable;
    var isDivMod := f.Div? || f.Mod?;
    if f.Add? || f.Sub? || f.Mul? || f.Div? || f.Mod? then Ok(R.Nullable(IntType(f.w), inNullable || isDivMod))
    else match f
      case And | Or | Eq | NotEq | Lt | Lte | Gt | Gte | ArrayContains | JsonbContainsString
        | MapContainsKey | MapContainsAllKeys | MapContainsAnyKeys | MapContainsMap =>
        Ok(R.Nullable(R.Bool, inNullable))
      case Left | Right | TextConcat => Ok(R.Nullable(R.String, inNullable))
      case JsonbConcat | JsonbDeleteInt64 | JsonbDeleteString => Ok(R.Nullable(R.Jsonb, true))
      case MapGetValue =>
        if t1.scalar.Map? then Ok(R.Nullable(t1.scalar.value, true)) else Err(Internal("expected map type"))
      case ListIndex =>
        if t1.scalar.List? then Ok(R.Nullable(t1.scalar.elem, true)) else Err(Internal("expected list type"))
      case ArrayIndex =>
        if t1.scalar.Array? then Ok(R.Nullable(t1.scalar.elem, true)) else Err(Internal("expected array type"))
      case ArrayLength => Ok(R.Nullable(R.Int64, true))
      case ListListConcat | ListElementConcat => Ok(R.Nullable(DefaultEmbedded(t1.scalar), true))
      case ElementListConcat => Ok(R.Nullable(DefaultEmbedded(t2.scalar), true))
      case Position => Ok(R.Nullable(R.Int32, inNullable))
  }

  /// Arithmetic is nullable when an input is (division and remainder
  /// always), logical and comparison results are nullable Booleans, and the
  /// variants that can yield Null from non-Null inputs are always nullable.
  lemma BinaryOutputTypeSpec(f: BinaryFunc, t1: R.ColumnType, t2: R.ColumnType)
    ensures var r := BinaryOutputType(f, t1, t2);
      && ((f.Div? || f.Mod?) ==> r == Ok(R.Nullable(IntType(f.w), true)))
      && ((f.Add? || f.Sub? || f.Mul?) ==> r == Ok(R.Nullable(IntType(f.w), t1.nullable || t2.nullable)))
      && ((f.And? || f.Or? || f.Eq? || f.NotEq? || f.Lt? || f.Lte? || f.Gt? || f.Gte?) ==>
          r == Ok(R.Nullable(R.Bool, t1.nullable || t2.nullable)))
      && (r.Ok? && AlwaysNullableOutput(f) ==> r.value.nullable)
  {
    if f.Add? || f.Sub? || f.Mul? || f.Div? || f.Mod? {
      assert BinaryOutputType(f, t1, t2) == Ok(R.Nullable(IntType(f.w), t1.nullable || t2.nullable || f.Div? || f.Mod?));
    } else if AlwaysNullableOutput(f) {
      AlwaysNullableOutputType(f, t1, t2);
    } else {
      assert OtherOutputType(f, t1, t2);
    }
  }

  lemma AlwaysNullableOutputType(f: BinaryFunc, t1: R.ColumnType, t2: R.ColumnType)
    requires AlwaysNullableOutput(f) && !f.Div? && !f.Mod?
    ensures BinaryOutputType(f, t1, t2).Ok? ==> BinaryOutputType(f, t1, t2).value.nullable
  {
  }

  /// The logical and comparison variants give a Boolean, nullable when an
  /// input is.
  predicate OtherOutputType(f: BinaryFunc, t1: R.ColumnType, t2: R.ColumnType) {
    (f.And? || f.Or? || f.Eq? || f.NotEq? || f.Lt? || f.Lte? || f.Gt? || f.Gte?) ==>
      BinaryOutputType(f, t1, t2) == Ok(R.Nullable(R.Bool, t1.nullable || t2.nullable))
  }

  /// Integer division and remainder are typed as always nullable even
  /// though they are listed as not introducing Nulls, so the unary
  /// nullability law does not carry over to binary functions.
  lemma DivModNullability(w: Width, t1: R.ColumnType, t2: R.ColumnType)
    ensures !BinaryIntroducesNulls(Div(w)) && !BinaryIntroducesNulls(Mod(w))
    ensures BinaryOutputType(Div(w), t1, t2).value.nullable && BinaryOutputType(Mod(w), t1, t2).value.nullable
    ensures !t1.nullable && !t2.nullable ==> !BinaryOutputType(Add(w), t1, t2).value.nullable
  {
  }

  // ---------------------------------------------------------------------
  // Variadic functions

  /// `VariadicFunc::propagates_nulls`.
  predicate VariadicPropagatesNulls(f: VariadicFunc) {
    !(f.Coalesce? || f.Concat? || f.JsonbBuildArray? || f.JsonbBuildObject? || f.ListCreate?
      || f.RecordCreate? || f.ArrayCreate?)
  }

  function ResultString(r: Result<string>): Result<Datum> {
    match r
    case Ok(s) => Ok(String(s))
    case Err(e) => Err(e)
  }

  /// The body of an eager variadic function on evaluated operands
  /// (`coalesce` and `error_if_null` evaluate their operands themselves).
  function VariadicBody(f: VariadicFunc, ds: seq<Datum>): Result<Datum>
    requires !f.Coalesce? && !f.ErrorIfNull?
  {
    match f
    case Concat => if SF.StringsOrNulls(ds) then Ok(String(SF.ConcatNonNull(ds))) else Err(TypeMismatch)
    case PadLeading =>
      if (|ds| == 2 || |ds| == 3) && ds[0].String? && AsInt(W64, ds[1]).Some? && (|ds| == 3 ==> ds[2].String?) then
        ResultString(SF.PadLeading(ds[0].s, ds[1].i, if |ds| == 3 then ds[2].s else " "))
      else Err(TypeMismatch)
    case Substr =>
      if (|ds| == 2 || |ds| == 3) && ds[0].String? && AsInt(W64, ds[1]).Some? && (|ds| == 3 ==> AsInt(W64, ds[2]).Some?) then
        ResultString(SF.Substr(ds[0].s, ds[1].i, if |ds| == 3 then Some(ds[2].i) else None))
      else Err(TypeMismatch)
    case SplitPart =>
      if |ds| == 3 && ds[0].String? && ds[1].String? && AsInt(W64, ds[2]).Some? then
        ResultString(SF.SplitPart(ds[0].s, ds[1].s, ds[2].i))
      else Err(TypeMismatch)
    case JsonbBuildArray => Ok(CF.JsonbBuildArray(ds))
    case JsonbBuildObject =>
      if |ds| % 2 == 0 && CF.KeysAreText(ds) then Ok(CF.JsonbBuildObject(ds)) else Err(TypeMismatch)
    case ArrayCreate(elem) =>
      if elem.Array? then (if CF.AllArrays(ds) then CF.ArrayCreateMultidim(ds) else Err(TypeMismatch))
      else Ok(CF.ArrayCreateScalar(ds))
    case ListCreate(_) => Ok(CF.ListCreate(ds))
    case RecordCreate(_) => Ok(CF.ListCreate(ds))
  }

  function Zip(names: seq<string>, ts: seq<R.ColumnType>): (fs: seq<R.Field>)
    ensures |fs| == if |names| <= |ts| then |names| else |ts|
    ensures forall i :: 0 <= i < |fs| ==> fs[i] == R.Field(names[i], ts[i])
  {
    if names == [] || ts == [] then [] else [R.Field(names[0], ts[0])] + Zip(names[1..], ts[1..])
  }

  /// `VariadicFunc::output_type` of the modelled variants (`coalesce` and
  /// `error_if_null` index their first input type and panic without one).
  function VariadicOutputType(f: VariadicFunc, ts: seq<R.ColumnType>): (r: Result<R.ColumnType>)
    ensures (f.Coalesce? || f.ErrorIfNull?) ==> (r.Ok? <==> ts != [])
    ensures f.Coalesce? && r.Ok? ==> r.value == R.Nullable(ts[0].scalar, true)
    ensures f.ErrorIfNull? && r.Ok? ==> r.value == R.Nullable(ts[0].scalar, false)
    ensures (f.ArrayCreate? || f.ListCreate?) ==> r.Ok? && !r.value.nullable
    ensures f.RecordCreate? ==> r.Ok? && r.value.scalar.Record? && |r.value.scalar.fields| <= |ts|
  {
    match f
    case Coalesce => if ts == [] then Err(Internal("coalesce without inputs")) else Ok(R.Nullable(ts[0].scalar, true))
    case Concat => Ok(R.Nullable(R.String, true))
    case PadLeading => Ok(R.Nullable(R.String, true))
    case Substr => Ok(R.Nullable(R.String, true))
    case SplitPart => Ok(R.Nullable(R.String, true))
    case JsonbBuildArray => Ok(R.Nullable(R.Jsonb, true))
    case JsonbBuildObject => Ok(R.Nullable(R.Jsonb, true))
    case ArrayCreate(elem) =>
      if elem.Array? then Ok(R.Nullable(elem, false)) else Ok(R.Nullable(R.Array(elem), false))
    case ListCreate(elem) => Ok(R.Nullable(R.List(elem, None), false))
    case RecordCreate(names) => Ok(R.Nullable(R.Record(Zip(names, ts), None, None), true))
    case ErrorIfNull => if ts == [] then Err(Internal("error_if_null without inputs")) else Ok(R.Nullable(ts[0].scalar, false))
  }
}
