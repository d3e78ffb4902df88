// The value model shared by the evaluation kernel: datums, the errors that
// evaluation can report, and the small result/option wrappers.

module Datums {

  /// One dimension of an array: its lower bound and its length.
  datatype ArrayDim = ArrayDim(lower: int, length: nat)

  /// A key/value pair of a map datum (map keys are always text).
  datatype Entry = Entry(key: string, val: Datum)

  /// The modelled subset of datums. Integer payloads are mathematical
  /// integers; `InRange` below says when they fit their tag's width.
  datatype Datum =
    | Bool(b: bool)
    | Int16(i: int)
    | Int32(i: int)
    | Int64(i: int)
    | Numeric(n: int)
    | String(s: string)
    | Array(elems: seq<Datum>, dims: seq<ArrayDim>)
    | List(elems: seq<Datum>)
    | Map(entries: seq<Entry>)
    | Dummy
    | JsonNull
    | Null

  predicate IsNull(d: Datum) { d.Null? }

  const I16_MIN: int := -0x8000
  const I16_MAX: int := 0x7FFF
  const I32_MIN: int := -0x8000_0000
  const I32_MAX: int := 0x7FFF_FFFF
  const I64_MIN: int := -0x8000_0000_0000_0000
  const I64_MAX: int := 0x7FFF_FFFF_FFFF_FFFF

  /// The errors of the modelled operators.
  datatype EvalError =
    | DivisionByZero
    | NumericFieldOverflow
    | Int16OutOfRange
    | Int32OutOfRange
    | Int64OutOfRange
    | InvalidParameterValue(msg: string)
    | InvalidJsonbCast(from: string, to: string)
    | InvalidArrayCardinality
    | TimestampOutOfRange
    | Internal(msg: string)

  datatype Result<T> = Ok(value: T) | Err(error: EvalError)

  datatype Option<T> = None | Some(value: T)

  /// `iter().nth(n)`: the element at 0-based position `n`, if there is one.
  function Nth<T>(s: seq<T>, n: nat): (r: Option<T>)
    ensures r == if n < |s| then Some(s[n]) else None
  {
    if s == [] then None else if n == 0 then Some(s[0]) else Nth(s[1..], n - 1)
  }

  /// All keys of a map datum's entries.
  function Keys(es: seq<Entry>): (ks: seq<string>)
    ensures |ks| == |es|
    ensures forall i :: 0 <= i < |es| ==> ks[i] == es[i].key
  {
    if es == [] then [] else [es[0].key] + Keys(es[1..])
  }
}
