// Scalar expressions and their evaluation against a row: column
// references, literals (which may hold an error) and calls of the unary,
// binary and variadic functions. `and`, `or`, `coalesce` and
// `error_if_null` evaluate their operands themselves; every other variant
// goes through the eager wrapper, which evaluates all operands, propagates
// the first error, and then answers Null for a Null operand before the
// body runs when the variant propagates Nulls.

module ScalarExpr {
  import opened Datums
  import opened IntArith
  import opened ScalarOps

  datatype Expr =
    | Column(index: nat)
    | Literal(lit: Result<Datum>)
    | CallUnary(uf: UnaryFunc, arg: Expr)
    | CallBinary(bf: BinaryFunc, left: Expr, right: Expr)
    | CallVariadic(vf: VariadicFunc, args: seq<Expr>)

  const Unreachable: EvalError := Internal("entered unreachable code")

  /// The `and` truth table once both operands are evaluated and the left
  /// one is not False.
  function And2(x: Datum, y: Datum): Result<Datum> {
    if y == Bool(false) then Ok(Bool(false))
    else if x.Null? || y.Null? then Ok(Null)
    else if x == Bool(true) && y == Bool(true) then Ok(Bool(true))
    else Err(Unreachable)
  }

  /// The `or` truth table once both operands are evaluated and the left
  /// one is not True.
  function Or2(x: Datum, y: Datum): Result<Datum> {
    if y == Bool(true) then Ok(Bool(true))
    else if x.Null? || y.Null? then Ok(Null)
    else if x == Bool(false) && y == Bool(false) then Ok(Bool(false))
    else Err(Unreachable)
  }

  function Eval(e: Expr, row: seq<Datum>): Result<Datum>
    decreases e
  {
    match e
    case Column(i) => if i < |row| then Ok(row[i]) else Err(Internal("column index out of range"))
    case Literal(r) => r
    case CallUnary(f, a) =>
      (match Eval(a, row)
       case Err(err) => Err(err)
       case Ok(x) => EvalUnary(f, x))
    case CallBinary(f, a, b) =>
      if f.And? then
        (match Eval(a, row)
         case Err(err) => Err(err)
         case Ok(x) =>
           if x == Bool(false) then Ok(Bool(false))
           else (match Eval(b, row) case Err(err) => Err(err) case Ok(y) => And2(x, y)))
      else if f.Or? then
        (match Eval(a, row)
         case Err(err) => Err(err)
         case Ok(x) =>
           if x == Bool(true) then Ok(Bool(true))
           else (match Eval(b, row) case Err(err) => Err(err) case Ok(y) => Or2(x, y)))
      else
        (match Eval(a, row)
         case Err(err) => Err(err)
         case Ok(x) =>
           (match Eval(b, row)
            case Err(err) => Err(err)
            case Ok(y) =>
              if BinaryPropagatesNulls(f) && (x.Null? || y.Null?) then Ok(Null)
              else BinaryBody(f, x, y)))
    case CallVariadic(f, args) =>
      if f.Coalesce? then EvalCoalesce(args, row)
      else
        (match EvalAll(args, row)
         case Err(err) => Err(err)
         case Ok(ds) =>
           if f.ErrorIfNull? then ErrorIfNullBody(ds)
           else if VariadicPropagatesNulls(f) && AnyNull(ds) then Ok(Null)
           else VariadicBody(f, ds))
  }

  /// Evaluates every operand in order and stops at the first error.
  function EvalAll(args: seq<Expr>, row: seq<Datum>): Result<seq<Datum>>
    decreases args
  {
    if args == [] then Ok([])
    else
      match Eval(args[0], row)
      case Err(err) => Err(err)
      case Ok(d) =>
        (match EvalAll(args[1..], row)
         case Err(err) => Err(err)
         case Ok(ds) => Ok([d] + ds))
  }

  /// `coalesce`: evaluates operands left to right until one is not Null.
  function EvalCoalesce(args: seq<Expr>, row: seq<Datum>): Result<Datum>
    decreases args
  {
    if args == [] then Ok(Null)
    else
      match Eval(args[0], row)
      case Err(err) => Err(err)
      case Ok(d) => if !d.Null? then Ok(d) else EvalCoalesce(args[1..], row)
  }

  predicate AnyNull(ds: seq<Datum>) {
    exists i :: 0 <= i < |ds| && ds[i].Null?
  }

  /// `error_if_null` on its evaluated operands: a Null first operand turns
  /// the second (a message string) into an internal error.
  function ErrorIfNullBody(ds: seq<Datum>): (r: Result<Datum>)
    ensures r.Ok? <==> ds != [] && !ds[0].Null?
    ensures r.Ok? ==> r.value == ds[0]
    ensures ds != [] && ds[0].Null? && |ds| >= 2 && ds[1].String? ==> r == Err(Internal(ds[1].s))
  {
    if ds == [] then Err(Internal("index out of bounds"))
    else if ds[0].Null? then
      (if |ds| >= 2 && ds[1].String? then Err(Internal(ds[1].s)) else Err(TypeMismatch))
    else Ok(ds[0])
  }

  // ---------------------------------------------------------------------
  // and / or

  /// `and` answers False for a False left operand whatever the right
  /// operand is, even one whose evaluation fails.
  lemma AndShortCircuit(a: Expr, b: Expr, row: seq<Datum>)
    requires Eval(a, row) == Ok(Bool(false))
    ensures Eval(CallBinary(And, a, b), row) == Ok(Bool(false))
    ensures Eval(CallBinary(And, a, b), row) == Eval(CallBinary(And, a, Literal(Err(DivisionByZero))), row)
  {
  }

  /// `or` answers True for a True left operand whatever the right operand.
  lemma OrShortCircuit(a: Expr, b: Expr, row: seq<Datum>)
    requires Eval(a, row) == Ok(Bool(true))
    ensures Eval(CallBinary(Or, a, b), row) == Ok(Bool(true))
    ensures Eval(CallBinary(Or, a, b), row) == Eval(CallBinary(Or, a, Literal(Err(DivisionByZero))), row)
  {
  }

  /// Three-valued logic: a Bool or Null, with Null standing for unknown.
  predicate IsTruth(d: Datum) {
    d.Bool? || d.Null?
  }

  /// Kleene conjunction, as an independent reference.
  function KleeneAnd(x: Datum, y: Datum): Datum
    requires IsTruth(x) && IsTruth(y)
  {
    if x == Bool(false) || y == Bool(false) then Bool(false)
    else if x.Null? || y.Null? then Null
    else Bool(true)
  }

  /// Kleene disjunction.
  function KleeneOr(x: Datum, y: Datum): Datum
    requires IsTruth(x) && IsTruth(y)
  {
    if x == Bool(true) || y == Bool(true) then Bool(true)
    else if x.Null? || y.Null? then Null
    else Bool(false)
  }

  /// On truth values `and` and `or` are Kleene's connectives; on errors
  /// the left operand's error wins, then the right one's unless the left
  /// operand already decided the answer.
  lemma AndOrSemantics(a: Expr, b: Expr, row: seq<Datum>)
    ensures Eval(a, row).Err? ==>
      (Eval(CallBinary(And, a, b), row) == Eval(a, row) && Eval(CallBinary(Or, a, b), row) == Eval(a, row))
    ensures Eval(a, row).Ok? && Eval(a, row).value != Bool(false) && Eval(b, row).Err? ==>
      Eval(CallBinary(And, a, b), row) == Eval(b, row)
    ensures Eval(a, row).Ok? && Eval(a, row).value != Bool(true) && Eval(b, row).Err? ==>
      Eval(CallBinary(Or, a, b), row) == Eval(b, row)
    ensures Eval(a, row).Ok? && Eval(b, row).Ok? && IsTruth(Eval(a, row).value) && IsTruth(Eval(b, row).value) ==>
      (Eval(CallBinary(And, a, b), row) == Ok(KleeneAnd(Eval(a, row).value, Eval(b, row).value))
       && Eval(CallBinary(Or, a, b), row) == Ok(KleeneOr(Eval(a, row).value, Eval(b, row).value)))
  {
  }

  /// On truth values `and` and `or` are commutative.
  lemma AndOrCommute(a: Expr, b: Expr, row: seq<Datum>)
    requires Eval(a, row).Ok? && Eval(b, row).Ok?
    requires IsTruth(Eval(a, row).value) && IsTruth(Eval(b, row).value)
    ensures Eval(CallBinary(And, a, b), row) == Eval(CallBinary(And, b, a), row)
    ensures Eval(CallBinary(Or, a, b), row) == Eval(CallBinary(Or, b, a), row)
  {
    AndOrSemantics(a, b, row);
    AndOrSemantics(b, a, row);
  }

  // ---------------------------------------------------------------------
  // The eager wrapper

  /// A binary variant that propagates Nulls yields Null when either
  /// operand is Null, before its body can fail.
  lemma BinaryEagerNull(f: BinaryFunc, a: Expr, b: Expr, row: seq<Datum>)
    requires BinaryPropagatesNulls(f)
    requires Eval(a, row).Ok? && Eval(b, row).Ok?
    requires Eval(a, row).value.Null? || Eval(b, row).value.Null?
    ensures Eval(CallBinary(f, a, b), row) == Ok(Null)
  {
  }

  /// A binary variant's operands are evaluated left to right and the first
  /// error is returned.
  lemma BinaryEagerErrors(f: BinaryFunc, a: Expr, b: Expr, row: seq<Datum>)
    requires !f.And? && !f.Or?
    ensures Eval(a, row).Err? ==> Eval(CallBinary(f, a, b), row) == Eval(a, row)
    ensures Eval(a, row).Ok? && Eval(b, row).Err? ==> Eval(CallBinary(f, a, b), row) == Eval(b, row)
    ensures Eval(a, row).Ok? && Eval(b, row).Ok? && !Eval(a, row).value.Null? && !Eval(b, row).value.Null? ==>
      Eval(CallBinary(f, a, b), row) == BinaryBody(f, Eval(a, row).value, Eval(b, row).value)
  {
  }

  /// Integer division by a Null literal is Null rather than a division by
  /// zero.
  lemma DivByNull(a: Expr, row: seq<Datum>)
    requires Eval(a, row).Ok?
    ensures Eval(CallBinary(Div(W32), a, Literal(Ok(Null))), row) == Ok(Null)
    ensures Eval(CallBinary(Div(W32), a, Literal(Ok(Int32(0)))), row) ==
      if Eval(a, row).value.Null? then Ok(Null)
      else if AsInt(W32, Eval(a, row).value).Some? then Err(DivisionByZero)
      else Err(TypeMismatch)
  {
    var x := Eval(a, row).value;
    EagerStep(Div(W32), a, Literal(Ok(Null)), row);
    EagerStep(Div(W32), a, Literal(Ok(Int32(0))), row);
    if !x.Null? {
      assert BinaryBody(Div(W32), x, Int32(0)) == DivMod(true, W32, x, Int32(0));
    }
  }

  /// An eager binary call on operands that both evaluate.
  lemma EagerStep(f: BinaryFunc, a: Expr, b: Expr, row: seq<Datum>)
    requires !f.And? && !f.Or? && Eval(a, row).Ok? && Eval(b, row).Ok?
    ensures var x, y := Eval(a, row).value, Eval(b, row).value;
      Eval(CallBinary(f, a, b), row) ==
        if BinaryPropagatesNulls(f) && (x.Null? || y.Null?) then Ok(Null) else BinaryBody(f, x, y)
  {
  }

  /// `EvalAll` yields every operand's value in order, or the error of the
  /// first operand that fails.
  lemma {:induction false} EvalAllSpec(args: seq<Expr>, row: seq<Datum>)
    ensures EvalAll(args, row).Ok? <==> forall i :: 0 <= i < |args| ==> Eval(args[i], row).Ok?
    ensures EvalAll(args, row).Ok? ==>
      (|EvalAll(args, row).value| == |args|
       && forall i :: 0 <= i < |args| ==> Eval(args[i], row) == Ok(EvalAll(args, row).value[i]))
    ensures EvalAll(args, row).Err? ==>
      exists i :: 0 <= i < |args| && Eval(args[i], row) == Err(EvalAll(args, row).error)
        && forall j :: 0 <= j < i ==> Eval(args[j], row).Ok?
    decreases args
  {
    if args != [] {
      EvalAllSpec(args[1..], row);
      var r := EvalAll(args, row);
      if r.Ok? {
        assert forall i :: 1 <= i < |args| ==> args[i] == args[1..][i - 1];
      } else if Eval(args[0], row).Ok? {
        var rest := EvalAll(args[1..], row);
        var i :| 0 <= i < |args[1..]| && Eval(args[1..][i], row) == Err(rest.error)
          && forall j :: 0 <= j < i ==> Eval(args[1..][j], row).Ok?;
        assert Eval(args[i + 1], row) == Err(r.error);
        assert forall j :: 1 <= j < i + 1 ==> args[j] == args[1..][j - 1];
      } else {
        assert Eval(args[0], row) == Err(r.error);
      }
      forall i | 0 <= i < |args| && !Eval(args[i], row).Ok?
        ensures !EvalAll(args, row).Ok?
      {
        if i > 0 { assert args[i] == args[1..][i - 1]; }
      }
    }
  }

  /// A variadic variant that propagates Nulls yields Null when every
  /// operand evaluates and one of them is Null.
  lemma VariadicEagerNull(f: VariadicFunc, args: seq<Expr>, row: seq<Datum>, i: nat)
    requires VariadicPropagatesNulls(f) && !f.ErrorIfNull?
    requires forall j :: 0 <= j < |args| ==> Eval(args[j], row).Ok?
    requires i < |args| && Eval(args[i], row) == Ok(Null)
    ensures Eval(CallVariadic(f, args), row) == Ok(Null)
  {
    EvalAllSpec(args, row);
    assert EvalAll(args, row).value[i].Null?;
  }

  // ---------------------------------------------------------------------
  // coalesce

  /// `coalesce` answers with the first operand that does not evaluate to
  /// Null (its value or its error) and never looks at the operands after
  /// it.
  lemma {:induction false} CoalesceStopsAt(pre: seq<Expr>, e: Expr, rest: seq<Expr>, row: seq<Datum>)
    requires forall j :: 0 <= j < |pre| ==> Eval(pre[j], row) == Ok(Null)
    requires Eval(e, row) != Ok(Null)
    ensures EvalCoalesce(pre + [e] + rest, row) == Eval(e, row)
    decreases pre
  {
    if pre == [] {
      assert (pre + [e] + rest)[0] == e;
      assert (pre + [e] + rest)[1..] == rest;
    } else {
      assert (pre + [e] + rest)[0] == pre[0];
      assert (pre + [e] + rest)[1..] == pre[1..] + [e] + rest;
      CoalesceStopsAt(pre[1..], e, rest, row);
    }
  }

  /// `coalesce` is Null exactly when every operand evaluates to Null.
  lemma {:induction false} CoalesceAllNull(args: seq<Expr>, row: seq<Datum>)
    ensures EvalCoalesce(args, row) == Ok(Null) <==> forall j :: 0 <= j < |args| ==> Eval(args[j], row) == Ok(Null)
    decreases args
  {
    if args != [] {
      CoalesceAllNull(args[1..], row);
      assert forall j :: 1 <= j < |args| ==> args[j] == args[1..][j - 1];
    }
  }

  /// `coalesce`'s loop: evaluate each operand in turn, returning the first
  /// error or non-Null value.
  method Coalesce(args: seq<Expr>, row: seq<Datum>) returns (r: Result<Datum>)
    ensures r == EvalCoalesce(args, row)
  {
    var i := 0;
    while i < |args|
      invariant 0 <= i <= |args|
      invariant EvalCoalesce(args, row) == EvalCoalesce(args[i..], row)
    {
      var d := Eval(args[i], row);
      assert args[i..][0] == args[i] && args[i..][1..] == args[i + 1..];
      if d.Err? {
        return Err(d.error);
      }
      if !d.value.Null? {
        return d;
      }
      i := i + 1;
    }
    return Ok(Null);
  }

  // ---------------------------------------------------------------------
  // error_if_null

  /// `error_if_null` passes a non-Null first operand through and reports
  /// the message of the second operand for a Null one.
  lemma ErrorIfNullSpec(a: Expr, msg: string, row: seq<Datum>)
    requires Eval(a, row).Ok?
    ensures Eval(a, row).value.Null? ==>
      Eval(CallVariadic(ErrorIfNull, [a, Literal(Ok(String(msg)))]), row) == Err(Internal(msg))
    ensures !Eval(a, row).value.Null? ==>
      Eval(CallVariadic(ErrorIfNull, [a, Literal(Ok(String(msg)))]), row) == Eval(a, row)
  {
    var args := [a, Literal(Ok(String(msg)))];
    assert args[1..] == [Literal(Ok(String(msg)))];
    assert args[1..][1..] == [];
    assert EvalAll(args[1..][1..], row) == Ok([]);
    assert Eval(args[1..][0], row) == Ok(String(msg));
    assert [String(msg)] + [] == [String(msg)];
    assert EvalAll(args[1..], row) == Ok([String(msg)]);
    assert Eval(args[0], row) == Eval(a, row);
    assert [Eval(a, row).value] + [String(msg)] == [Eval(a, row).value, String(msg)];
    assert EvalAll(args, row) == Ok([Eval(a, row).value, String(msg)]);
  }
}
