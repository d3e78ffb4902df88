// Constant folding: `FoldConstants::action` replaces one operator whose
// inputs are constants by the constant it evaluates to, and leaves every
// constant it produces consolidated, with the nullability of its columns
// re-derived from its rows.

module Reduction {
  import D = Datums
  import S = Sorting
  import SE = ScalarExpr
  import TF = TableFunc
  import R = Repr
  import opened RelationExpr
  import CR = ConstantRows

  type Update = TF.Update

  // ---------------------------------------------------------------------
  // Filter predicates

  predicate IsLiteralTrue(p: SE.Expr) { p == SE.Literal(D.Ok(D.Bool(true))) }
  predicate IsLiteralFalse(p: SE.Expr) { p == SE.Literal(D.Ok(D.Bool(false))) }
  predicate IsLiteralNull(p: SE.Expr) { p == SE.Literal(D.Ok(D.Null)) }
  predicate IsLiteralErr(p: SE.Expr) { p.Literal? && p.lit.Err? }

  function NotLiteralTrue(): SE.Expr -> bool {
    (p: SE.Expr) => !IsLiteralTrue(p)
  }

  /// `sort_by_key(is_literal_err)`: literal errors rank after everything
  /// else.
  function ErrorsLast(): (SE.Expr, SE.Expr) -> bool {
    (p: SE.Expr, q: SE.Expr) => !IsLiteralErr(p) || IsLiteralErr(q)
  }

  /// The predicates a filter keeps: every one but the literal True ones.
  function Retained(preds: seq<SE.Expr>): seq<SE.Expr> {
    CR.Keep(preds, NotLiteralTrue())
  }

  /// The order in which a constant filter evaluates its predicates.
  function EvaluationOrder(preds: seq<SE.Expr>): seq<SE.Expr> {
    S.SortBy(preds, ErrorsLast())
  }

  predicate AnyFalseOrNull(preds: seq<SE.Expr>) {
    exists k :: 0 <= k < |preds| && (IsLiteralFalse(preds[k]) || IsLiteralNull(preds[k]))
  }

  /// Retaining drops exactly the literal True predicates.
  lemma RetainedSpec(preds: seq<SE.Expr>)
    ensures forall p :: multiset(Retained(preds))[p] == if IsLiteralTrue(p) then 0 else multiset(preds)[p]
  {
    CR.KeepCount(preds, NotLiteralTrue());
  }

  /// The constant filter evaluates the same predicates, literal errors
  /// last, and the others in their original order.
  lemma EvaluationOrderSpec(preds: seq<SE.Expr>, c: SE.Expr)
    ensures multiset(EvaluationOrder(preds)) == multiset(preds)
    ensures var r := EvaluationOrder(preds);
      forall i, j :: 0 <= i < j < |r| && IsLiteralErr(r[i]) ==> IsLiteralErr(r[j])
    ensures S.Class(EvaluationOrder(preds), ErrorsLast(), c) == S.Class(preds, ErrorsLast(), c)
  {
    var le := ErrorsLast();
    assert S.TotalPreorder(le);
    S.SortBySorted(preds, le);
    S.SortByStable(preds, le, c);
  }

  // ---------------------------------------------------------------------
  // Join and Union inputs

  /// The error of the first constant input that holds one.
  function FirstError(es: seq<Rel>): (r: D.Option<D.EvalError>)
    ensures r.None? <==> forall i :: 0 <= i < |es| ==> !(es[i].Constant? && es[i].rows.Err?)
  {
    if es == [] then D.None
    else if es[0].Constant? && es[0].rows.Err? then D.Some(es[0].rows.error)
    else
      assert forall i :: 1 <= i < |es| ==> es[i] == es[1..][i - 1];
      FirstError(es[1..])
  }

  predicate AllOkConstants(es: seq<Rel>) {
    forall i :: 0 <= i < |es| ==> es[i].Constant? && es[i].rows.Ok?
  }

  function RowsOf(es: seq<Rel>): (r: seq<seq<Update>>)
    ensures |r| == |es|
  {
    seq(|es|, i requires 0 <= i < |es| => if es[i].Constant? && es[i].rows.Ok? then es[i].rows.value else [])
  }

  /// The rows of the Ok constants among the inputs, concatenated in order.
  function ConstRows(es: seq<Rel>): seq<Update>
    decreases |es|
  {
    if es == [] then []
    else
      var e := es[|es| - 1];
      ConstRows(es[..|es| - 1]) + (if e.Constant? && e.rows.Ok? then e.rows.value else [])
  }

  /// The inputs that are no Ok constant, in order.
  function NonConst(es: seq<Rel>): seq<Rel>
    decreases |es|
  {
    if es == [] then []
    else
      var e := es[|es| - 1];
      NonConst(es[..|es| - 1]) + (if e.Constant? && e.rows.Ok? then [] else [e])
  }

  /// The folded union: the first error among constant inputs, or the other
  /// inputs followed by one constant holding all constant rows.
  function UnionFolded(es: seq<Rel>, typ: R.RelationType): Rel {
    var err := FirstError(es);
    if err.Some? then Constant(D.Err(err.value), typ)
    else
      var rows := ConstRows(es);
      UnionMany(NonConst(es) + (if rows != [] then [Constant(D.Ok(rows), typ)] else []), typ)
  }

  /// The sum of the multiplicities of `row` over the Ok constant inputs.
  function ConstSum(es: seq<Rel>, row: seq<D.Datum>): int
    decreases |es|
  {
    if es == [] then 0
    else
      var e := es[|es| - 1];
      ConstSum(es[..|es| - 1], row) + (if e.Constant? && e.rows.Ok? then CR.Sum(e.rows.value, row) else 0)
  }

  /// The union's constant holds every row as often as all constant inputs
  /// together.
  lemma {:induction false} ConstRowsSum(es: seq<Rel>, row: seq<D.Datum>)
    ensures CR.Sum(ConstRows(es), row) == ConstSum(es, row)
    decreases |es|
  {
    if es != [] {
      var e := es[|es| - 1];
      ConstRowsSum(es[..|es| - 1], row);
      CR.SumAppend(ConstRows(es[..|es| - 1]), if e.Constant? && e.rows.Ok? then e.rows.value else [], row);
    }
  }

  lemma {:induction false} NonConstEmpty(es: seq<Rel>)
    requires AllOkConstants(es)
    ensures NonConst(es) == []
    decreases |es|
  {
    if es != [] {
      NonConstEmpty(es[..|es| - 1]);
    }
  }

  /// The loop over the union's inputs that moves the rows of constants
  /// into one vector and keeps the other inputs.
  method FoldUnion(es: seq<Rel>, typ: R.RelationType) returns (r: Rel)
    ensures r == UnionFolded(es, typ)
  {
    var err := FirstError(es);
    if err.Some? {
      return Constant(D.Err(err.value), typ);
    }
    var rows: seq<Update> := [];
    var newInputs: seq<Rel> := [];
    var i := 0;
    while i < |es|
      invariant 0 <= i <= |es|
      invariant rows == ConstRows(es[..i]) && newInputs == NonConst(es[..i])
    {
      assert es[..i + 1][..i] == es[..i];
      var e := es[i];
      if e.Constant? && e.rows.Ok? {
        rows := rows + e.rows.value;
      } else {
        newInputs := newInputs + [e];
      }
      i := i + 1;
    }
    assert es[..i] == es;
    if rows != [] {
      newInputs := newInputs + [Constant(D.Ok(rows), typ)];
    }
    r := UnionMany(newInputs, typ);
  }

  // ---------------------------------------------------------------------
  // The operator arms

  /// The join's product of constant inputs, restricted by the
  /// equivalences, or the join itself when the limit is exceeded.
  function JoinFolded(e: Rel, typ: R.RelationType, limit: D.Option<nat>): Rel
    requires e.Join?
  {
    if exists i :: 0 <= i < |e.inputs| && IsEmpty(e.inputs[i]) then Empty(typ)
    else
      var err := FirstError(e.inputs);
      if err.Some? then Constant(D.Err(err.value), typ)
      else if !AllOkConstants(e.inputs) then e
      else
        var p := CR.Product([TF.Update([], 1)], RowsOf(e.inputs), limit);
        if p.None? then e
        else Constant(D.Ok(CR.Keep(p.value, CR.SatisfiesEquivalences(e.equivalences))), typ)
  }

  /// What the operator's arm leaves in place of the node, before the
  /// closing consolidation; `typ` is the node's type. A scalar expression
  /// is taken as already reduced and free of temporal functions.
  function Folded(e: Rel, typ: R.RelationType, limit: D.Option<nat>, render: D.Datum -> string): Rel {
    match e
    case Reduce(input, groupKey, aggs) =>
      if !input.Constant? then e
      else if input.rows.Err? then Constant(D.Err(input.rows.error), typ)
      else Constant(CR.ReduceRows(groupKey, aggs, input.rows.value), typ)
    case Negate(input) =>
      if !input.Constant? then e
      else if input.rows.Err? then input
      else Constant(D.Ok(CR.Negated(input.rows.value)), input.typ)
    case DeclareKeys(input) => if input.Constant? then input else e
    case Threshold(input) =>
      if !input.Constant? then e
      else if input.rows.Err? then input
      else Constant(D.Ok(CR.Keep(input.rows.value, CR.Positive())), input.typ)
    case Map(input, scalars) =>
      if !input.Constant? then e
      else if input.rows.Err? then Constant(D.Err(input.rows.error), typ)
      else Constant(CR.MapRows(scalars, input.rows.value), typ)
    case FlatMap(input, func, exprs) =>
      if !input.Constant? then e
      else if input.rows.Err? then Constant(D.Err(input.rows.error), typ)
      else
        var rows := CR.FlatMapFrom(func, exprs, input.rows.value, limit, render, []);
        if rows.Err? then Constant(D.Err(rows.error), typ)
        else if rows.value.None? then e
        else Constant(D.Ok(rows.value.value), typ)
    case Filter(input, predicates) =>
      var ps := Retained(predicates);
      if AnyFalseOrNull(ps) then Empty(typ)
      else if !input.Constant? then Filter(input, ps)
      else if input.rows.Err? then Constant(D.Err(input.rows.error), typ)
      else Constant(CR.FilterRows(EvaluationOrder(ps), input.rows.value), typ)
    case Project(input, outputs) =>
      if !input.Constant? then e
      else if input.rows.Err? then Constant(D.Err(input.rows.error), typ)
      else Constant(CR.ProjectRows(outputs, input.rows.value), typ)
    case Join(_, _) => JoinFolded(e, typ, limit)
    case Union(base, inputs) => UnionFolded([base] + inputs, typ)
    case ArrangeBy(input) => if input.Constant? then input else e
    case _ => e
  }

  /// Whether the node's arm can fold it: its inputs are all constants.
  predicate FoldableNode(e: Rel) {
    match e
    case Reduce(input, _, _) => input.Constant?
    case Negate(input) => input.Constant?
    case DeclareKeys(input) => input.Constant?
    case Threshold(input) => input.Constant?
    case Map(input, _) => input.Constant?
    case FlatMap(input, _, _) => input.Constant?
    case Filter(input, _) => input.Constant?
    case Project(input, _) => input.Constant?
    case Join(inputs, _) => forall i :: 0 <= i < |inputs| ==> inputs[i].Constant?
    case Union(base, inputs) => base.Constant? && forall i :: 0 <= i < |inputs| ==> inputs[i].Constant?
    case ArrangeBy(input) => input.Constant?
    case _ => false
  }

  /// Without a limit, every operator whose inputs are all constants folds
  /// to a constant.
  lemma UnlimitedFoldsConstants(e: Rel, typ: R.RelationType, render: D.Datum -> string)
    requires FoldableNode(e)
    ensures Folded(e, typ, D.None, render).Constant?
  {
    match e
    case FlatMap(_, _, _) => FlatMapFolds(e, typ, render);
    case Join(_, _) => JoinFolds(e, typ);
    case Union(_, _) => UnionFolds(e, typ);
    case _ =>
  }

  lemma FlatMapFolds(e: Rel, typ: R.RelationType, render: D.Datum -> string)
    requires e.FlatMap? && e.input.Constant?
    ensures Folded(e, typ, D.None, render).Constant?
  {
    if e.input.rows.Ok? {
      CR.FlatMapGrows(e.func, e.exprs, e.input.rows.value, render, []);
    }
  }

  lemma JoinFolds(e: Rel, typ: R.RelationType)
    requires e.Join? && forall i :: 0 <= i < |e.inputs| ==> e.inputs[i].Constant?
    ensures JoinFolded(e, typ, D.None).Constant?
  {
    CR.ProductLimit([TF.Update([], 1)], RowsOf(e.inputs), 0);
  }

  lemma UnionFolds(e: Rel, typ: R.RelationType)
    requires e.Union? && e.base.Constant? && forall i :: 0 <= i < |e.inputs| ==> e.inputs[i].Constant?
    ensures UnionFolded([e.base] + e.inputs, typ).Constant?
  {
    var es := [e.base] + e.inputs;
    if FirstError(es).None? {
      assert forall i :: 0 <= i < |es| ==> es[i].Constant?;
      NonConstEmpty(es);
    }
  }

  /// Folding a negation of a constant twice gives the constant back.
  lemma NegateTwice(c: Rel, typ: R.RelationType, limit: D.Option<nat>, render: D.Datum -> string)
    requires c.Constant?
    ensures Folded(Negate(Folded(Negate(c), typ, limit, render)), typ, limit, render) == c
  {
    if c.rows.Ok? {
      CR.NegatedTwice(c.rows.value);
    }
  }

  /// Folding a union of constants yields one constant whose rows occur as
  /// often as in all inputs together.
  lemma UnionOfConstants(es: seq<Rel>, typ: R.RelationType, row: seq<D.Datum>)
    requires |es| >= 1 && AllOkConstants(es)
    ensures var u := UnionFolded(es, typ);
      u.Constant? && u.rows.Ok? && CR.Sum(u.rows.value, row) == ConstSum(es, row)
  {
    NonConstEmpty(es);
    ConstRowsSum(es, row);
    assert FirstError(es).None?;
  }

  // ---------------------------------------------------------------------
  // The action

  /// The operator's arm of `FoldConstants::action`, computed with the
  /// folding loops of the constant evaluator.
  method FoldArm(e: Rel, relationType: R.RelationType, limit: D.Option<nat>, render: D.Datum -> string)
    returns (folded: Rel)
    ensures folded == Folded(e, relationType, limit, render)
  {
    match e {
      case Reduce(_, _, _) => folded := FoldReduce(e, relationType, limit, render);
      case Negate(_) => folded := FoldNegate(e, relationType, limit, render);
      case Map(_, _) => folded := FoldMap(e, relationType, limit, render);
      case FlatMap(_, _, _) => folded := FoldFlatMap(e, relationType, limit, render);
      case Filter(_, _) => folded := FoldFilter(e, relationType, limit, render);
      case Join(_, _) => folded := FoldJoin(e, relationType, limit);
      case Union(base, inputs) => folded := FoldUnion([base] + inputs, relationType);
      case _ => folded := Folded(e, relationType, limit, render);
    }
  }

  /// The reduce arm, by the grouping loop.
  method FoldReduce(e: Rel, relationType: R.RelationType, limit: D.Option<nat>, render: D.Datum -> string)
    returns (folded: Rel)
    requires e.Reduce?
    ensures folded == Folded(e, relationType, limit, render)
  {
    var input := e.input;
    if input.Constant? && input.rows.Ok? {
      var rows := CR.ReduceLoop(e.groupKey, e.aggregates, input.rows.value);
      folded := Constant(rows, relationType);
    } else {
      folded := Folded(e, relationType, limit, render);
    }
  }

  /// The negate arm, by the row loop.
  method FoldNegate(e: Rel, relationType: R.RelationType, limit: D.Option<nat>, render: D.Datum -> string)
    returns (folded: Rel)
    requires e.Negate?
    ensures folded == Folded(e, relationType, limit, render)
  {
    var input := e.input;
    if input.Constant? && input.rows.Ok? {
      var rows := CR.NegateRows(input.rows.value);
      folded := Constant(D.Ok(rows), input.typ);
    } else {
      folded := Folded(e, relationType, limit, render);
    }
  }

  /// The map arm, by the row loop.
  method FoldMap(e: Rel, relationType: R.RelationType, limit: D.Option<nat>, render: D.Datum -> string)
    returns (folded: Rel)
    requires e.Map?
    ensures folded == Folded(e, relationType, limit, render)
  {
    var input := e.input;
    if input.Constant? && input.rows.Ok? {
      var rows := CR.MapLoop(e.scalars, input.rows.value);
      folded := Constant(rows, relationType);
    } else {
      folded := Folded(e, relationType, limit, render);
    }
  }

  /// The filter arm, by the row loop over the retained predicates.
  method FoldFilter(e: Rel, relationType: R.RelationType, limit: D.Option<nat>, render: D.Datum -> string)
    returns (folded: Rel)
    requires e.Filter?
    ensures folded == Folded(e, relationType, limit, render)
  {
    var input := e.input;
    var ps := Retained(e.predicates);
    if !AnyFalseOrNull(ps) && input.Constant? && input.rows.Ok? {
      var rows := CR.FilterLoop(EvaluationOrder(ps), input.rows.value);
      folded := Constant(rows, relationType);
    } else {
      folded := Folded(e, relationType, limit, render);
    }
  }

  /// The flat-map arm, by the row-by-row loop.
  method FoldFlatMap(e: Rel, relationType: R.RelationType, limit: D.Option<nat>, render: D.Datum -> string)
    returns (folded: Rel)
    requires e.FlatMap?
    ensures folded == Folded(e, relationType, limit, render)
  {
    var input := e.input;
    if input.Constant? && input.rows.Ok? {
      var rows := CR.FlatMapLoop(e.func, e.exprs, input.rows.value, limit, render);
      if rows.Err? {
        folded := Constant(D.Err(rows.error), relationType);
      } else if rows.value.None? {
        folded := e;
      } else {
        folded := Constant(D.Ok(rows.value.value), relationType);
      }
    } else {
      folded := Folded(e, relationType, limit, render);
    }
  }

  /// The join arm, by the nested product loops.
  method FoldJoin(e: Rel, relationType: R.RelationType, limit: D.Option<nat>)
    returns (folded: Rel)
    requires e.Join?
    ensures folded == JoinFolded(e, relationType, limit)
  {
    var inputs := e.inputs;
    var empty := exists i :: 0 <= i < |inputs| && IsEmpty(inputs[i]);
    if !empty && FirstError(inputs).None? && AllOkConstants(inputs) {
      var product := CR.JoinProduct(RowsOf(inputs), limit);
      if product.Some? {
        folded := Constant(D.Ok(CR.Keep(product.value, CR.SatisfiesEquivalences(e.equivalences))), relationType);
      } else {
        folded := e;
      }
    } else {
      folded := JoinFolded(e, relationType, limit);
    }
  }

  /// `FoldConstants::action` on one node whose type is `relationType`:
  /// the operator's arm, then, if the node has become a constant with
  /// rows, the consolidation of its rows and the re-derivation of its
  /// column nullability, which also becomes the node's new type `t`.
  method Action(e: Rel, relationType: R.RelationType, limit: D.Option<nat>, render: D.Datum -> string)
    returns (r: Rel, t: R.RelationType)
    ensures var f := Folded(e, relationType, limit, render);
      if f.Constant? && f.rows.Ok? then
        r.Constant? && r.rows.Ok? && r.typ == t && CR.IsConsolidation(f.rows.value, r.rows.value)
        && CR.Renulled(f.typ, r.rows.value, t)
      else r == f && t == relationType
    ensures e.Constant? && e.rows.Ok? && CR.Canonical(e.rows.value) ==> r.rows == e.rows
  {
    var folded := FoldArm(e, relationType, limit, render);
    if folded.Constant? && folded.rows.Ok? {
      var rows := CR.Consolidate(folded.rows.value);
      t := CR.Renullable(folded.typ, rows);
      r := Constant(D.Ok(rows), t);
      if e.Constant? && CR.Canonical(e.rows.value) {
        CR.ConsolidatedFixpoint(e.rows.value, rows);
      }
    } else {
      r := folded;
      t := relationType;
    }
  }
}
