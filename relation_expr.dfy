// Relation expressions: the operator tree that constant folding and
// let-inlining rewrite. A constant holds either its `(row, diff)` updates
// or the error its evaluation raised.

module RelationExpr {
  import opened Datums
  import SE = ScalarExpr
  import AG = Aggregate
  import TF = TableFunc
  import R = Repr

  /// One aggregate of a reduction: the function, its argument, and whether
  /// it sees each distinct value once.
  datatype AggregateExpr = AggregateExpr(func: AG.AggregateFunc, expr: SE.Expr, distinct: bool)

  datatype Rel =
    | Constant(rows: Result<seq<TF.Update>>, typ: R.RelationType)
    | Get(id: nat, typ: R.RelationType)
    | Let(id: nat, value: Rel, body: Rel)
    | Map(input: Rel, scalars: seq<SE.Expr>)
    | FlatMap(input: Rel, func: TF.TableFunction, exprs: seq<SE.Expr>)
    | Filter(input: Rel, predicates: seq<SE.Expr>)
    | Project(input: Rel, outputs: seq<nat>)
    | Join(inputs: seq<Rel>, equivalences: seq<seq<SE.Expr>>)
    | Reduce(input: Rel, groupKey: seq<SE.Expr>, aggregates: seq<AggregateExpr>)
    | TopK(input: Rel)
    | Negate(input: Rel)
    | Threshold(input: Rel)
    | Union(base: Rel, inputs: seq<Rel>)
    | ArrangeBy(input: Rel)
    | DeclareKeys(input: Rel)

  /// `MirRelationExpr::is_empty`: a constant without updates.
  predicate IsEmpty(e: Rel) {
    e.Constant? && e.rows == Ok([])
  }

  /// The empty constant of a type (what `take_safely` leaves behind).
  function Empty(typ: R.RelationType): (r: Rel)
    ensures IsEmpty(r)
  {
    Constant(Ok([]), typ)
  }

  /// `MirRelationExpr::union_many`: no input is the empty constant, one
  /// input is itself, more are a union of the first with the rest.
  function UnionMany(es: seq<Rel>, typ: R.RelationType): (r: Rel)
    ensures es == [] ==> IsEmpty(r)
    ensures |es| == 1 ==> r == es[0]
    ensures |es| > 1 ==> r.Union? && [r.base] + r.inputs == es
  {
    if es == [] then Empty(typ)
    else if |es| == 1 then es[0]
    else Union(es[0], es[1..])
  }
}
