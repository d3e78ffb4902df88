// Let-inlining: every `Let` of a relation expression either has its value
// substituted for the `Get`s of its id in the body, or is lifted out of the
// tree into a list of bindings that `transform` wraps around the result.
//
// `Get` ids are the local ids of `Let` bindings. The value stripped of its
// map/filter/project layers (`extract_non_errors_from_expr`) is computed
// by code outside this model and is a parameter `strip`.

module InlineLet {
  import opened RelationExpr

  // ---------------------------------------------------------------------
  // Measures and children

  function Size(e: Rel): nat
    decreases e
  {
    1 + match e
      case Constant(_, _) => 0
      case Get(_, _) => 0
      case Let(_, v, b) => Size(v) + Size(b)
      case Map(i, _) => Size(i)
      case FlatMap(i, _, _) => Size(i)
      case Filter(i, _) => Size(i)
      case Project(i, _) => Size(i)
      case Join(ins, _) => SizeSeq(ins)
      case Reduce(i, _, _) => Size(i)
      case TopK(i) => Size(i)
      case Negate(i) => Size(i)
      case Threshold(i) => Size(i)
      case Union(b, ins) => Size(b) + SizeSeq(ins)
      case ArrangeBy(i) => Size(i)
      case DeclareKeys(i) => Size(i)
  }

  function SizeSeq(es: seq<Rel>): nat
    decreases es
  {
    if es == [] then 0 else Size(es[0]) + SizeSeq(es[1..])
  }

  /// The number of `Let` nodes.
  function LetCount(e: Rel): nat
    decreases e
  {
    match e
    case Constant(_, _) => 0
    case Get(_, _) => 0
    case Let(_, v, b) => 1 + LetCount(v) + LetCount(b)
    case Map(i, _) => LetCount(i)
    case FlatMap(i, _, _) => LetCount(i)
    case Filter(i, _) => LetCount(i)
    case Project(i, _) => LetCount(i)
    case Join(ins, _) => LetCountSeq(ins)
    case Reduce(i, _, _) => LetCount(i)
    case TopK(i) => LetCount(i)
    case Negate(i) => LetCount(i)
    case Threshold(i) => LetCount(i)
    case Union(b, ins) => LetCount(b) + LetCountSeq(ins)
    case ArrangeBy(i) => LetCount(i)
    case DeclareKeys(i) => LetCount(i)
  }

  function LetCountSeq(es: seq<Rel>): nat
    decreases es
  {
    if es == [] then 0 else LetCount(es[0]) + LetCountSeq(es[1..])
  }

  /// The relation inputs of a node, in order (a `Let`'s value, then its
  /// body).
  function Children(e: Rel): seq<Rel> {
    match e
    case Constant(_, _) => []
    case Get(_, _) => []
    case Let(_, v, b) => [v, b]
    case Map(i, _) => [i]
    case FlatMap(i, _, _) => [i]
    case Filter(i, _) => [i]
    case Project(i, _) => [i]
    case Join(ins, _) => ins
    case Reduce(i, _, _) => [i]
    case TopK(i) => [i]
    case Negate(i) => [i]
    case Threshold(i) => [i]
    case Union(b, ins) => [b] + ins
    case ArrangeBy(i) => [i]
    case DeclareKeys(i) => [i]
  }

  /// The node with its inputs replaced.
  function WithChildren(e: Rel, cs: seq<Rel>): Rel
    requires |cs| == |Children(e)|
  {
    match e
    case Constant(_, _) => e
    case Get(_, _) => e
    case Let(id, _, _) => Let(id, cs[0], cs[1])
    case Map(_, s) => Map(cs[0], s)
    case FlatMap(_, f, x) => FlatMap(cs[0], f, x)
    case Filter(_, p) => Filter(cs[0], p)
    case Project(_, o) => Project(cs[0], o)
    case Join(_, eq) => Join(cs, eq)
    case Reduce(_, k, a) => Reduce(cs[0], k, a)
    case TopK(_) => TopK(cs[0])
    case Negate(_) => Negate(cs[0])
    case Threshold(_) => Threshold(cs[0])
    case Union(_, _) => Union(cs[0], cs[1..])
    case ArrangeBy(_) => ArrangeBy(cs[0])
    case DeclareKeys(_) => DeclareKeys(cs[0])
  }

  lemma {:induction false} SeqMeasures(es: seq<Rel>, i: nat)
    requires i < |es|
    ensures LetCount(es[i]) <= LetCountSeq(es) && Size(es[i]) <= SizeSeq(es)
    decreases |es|
  {
    if i > 0 {
      SeqMeasures(es[1..], i - 1);
    }
  }

  lemma SeqAppendMeasures(x: Rel, es: seq<Rel>)
    ensures LetCountSeq([x] + es) == LetCount(x) + LetCountSeq(es)
    ensures SizeSeq([x] + es) == Size(x) + SizeSeq(es)
  {
    assert ([x] + es)[1..] == es;
  }

  /// A node's inputs are smaller than it and hold all its other `Let`s.
  lemma {:induction false} ChildrenMeasures(e: Rel)
    ensures SizeSeq(Children(e)) < Size(e)
    ensures LetCountSeq(Children(e)) + (if e.Let? then 1 else 0) == LetCount(e)
  {
    match e
    case Union(b, ins) => SeqAppendMeasures(b, ins);
    case Let(_, v, b) => SeqAppendMeasures(v, [b]); SeqAppendMeasures(b, []);
    case Join(_, _) =>
    case Constant(_, _) =>
    case Get(_, _) =>
    case _ => SeqAppendMeasures(e.input, []);
  }

  lemma {:induction false} ChildMeasures(e: Rel, i: nat)
    requires i < |Children(e)|
    ensures LetCount(Children(e)[i]) <= LetCount(e) && Size(Children(e)[i]) < Size(e)
  {
    ChildrenMeasures(e);
    SeqMeasures(Children(e), i);
  }

  lemma {:induction false} WithChildrenMeasures(e: Rel, cs: seq<Rel>)
    requires |cs| == |Children(e)|
    ensures LetCount(WithChildren(e, cs)) == LetCountSeq(cs) + (if e.Let? then 1 else 0)
    ensures Children(WithChildren(e, cs)) == cs
  {
    var w := WithChildren(e, cs);
    if e.Union? {
      assert cs == [cs[0]] + cs[1..];
      SeqAppendMeasures(cs[0], cs[1..]);
    } else if e.Let? {
      assert cs == [cs[0]] + [cs[1]];
      SeqAppendMeasures(cs[0], [cs[1]]);
      SeqAppendMeasures(cs[1], []);
    } else if !e.Join? && !e.Constant? && !e.Get? {
      assert cs == [cs[0]] + [];
      SeqAppendMeasures(cs[0], []);
    }
  }

  lemma {:induction false} WithOwnChildren(e: Rel)
    ensures WithChildren(e, Children(e)) == e
  {
    if e.Union? {
      assert ([e.base] + e.inputs)[1..] == e.inputs;
    }
  }

  // ---------------------------------------------------------------------
  // Counting and replacing `Get`s

  /// The number of `Get`s of `id`, anywhere in the tree.
  function CountGets(e: Rel, id: nat): nat
    decreases Size(e), 0
  {
    ChildrenMeasures(e);
    (if e.Get? && e.id == id then 1 else 0) + CountGetsSeq(Children(e), id)
  }

  function CountGetsSeq(es: seq<Rel>, id: nat): nat
    decreases SizeSeq(es), 1
  {
    if es == [] then 0
    else
      SeqMeasures(es, 0);
      CountGets(es[0], id) + CountGetsSeq(es[1..], id)
  }

  /// Every `Get` of `id` replaced by `v`; the copies are not visited again.
  function Subst(e: Rel, id: nat, v: Rel): Rel
    decreases Size(e), 0
  {
    if e.Get? then (if e.id == id then v else e)
    else
      ChildrenMeasures(e);
      WithChildren(e, SubstSeq(Children(e), id, v))
  }

  function SubstSeq(es: seq<Rel>, id: nat, v: Rel): (r: seq<Rel>)
    ensures |r| == |es|
    decreases SizeSeq(es), 1
  {
    if es == [] then []
    else
      SeqMeasures(es, 0);
      [Subst(es[0], id, v)] + SubstSeq(es[1..], id, v)
  }

  /// Substituting a value without `Let`s adds no `Let`s.
  lemma {:induction false} SubstLetCount(e: Rel, id: nat, v: Rel)
    requires LetCount(v) == 0
    ensures LetCount(Subst(e, id, v)) == LetCount(e)
    decreases Size(e), 0
  {
    if !e.Get? {
      ChildrenMeasures(e);
      SubstSeqLetCount(Children(e), id, v);
      WithChildrenMeasures(e, SubstSeq(Children(e), id, v));
    }
  }

  lemma {:induction false} SubstSeqLetCount(es: seq<Rel>, id: nat, v: Rel)
    requires LetCount(v) == 0
    ensures LetCountSeq(SubstSeq(es, id, v)) == LetCountSeq(es)
    decreases SizeSeq(es), 1
  {
    if es != [] {
      SeqMeasures(es, 0);
      SubstLetCount(es[0], id, v);
      SubstSeqLetCount(es[1..], id, v);
      SeqAppendMeasures(Subst(es[0], id, v), SubstSeq(es[1..], id, v));
    }
  }

  /// After substituting a value that does not mention `id`, no `Get` of
  /// `id` is left.
  lemma {:induction false} SubstRemovesGets(e: Rel, id: nat, v: Rel)
    requires CountGets(v, id) == 0
    ensures CountGets(Subst(e, id, v), id) == 0
    decreases Size(e), 0
  {
    if !e.Get? {
      ChildrenMeasures(e);
      var cs := SubstSeq(Children(e), id, v);
      SubstSeqRemovesGets(Children(e), id, v);
      WithChildrenMeasures(e, cs);
    }
  }

  lemma {:induction false} SubstSeqRemovesGets(es: seq<Rel>, id: nat, v: Rel)
    requires CountGets(v, id) == 0
    ensures CountGetsSeq(SubstSeq(es, id, v), id) == 0
    decreases SizeSeq(es), 1
  {
    if es != [] {
      SeqMeasures(es, 0);
      SubstRemovesGets(es[0], id, v);
      SubstSeqRemovesGets(es[1..], id, v);
      assert SubstSeq(es, id, v)[1..] == SubstSeq(es[1..], id, v);
    }
  }

  /// A body without `Get`s of `id` is left as it is.
  lemma {:induction false} SubstAbsent(e: Rel, id: nat, v: Rel)
    requires CountGets(e, id) == 0
    ensures Subst(e, id, v) == e
    decreases Size(e), 0
  {
    if !e.Get? {
      ChildrenMeasures(e);
      SubstSeqAbsent(Children(e), id, v);
      WithOwnChildren(e);
    }
  }

  lemma {:induction false} SubstSeqAbsent(es: seq<Rel>, id: nat, v: Rel)
    requires CountGetsSeq(es, id) == 0
    ensures SubstSeq(es, id, v) == es
    decreases SizeSeq(es), 1
  {
    if es != [] {
      SeqMeasures(es, 0);
      SubstAbsent(es[0], id, v);
      SubstSeqAbsent(es[1..], id, v);
    }
  }

  // ---------------------------------------------------------------------
  // The rewrite

  /// A lifted binding.
  datatype Binding = Binding(id: nat, value: Rel)

  datatype Inlined = Inlined(rel: Rel, lets: seq<Binding>)
  datatype InlinedSeq = InlinedSeq(rels: seq<Rel>, lets: seq<Binding>)

  predicate LiftedLetFree(lets: seq<Binding>, from: nat) {
    forall k :: from <= k < |lets| ==> LetCount(lets[k].value) == 0
  }

  /// Whether a binding is inlined: its (stripped) value is a `Get` or a
  /// constant, or its id occurs at most once in the body.
  predicate Inlinable(stripped: Rel, numGets: nat) {
    stripped.Get? || stripped.Constant? || numGets <= 1
  }

  /// `InlineLet::action` on `e` with the bindings `lets` lifted so far.
  ///
  /// The result has no `Let` left; the lifted bindings extend `lets`, hold
  /// values without `Let`s, and are no more than the `Let`s of `e`; and an
  /// expression without `Let`s is left as it is.
  function Inline(e: Rel, lets: seq<Binding>, inlineMfp: bool, strip: Rel -> Rel): (r: Inlined)
    ensures LetCount(r.rel) == 0
    ensures lets <= r.lets && LiftedLetFree(r.lets, |lets|) && |r.lets| <= |lets| + LetCount(e)
    ensures LetCount(e) == 0 ==> r == Inlined(e, lets)
    decreases LetCount(e), Size(e), 0
  {
    if e.Let? then
      var v := Inline(e.value, lets, inlineMfp, strip);
      var numGets := CountGets(e.body, e.id);
      var stripped := if inlineMfp then strip(v.rel) else v.rel;
      if Inlinable(stripped, numGets) then
        SubstLetCount(e.body, e.id, v.rel);
        Inline(Subst(e.body, e.id, v.rel), v.lets, inlineMfp, strip)
      else
        Inline(e.body, v.lets + [Binding(e.id, v.rel)], inlineMfp, strip)
    else
      ChildrenMeasures(e);
      var cs := InlineSeq(Children(e), lets, inlineMfp, strip);
      WithChildrenMeasures(e, cs.rels);
      WithOwnChildren(e);
      Inlined(WithChildren(e, cs.rels), cs.lets)
  }

  /// `visit1_mut`: the rewrite of each input in turn.
  function InlineSeq(es: seq<Rel>, lets: seq<Binding>, inlineMfp: bool, strip: Rel -> Rel): (r: InlinedSeq)
    ensures |r.rels| == |es| && LetCountSeq(r.rels) == 0
    ensures lets <= r.lets && LiftedLetFree(r.lets, |lets|) && |r.lets| <= |lets| + LetCountSeq(es)
    ensures LetCountSeq(es) == 0 ==> r == InlinedSeq(es, lets)
    decreases LetCountSeq(es), SizeSeq(es), 1
  {
    if es == [] then InlinedSeq([], lets)
    else
      SeqMeasures(es, 0);
      var x := Inline(es[0], lets, inlineMfp, strip);
      var rest := InlineSeq(es[1..], x.lets, inlineMfp, strip);
      SeqAppendMeasures(x.rel, rest.rels);
      assert es == [es[0]] + es[1..];
      InlinedSeq([x.rel] + rest.rels, rest.lets)
  }

  /// A binding that is lifted comes after every binding lifted out of its
  /// own value, and the body is rewritten after it.
  lemma LiftOrder(id: nat, value: Rel, body: Rel, lets: seq<Binding>, inlineMfp: bool, strip: Rel -> Rel)
    ensures var v := Inline(value, lets, inlineMfp, strip);
      var stripped := if inlineMfp then strip(v.rel) else v.rel;
      var r := Inline(Let(id, value, body), lets, inlineMfp, strip);
      !Inlinable(stripped, CountGets(body, id)) ==>
        v.lets + [Binding(id, v.rel)] <= r.lets && r == Inline(body, v.lets + [Binding(id, v.rel)], inlineMfp, strip)
  {
  }

  /// An inlined binding leaves no `Get` of its id in the body it replaces
  /// it in, when its value does not mention the id itself.
  lemma InlinedGetsGone(id: nat, value: Rel, body: Rel, lets: seq<Binding>, inlineMfp: bool, strip: Rel -> Rel)
    requires CountGets(Inline(value, lets, inlineMfp, strip).rel, id) == 0
    ensures var v := Inline(value, lets, inlineMfp, strip);
      var stripped := if inlineMfp then strip(v.rel) else v.rel;
      Inlinable(stripped, CountGets(body, id)) ==>
        Inline(Let(id, value, body), lets, inlineMfp, strip) == Inline(Subst(body, id, v.rel), v.lets, inlineMfp, strip)
        && CountGets(Subst(body, id, v.rel), id) == 0
  {
    SubstRemovesGets(body, id, Inline(value, lets, inlineMfp, strip).rel);
  }

  /// `InlineLet::action`, rewriting in place: a `Let` is replaced by its
  /// rewritten body after its value has been rewritten and either
  /// substituted or pushed onto `lets`; any other node has each input
  /// rewritten in turn.
  method Action(e: Rel, lets: seq<Binding>, inlineMfp: bool, strip: Rel -> Rel)
    returns (r: Rel, lets': seq<Binding>)
    ensures Inlined(r, lets') == Inline(e, lets, inlineMfp, strip)
    decreases LetCount(e), Size(e), 0
  {
    if e.Let? {
      var value, l1 := Action(e.value, lets, inlineMfp, strip);
      var numGets := CountGets(e.body, e.id);
      var stripped := if inlineMfp then strip(value) else value;
      if Inlinable(stripped, numGets) {
        SubstLetCount(e.body, e.id, value);
        r, lets' := Action(Subst(e.body, e.id, value), l1, inlineMfp, strip);
      } else {
        r, lets' := Action(e.body, l1 + [Binding(e.id, value)], inlineMfp, strip);
      }
    } else {
      ChildrenMeasures(e);
      var cs;
      cs, lets' := ActionSeq(Children(e), lets, inlineMfp, strip);
      r := WithChildren(e, cs);
    }
  }

  /// `visit1_mut(|child| self.action(child, lets))`: the inputs rewritten
  /// from first to last, each seeing the bindings lifted by those before it.
  method ActionSeq(es: seq<Rel>, lets: seq<Binding>, inlineMfp: bool, strip: Rel -> Rel)
    returns (rs: seq<Rel>, lets': seq<Binding>)
    ensures InlinedSeq(rs, lets') == InlineSeq(es, lets, inlineMfp, strip)
    decreases LetCountSeq(es), SizeSeq(es), 1
  {
    if es == [] {
      rs, lets' := [], lets;
    } else {
      SeqMeasures(es, 0);
      var r, l := Action(es[0], lets, inlineMfp, strip);
      var rest;
      rest, lets' := ActionSeq(es[1..], l, inlineMfp, strip);
      rs := [r] + rest;
    }
  }

  /// The lifted bindings wrapped around `body`, the first one outermost.
  function Nest(bs: seq<Binding>, body: Rel): Rel {
    if bs == [] then body else Let(bs[0].id, bs[0].value, Nest(bs[1..], body))
  }

  /// Only a chain of `Let`s with `Let`-free values at the top, around a
  /// `Let`-free body.
  predicate LetsOnTop(e: Rel) {
    if e.Let? then LetCount(e.value) == 0 && LetsOnTop(e.body) else LetCount(e) == 0
  }

  lemma {:induction false} NestLetsOnTop(bs: seq<Binding>, body: Rel)
    requires LiftedLetFree(bs, 0) && LetCount(body) == 0
    ensures LetsOnTop(Nest(bs, body)) && LetCount(Nest(bs, body)) == |bs|
    decreases |bs|
  {
    if bs != [] {
      NestLetsOnTop(bs[1..], body);
    }
  }

  /// `InlineLet::transform`: the rewrite, then the lifted bindings wrapped
  /// around the result, first-lifted outermost. Every remaining `Let` is at
  /// the top, and there are no more of them than before.
  method Transform(e: Rel, inlineMfp: bool, strip: Rel -> Rel) returns (r: Rel)
    ensures var x := Inline(e, [], inlineMfp, strip); r == Nest(x.lets, x.rel)
    ensures LetsOnTop(r) && LetCount(r) <= LetCount(e)
    ensures LetCount(e) == 0 ==> r == e
  {
    var body, lets := Action(e, [], inlineMfp, strip);
    r := body;
    var i := |lets|;
    while i > 0
      invariant 0 <= i <= |lets|
      invariant r == Nest(lets[i..], body)
    {
      i := i - 1;
      assert lets[i..][1..] == lets[i + 1..];
      r := Let(lets[i].id, lets[i].value, r);
    }
    assert lets[0..] == lets;
    NestLetsOnTop(lets, body);
  }
}
