// The total order on datums that sorting, `min`/`max`, the comparison
// operators and consolidation rely on. Datums of different kinds are ordered
// by kind (with SQL null last); datums of the same kind by their payload,
// sequences lexicographically.

module DatumOrder {
  import opened Datums

  datatype Ordering = Less | Equal | Greater

  function Flip(o: Ordering): Ordering {
    match o
    case Less => Greater
    case Equal => Equal
    case Greater => Less
  }

  function CmpInt(x: int, y: int): Ordering {
    if x < y then Less else if x == y then Equal else Greater
  }

  function CmpBool(x: bool, y: bool): Ordering {
    CmpInt(if x then 1 else 0, if y then 1 else 0)
  }

  /// Lexicographic comparison of strings, character by character.
  function CmpStr(s: string, t: string): Ordering
    decreases |s|
  {
    if s == [] then (if t == [] then Equal else Less)
    else if t == [] then Greater
    else if s[0] != t[0] then (if s[0] < t[0] then Less else Greater)
    else CmpStr(s[1..], t[1..])
  }

  function CmpDim(d: ArrayDim, e: ArrayDim): Ordering {
    if d.lower != e.lower then CmpInt(d.lower, e.lower) else CmpInt(d.length, e.length)
  }

  function CmpDims(ds: seq<ArrayDim>, es: seq<ArrayDim>): Ordering
    decreases |ds|
  {
    if ds == [] then (if es == [] then Equal else Less)
    else if es == [] then Greater
    else if CmpDim(ds[0], es[0]) != Equal then CmpDim(ds[0], es[0])
    else CmpDims(ds[1..], es[1..])
  }

  /// The rank of a datum's kind.
  function Tag(d: Datum): nat {
    match d
    case Bool(_) => 0
    case Int16(_) => 1
    case Int32(_) => 2
    case Int64(_) => 3
    case Numeric(_) => 4
    case String(_) => 5
    case Array(_, _) => 6
    case List(_) => 7
    case Map(_) => 8
    case Dummy => 9
    case JsonNull => 10
    case Null => 11
  }

  function Cmp(a: Datum, b: Datum): Ordering
    decreases a
  {
    match (a, b)
    case (Bool(x), Bool(y)) => CmpBool(x, y)
    case (Int16(x), Int16(y)) => CmpInt(x, y)
    case (Int32(x), Int32(y)) => CmpInt(x, y)
    case (Int64(x), Int64(y)) => CmpInt(x, y)
    case (Numeric(x), Numeric(y)) => CmpInt(x, y)
    case (String(x), String(y)) => CmpStr(x, y)
    case (Array(xs, ds), Array(ys, es)) =>
      if CmpSeq(xs, ys) != Equal then CmpSeq(xs, ys) else CmpDims(ds, es)
    case (List(xs), List(ys)) => CmpSeq(xs, ys)
    case (Map(xs), Map(ys)) => CmpEntries(xs, ys)
    case _ => CmpInt(Tag(a), Tag(b))
  }

  function CmpSeq(xs: seq<Datum>, ys: seq<Datum>): Ordering
    decreases xs
  {
    if xs == [] then (if ys == [] then Equal else Less)
    else if ys == [] then Greater
    else if Cmp(xs[0], ys[0]) != Equal then Cmp(xs[0], ys[0])
    else CmpSeq(xs[1..], ys[1..])
  }

  function CmpEntries(xs: seq<Entry>, ys: seq<Entry>): Ordering
    decreases xs
  {
    if xs == [] then (if ys == [] then Equal else Less)
    else if ys == [] then Greater
    else if CmpStr(xs[0].key, ys[0].key) != Equal then CmpStr(xs[0].key, ys[0].key)
    else if Cmp(xs[0].val, ys[0].val) != Equal then Cmp(xs[0].val, ys[0].val)
    else CmpEntries(xs[1..], ys[1..])
  }

  predicate Lt(a: Datum, b: Datum) { Cmp(a, b) == Less }
  predicate Le(a: Datum, b: Datum) { Cmp(a, b) != Greater }
  predicate StrLe(s: string, t: string) { CmpStr(s, t) != Greater }
  predicate StrLt(s: string, t: string) { CmpStr(s, t) == Less }

  // ---------------------------------------------------------------------
  // Strings

  lemma {:induction false} StrEqual(s: string, t: string)
    ensures CmpStr(s, t) == Equal <==> s == t
    ensures CmpStr(t, s) == Flip(CmpStr(s, t))
    decreases |s|
  {
    if s != [] && t != [] && s[0] == t[0] {
      StrEqual(s[1..], t[1..]);
      if s[1..] == t[1..] { assert s == [s[0]] + s[1..] && t == [t[0]] + t[1..]; }
    }
  }

  lemma {:induction false} StrTrans(s: string, t: string, u: string)
    requires CmpStr(s, t) == Less && CmpStr(t, u) == Less
    ensures CmpStr(s, u) == Less
    decreases |s|
  {
    if s != [] && t != [] && u != [] && s[0] == t[0] && t[0] == u[0] {
      StrTrans(s[1..], t[1..], u[1..]);
    }
  }

  /// Comparison of strings is a total order.
  lemma StrTotalOrder(s: string, t: string, u: string)
    ensures StrLe(s, s)
    ensures StrLe(s, t) || StrLe(t, s)
    ensures StrLe(s, t) && StrLe(t, s) ==> s == t
    ensures StrLe(s, t) && StrLe(t, u) ==> StrLe(s, u)
  {
    StrEqual(s, s);
    StrEqual(s, t);
    StrEqual(t, u);
    StrEqual(s, u);
    if CmpStr(s, t) == Less && CmpStr(t, u) == Less { StrTrans(s, t, u); }
  }

  // ---------------------------------------------------------------------
  // Array dimensions

  lemma {:induction false} DimsEqual(ds: seq<ArrayDim>, es: seq<ArrayDim>)
    ensures CmpDims(ds, es) == Equal <==> ds == es
    ensures CmpDims(es, ds) == Flip(CmpDims(ds, es))
    decreases |ds|
  {
    if ds != [] && es != [] && CmpDim(ds[0], es[0]) == Equal {
      DimsEqual(ds[1..], es[1..]);
      if ds[1..] == es[1..] { assert ds == [ds[0]] + ds[1..] && es == [es[0]] + es[1..]; }
    }
  }

  lemma {:induction false} DimsTrans(ds: seq<ArrayDim>, es: seq<ArrayDim>, fs: seq<ArrayDim>)
    requires CmpDims(ds, es) == Less && CmpDims(es, fs) == Less
    ensures CmpDims(ds, fs) == Less
    decreases |ds|
  {
    if ds != [] && es != [] && fs != [] && CmpDim(ds[0], es[0]) == Equal && CmpDim(es[0], fs[0]) == Equal {
      DimsTrans(ds[1..], es[1..], fs[1..]);
    }
  }

  // ---------------------------------------------------------------------
  // Datums: `Cmp` is antisymmetric, `Equal` means equality, `Less` is transitive.

  lemma {:induction false} CmpEqual(a: Datum, b: Datum)
    ensures Cmp(a, b) == Equal <==> a == b
    ensures Cmp(b, a) == Flip(Cmp(a, b))
    decreases a
  {
    CmpTag(a, b);
    CmpTag(b, a);
    if Tag(a) == Tag(b) {
      if a.String? {
        StrEqual(a.s, b.s);
      } else if a.Array? {
        SeqEqual(a.elems, b.elems);
        DimsEqual(a.dims, b.dims);
      } else if a.List? {
        SeqEqual(a.elems, b.elems);
      } else if a.Map? {
        EntriesEqual(a.entries, b.entries);
      }
    }
  }

  lemma {:induction false} SeqEqual(xs: seq<Datum>, ys: seq<Datum>)
    ensures CmpSeq(xs, ys) == Equal <==> xs == ys
    ensures CmpSeq(ys, xs) == Flip(CmpSeq(xs, ys))
    decreases xs
  {
    if xs != [] && ys != [] {
      CmpEqual(xs[0], ys[0]);
      if xs[0] == ys[0] {
        SeqEqual(xs[1..], ys[1..]);
        if xs[1..] == ys[1..] { assert xs == [xs[0]] + xs[1..] && ys == [ys[0]] + ys[1..]; }
      }
    }
  }

  lemma {:induction false} EntriesEqual(xs: seq<Entry>, ys: seq<Entry>)
    ensures CmpEntries(xs, ys) == Equal <==> xs == ys
    ensures CmpEntries(ys, xs) == Flip(CmpEntries(xs, ys))
    decreases xs
  {
    if xs != [] && ys != [] {
      StrEqual(xs[0].key, ys[0].key);
      CmpEqual(xs[0].val, ys[0].val);
      if xs[0] == ys[0] {
        EntriesEqual(xs[1..], ys[1..]);
        if xs[1..] == ys[1..] { assert xs == [xs[0]] + xs[1..] && ys == [ys[0]] + ys[1..]; }
      }
    }
  }

  /// Datums of different kinds compare by the rank of their kinds.
  lemma CmpTag(a: Datum, b: Datum)
    ensures Tag(a) != Tag(b) ==> Cmp(a, b) == CmpInt(Tag(a), Tag(b))
  {
  }

  lemma {:induction false} CmpTrans(a: Datum, b: Datum, c: Datum)
    requires Cmp(a, b) == Less && Cmp(b, c) == Less
    ensures Cmp(a, c) == Less
    decreases a
  {
    CmpTag(a, b);
    CmpTag(b, c);
    CmpTag(a, c);
    if Tag(a) == Tag(b) && Tag(b) == Tag(c) {
      if a.String? {
        StrTrans(a.s, b.s, c.s);
      } else if a.Array? {
        SameKindArrayTrans(a, b, c);
      } else if a.List? {
        SeqTrans(a.elems, b.elems, c.elems);
      } else if a.Map? {
        EntriesTrans(a.entries, b.entries, c.entries);
      }
    }
  }

  lemma {:induction false} SameKindArrayTrans(a: Datum, b: Datum, c: Datum)
    requires a.Array? && b.Array? && c.Array?
    requires Cmp(a, b) == Less && Cmp(b, c) == Less
    ensures Cmp(a, c) == Less
    decreases a, 0
  {
    var xs, ys, zs := a.elems, b.elems, c.elems;
    SeqEqual(xs, ys);
    SeqEqual(ys, zs);
    if CmpSeq(xs, ys) == Less && CmpSeq(ys, zs) == Less { SeqTrans(xs, ys, zs); }
    if CmpSeq(xs, ys) == Equal && CmpSeq(ys, zs) == Equal { DimsTrans(a.dims, b.dims, c.dims); }
  }

  lemma {:induction false} SeqTrans(xs: seq<Datum>, ys: seq<Datum>, zs: seq<Datum>)
    requires CmpSeq(xs, ys) == Less && CmpSeq(ys, zs) == Less
    ensures CmpSeq(xs, zs) == Less
    decreases xs
  {
    if xs != [] && ys != [] && zs != [] {
      CmpEqual(xs[0], ys[0]);
      CmpEqual(ys[0], zs[0]);
      if Cmp(xs[0], ys[0]) == Less && Cmp(ys[0], zs[0]) == Less {
        CmpTrans(xs[0], ys[0], zs[0]);
      } else if xs[0] == ys[0] && ys[0] == zs[0] {
        SeqTrans(xs[1..], ys[1..], zs[1..]);
      }
    }
  }

  lemma {:induction false} EntriesTrans(xs: seq<Entry>, ys: seq<Entry>, zs: seq<Entry>)
    requires CmpEntries(xs, ys) == Less && CmpEntries(ys, zs) == Less
    ensures CmpEntries(xs, zs) == Less
    decreases xs
  {
    if xs != [] && ys != [] && zs != [] {
      var x, y, z := xs[0], ys[0], zs[0];
      StrEqual(x.key, y.key);
      StrEqual(y.key, z.key);
      CmpEqual(x.val, y.val);
      CmpEqual(y.val, z.val);
      if CmpStr(x.key, y.key) == Less && CmpStr(y.key, z.key) == Less {
        StrTrans(x.key, y.key, z.key);
      } else if x.key == y.key && y.key == z.key {
        if Cmp(x.val, y.val) == Less && Cmp(y.val, z.val) == Less {
          CmpTrans(x.val, y.val, z.val);
        } else if x.val == y.val && y.val == z.val {
          EntriesTrans(xs[1..], ys[1..], zs[1..]);
        }
      }
    }
  }

  /// `Le` is a total order on datums: reflexive, total, antisymmetric and
  /// transitive.
  lemma DatumTotalOrder(a: Datum, b: Datum, c: Datum)
    ensures Le(a, a)
    ensures Le(a, b) || Le(b, a)
    ensures Le(a, b) && Le(b, a) ==> a == b
    ensures Le(a, b) && Le(b, c) ==> Le(a, c)
    ensures Lt(a, b) <==> Le(a, b) && a != b
  {
    CmpEqual(a, a);
    CmpEqual(a, b);
    CmpEqual(b, c);
    CmpEqual(a, c);
    if Cmp(a, b) == Less && Cmp(b, c) == Less { CmpTrans(a, b, c); }
  }

  /// Lexicographic comparison of rows (sequences of datums) is a total order too.
  lemma RowTotalOrder(xs: seq<Datum>, ys: seq<Datum>, zs: seq<Datum>)
    ensures CmpSeq(xs, xs) == Equal
    ensures CmpSeq(xs, ys) == Equal <==> xs == ys
    ensures CmpSeq(ys, xs) == Flip(CmpSeq(xs, ys))
    ensures CmpSeq(xs, ys) != Greater && CmpSeq(ys, zs) != Greater ==> CmpSeq(xs, zs) != Greater
  {
    SeqEqual(xs, xs);
    SeqEqual(xs, ys);
    SeqEqual(ys, zs);
    SeqEqual(xs, zs);
    if CmpSeq(xs, ys) == Less && CmpSeq(ys, zs) == Less { SeqTrans(xs, ys, zs); }
  }
}
