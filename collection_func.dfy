// The structural operators of the scalar function library on lists, arrays,
// maps and jsonb values, applied to already evaluated datums.

module CollectionFunc {
  import opened Datums
  import opened DatumOrder
  import opened Sorting
  import opened EntrySort

  // ---------------------------------------------------------------------
  // Lists and arrays

  /// `list_index`: 1-based; positions outside `1..=len` give Null.
  function ListIndex(l: seq<Datum>, i: int): (r: Datum)
    ensures 1 <= i <= |l| ==> r == l[i - 1]
    ensures !(1 <= i <= |l|) ==> r == Null
  {
    if i < 1 then Null
    else match Nth(l, i - 1)
      case Some(d) => d
      case None => Null
  }

  /// `array_index`: 1-based indexing of an array's elements.
  function ArrayIndex(a: Datum, i: int): (r: Datum)
    requires a.Array?
    ensures 1 <= i <= |a.elems| ==> r == a.elems[i - 1]
    ensures !(1 <= i <= |a.elems|) ==> r == Null
  {
    if i < 1 then Null
    else match Nth(a.elems, i - 1)
      case Some(d) => d
      case None => Null
  }

  /// `array_length`: the length of dimension `i` (1-based), Null when the
  /// array has no such dimension.
  function ArrayLength(a: Datum, i: int): (r: Datum)
    requires a.Array?
    ensures 1 <= i <= |a.dims| ==> r == Int64(a.dims[i - 1].length)
    ensures !(1 <= i <= |a.dims|) ==> r == Null
  {
    if i <= 0 then Null
    else match Nth(a.dims, i - 1)
      case Some(dim) => Int64(dim.length)
      case None => Null
  }

  /// `array_contains`: some element of the array equals the datum.
  function ArrayContains(x: Datum, a: Datum): (r: bool)
    requires a.Array?
    ensures r <==> x in a.elems
  {
    exists i :: 0 <= i < |a.elems| && a.elems[i] == x
  }

  /// `list_length`.
  function ListLength(l: seq<Datum>): (r: Datum)
    ensures r.Int64? && r.i == |l|
    ensures forall i :: 1 <= i <= r.i ==> ListIndex(l, i) == l[i - 1]
  {
    Int64(|l|)
  }

  /// `record_get`: field `i` of a record (a record is packed as a list).
  function RecordGet(fields: seq<Datum>, i: nat): (r: Datum)
    requires i < |fields|
    ensures r == ListIndex(fields, i + 1)
  {
    match Nth(fields, i)
    case Some(d) => d
  }

  predicate ListOrNull(d: Datum) { d.List? || d.Null? }

  function ElemsOrEmpty(d: Datum): seq<Datum>
    requires ListOrNull(d)
  {
    if d.Null? then [] else d.elems
  }

  /// `list_list_concat`: a Null operand is the identity.
  function ListListConcat(a: Datum, b: Datum): (r: Datum)
    requires ListOrNull(a) && ListOrNull(b)
    ensures a.Null? ==> r == b
    ensures b.Null? ==> r == a
    ensures a.List? && b.List? ==> r.List? && |r.elems| == |a.elems| + |b.elems|
    ensures a.List? && b.List? ==> forall i :: 1 <= i <= |r.elems| ==>
      ListIndex(r.elems, i) == if i <= |a.elems| then ListIndex(a.elems, i) else ListIndex(b.elems, i - |a.elems|)
  {
    if a.Null? then b
    else if b.Null? then a
    else List(a.elems + b.elems)
  }

  /// `list_element_concat`: appends `b` (which may itself be Null) to the
  /// list `a`, a Null list counting as empty.
  function ListElementConcat(a: Datum, b: Datum): (r: Datum)
    requires ListOrNull(a)
    ensures r.List? && |r.elems| == |ElemsOrEmpty(a)| + 1
    ensures ListIndex(r.elems, |r.elems|) == b
    ensures forall i :: 1 <= i < |r.elems| ==> ListIndex(r.elems, i) == ListIndex(ElemsOrEmpty(a), i)
  {
    List((if a.Null? then [] else a.elems) + [b])
  }

  /// `element_list_concat`: prepends `a` to the list `b`, a Null list
  /// counting as empty.
  function ElementListConcat(a: Datum, b: Datum): (r: Datum)
    requires ListOrNull(b)
    ensures r.List? && |r.elems| == |ElemsOrEmpty(b)| + 1
    ensures ListIndex(r.elems, 1) == a
    ensures forall i :: 1 < i <= |r.elems| ==> ListIndex(r.elems, i) == ListIndex(ElemsOrEmpty(b), i - 1)
  {
    List([a] + (if b.Null? then [] else b.elems))
  }

  /// The number of elements a well-formed array with these dimensions
  /// holds: the product of the lengths; a zero-dimensional array is empty.
  function DimsCardinality(dims: seq<ArrayDim>): nat {
    if dims == [] then 0 else Product(dims)
  }

  function Product(dims: seq<ArrayDim>): nat {
    if dims == [] then 1 else dims[0].length * Product(dims[1..])
  }

  /// `array_create_scalar`: a one-dimensional array with lower bound 1, or
  /// the zero-dimensional empty array when there are no elements.
  function ArrayCreateScalar(ds: seq<Datum>): (r: Datum)
    ensures r.Array? && r.elems == ds
    ensures DimsCardinality(r.dims) == |ds|
    ensures |r.dims| == if ds == [] then 0 else 1
    ensures ds != [] ==> r.dims[0].lower == 1
    ensures forall i :: 1 <= i <= |ds| ==> ArrayIndex(r, i) == ds[i - 1]
  {
    var dims := if ds == [] then [] else [ArrayDim(1, |ds|)];
    assert ds != [] ==> Product(dims) == |ds| * Product(dims[1..]) && dims[1..] == [];
    Array(ds, dims)
  }

  predicate AllArrays(ds: seq<Datum>) {
    forall i :: 0 <= i < |ds| ==> ds[i].Array?
  }

  /// The elements of the arrays `ds`, one array after the other.
  function Flatten(ds: seq<Datum>): (r: seq<Datum>)
    requires AllArrays(ds)
    decreases |ds|
  {
    if ds == [] then [] else Flatten(ds[..|ds| - 1]) + ds[|ds| - 1].elems
  }

  /// The arrays of `ds` all have the dimensions `dims` and are well formed.
  predicate Uniform(ds: seq<Datum>, dims: seq<ArrayDim>)
    requires AllArrays(ds)
  {
    forall i :: 0 <= i < |ds| ==> ds[i].dims == dims && |ds[i].elems| == DimsCardinality(dims)
  }

  lemma {:induction false} FlattenUniform(ds: seq<Datum>, dims: seq<ArrayDim>)
    requires AllArrays(ds) && Uniform(ds, dims)
    ensures |Flatten(ds)| == |ds| * DimsCardinality(dims)
    decreases |ds|
  {
    if ds != [] {
      var init := ds[..|ds| - 1];
      assert AllArrays(init) && Uniform(init, dims) by {
        assert forall i :: 0 <= i < |init| ==> init[i] == ds[i];
      }
      FlattenUniform(init, dims);
      assert |ds| * DimsCardinality(dims) == |init| * DimsCardinality(dims) + DimsCardinality(dims);
    }
  }

  /// `array_create_multidim`: all zero-dimensional inputs give the
  /// zero-dimensional array; otherwise a new outer dimension of length
  /// `|ds|` (lower bound 1) goes in front of the first input's dimensions
  /// and the elements are concatenated. Packing the array checks that the
  /// element count matches the dimensions.
  function ArrayCreateMultidim(ds: seq<Datum>): (r: Result<Datum>)
    requires AllArrays(ds)
    ensures (forall i :: 0 <= i < |ds| ==> ds[i].dims == []) ==> r == Ok(Array([], []))
    ensures r.Ok? ==> r.value.Array? && DimsCardinality(r.value.dims) == |r.value.elems|
    ensures r.Ok? && (exists i :: 0 <= i < |ds| && ds[i].dims != []) ==>
      r.value.dims == [ArrayDim(1, |ds|)] + ds[0].dims && r.value.elems == Flatten(ds)
    ensures r.Err? ==> r.error == InvalidArrayCardinality
  {
    if forall i :: 0 <= i < |ds| ==> ds[i].dims == [] then Ok(Array([], []))
    else
      var dims := [ArrayDim(1, |ds|)] + (if ds == [] then [] else ds[0].dims);
      var elems := Flatten(ds);
      assert Product(dims) == |ds| * Product(dims[1..]) && dims[1..] == ds[0].dims;
      if DimsCardinality(dims) == |elems| then Ok(Array(elems, dims)) else Err(InvalidArrayCardinality)
  }

  /// Well-formed inputs of equal dimensions always pack.
  lemma ArrayCreateMultidimUniform(ds: seq<Datum>)
    requires AllArrays(ds) && ds != [] && Uniform(ds, ds[0].dims)
    ensures ArrayCreateMultidim(ds).Ok?
  {
    if exists i :: 0 <= i < |ds| && ds[i].dims != [] {
      FlattenUniform(ds, ds[0].dims);
      var dims := [ArrayDim(1, |ds|)] + ds[0].dims;
      assert Product(dims) == |ds| * Product(dims[1..]) && dims[1..] == ds[0].dims;
    }
  }

  /// `list_create`.
  function ListCreate(ds: seq<Datum>): (r: Datum)
    ensures r.List? && ListLength(r.elems) == Int64(|ds|)
    ensures forall i :: 1 <= i <= |ds| ==> ListIndex(r.elems, i) == ds[i - 1]
  {
    List(ds)
  }

  // ---------------------------------------------------------------------
  // Maps (keys are always text)

  /// `map_contains_key`.
  function MapContainsKey(m: seq<Entry>, k: string): (r: bool)
    ensures r <==> k in Keys(m)
  {
    if m == [] then false else m[0].key == k || MapContainsKey(m[1..], k)
  }

  predicate StringOrNull(d: Datum) { d.String? || d.Null? }

  /// `map_contains_all_keys`: every key of the text array is non-Null and
  /// present in the map.
  function MapContainsAllKeys(m: seq<Entry>, keys: seq<Datum>): (r: bool)
    requires forall i :: 0 <= i < |keys| ==> StringOrNull(keys[i])
    ensures r <==> forall i :: 0 <= i < |keys| ==> keys[i].String? && keys[i].s in Keys(m)
  {
    if keys == [] then true
    else keys[0].String? && MapContainsKey(m, keys[0].s) && MapContainsAllKeys(m, keys[1..])
  }

  /// `map_contains_any_keys`: some key of the text array is non-Null and
  /// present in the map.
  function MapContainsAnyKeys(m: seq<Entry>, keys: seq<Datum>): (r: bool)
    requires forall i :: 0 <= i < |keys| ==> StringOrNull(keys[i])
    ensures r <==> exists i :: 0 <= i < |keys| && keys[i].String? && keys[i].s in Keys(m)
  {
    if keys == [] then false
    else (keys[0].String? && MapContainsKey(m, keys[0].s)) || MapContainsAnyKeys(m, keys[1..])
  }

  /// `map_contains_map`: every entry of `b` occurs, key and value, in `a`.
  function MapContainsMap(a: seq<Entry>, b: seq<Entry>): (r: bool)
    ensures r <==> forall e :: e in b ==> e in a
  {
    if b == [] then true else ContainsEntry(a, b[0]) && MapContainsMap(a, b[1..])
  }

  function ContainsEntry(a: seq<Entry>, e: Entry): (r: bool)
    ensures r <==> e in a
  {
    if a == [] then false else (a[0].key == e.key && a[0].val == e.val) || ContainsEntry(a[1..], e)
  }

  /// On maps with distinct keys, containment means every key of `b` looks
  /// up in `a` to the same value.
  lemma MapContainsMapLookup(a: seq<Entry>, b: seq<Entry>)
    requires KeysDistinct(a)
    ensures MapContainsMap(a, b) <==> forall e :: e in b ==> Lookup(a, e.key) == Some(e.val)
  {
    forall e | e in a ensures Lookup(a, e.key) == Some(e.val) {
      LookupDistinct(a, e);
    }
  }

  lemma {:induction false} LookupDistinct(a: seq<Entry>, e: Entry)
    requires KeysDistinct(a) && e in a
    ensures Lookup(a, e.key) == Some(e.val)
    decreases |a|
  {
    if a[0] != e {
      var j :| 0 <= j < |a| && a[j] == e;
      assert a[0].key != a[j].key && a[1..][j - 1] == e;
      LookupDistinct(a[1..], e);
    }
  }

  /// `map_get_value`: the value of the first entry with the key, or Null.
  function MapGetValue(m: seq<Entry>, k: string): (r: Datum)
    ensures k !in Keys(m) ==> r == Null
    ensures k in Keys(m) ==> exists i :: 0 <= i < |m| && m[i] == Entry(k, r) && forall j :: 0 <= j < i ==> m[j].key != k
  {
    LookupFirst(m, k);
    match Lookup(m, k)
    case Some(v) => v
    case None => Null
  }

  lemma {:induction false} LookupFirst(m: seq<Entry>, k: string)
    ensures Lookup(m, k).Some? ==> exists i :: 0 <= i < |m| && m[i] == Entry(k, Lookup(m, k).value) && forall j :: 0 <= j < i ==> m[j].key != k
    decreases |m|
  {
    if m != [] && m[0].key != k && Lookup(m, k).Some? {
      LookupFirst(m[1..], k);
      var i :| 0 <= i < |m[1..]| && m[1..][i] == Entry(k, Lookup(m, k).value) && forall j :: 0 <= j < i ==> m[1..][j].key != k;
      assert m[i + 1] == Entry(k, Lookup(m, k).value);
      assert forall j :: 0 <= j < i + 1 ==> m[j].key != k by {
        forall j | 0 <= j < i + 1 ensures m[j].key != k {
          if j > 0 { assert m[j] == m[1..][j - 1]; }
        }
      }
    }
  }

  // ---------------------------------------------------------------------
  // jsonb

  /// The datum kinds a jsonb value is made of.
  predicate JsonbKind(d: Datum) {
    d.JsonNull? || d.Bool? || d.String? || d.Int64? || d.List? || d.Map?
  }

  /// `jsonb_type`: the name used in cast error messages.
  function JsonbType(d: Datum): string
    requires JsonbKind(d)
  {
    match d
    case JsonNull => "null"
    case Bool(_) => "boolean"
    case String(_) => "string"
    case Int64(_) => "numeric"
    case List(_) => "array"
    case Map(_) => "object"
  }

  /// `cast_jsonb_to_bool`: only a jsonb boolean casts.
  function CastJsonbToBool(a: Datum): (r: Result<Datum>)
    requires JsonbKind(a)
    ensures r.Ok? <==> a.Bool?
    ensures r.Ok? ==> r.value == a
    ensures r.Err? ==> r.error == InvalidJsonbCast(JsonbType(a), "boolean")
  {
    match a
    case Bool(_) => Ok(a)
    case _ => Err(InvalidJsonbCast(JsonbType(a), "boolean"))
  }

  /// `cast_jsonb_or_null_to_jsonb` (the float cases are not modelled): SQL
  /// Null becomes jsonb null, anything else passes through.
  function CastJsonbOrNullToJsonb(a: Datum): (r: Datum)
    ensures !r.Null?
    ensures !a.Null? ==> r == a
    ensures a.Null? ==> r == JsonNull
  {
    match a
    case Null => JsonNull
    case _ => a
  }

  /// `jsonb_array_length`: the element count of a jsonb array, Null for any
  /// other jsonb value.
  function JsonbArrayLength(a: Datum): (r: Datum)
    ensures a.List? ==> r == ListLength(a.elems)
    ensures !a.List? ==> r == Null
  {
    match a
    case List(l) => Int64(|l|)
    case _ => Null
  }

  /// `jsonb_typeof`.
  function JsonbTypeof(a: Datum): (r: Datum)
    requires JsonbKind(a) || a.Null?
    ensures r.Null? <==> a.Null?
    ensures r.String? ==> r.s in {"object", "array", "string", "number", "boolean", "null"}
    ensures JsonbKind(a) && !a.Int64? ==> r == String(JsonbType(a))
  {
    match a
    case Map(_) => String("object")
    case List(_) => String("array")
    case String(_) => String("string")
    case Int64(_) => String("number")
    case Bool(_) => String("boolean")
    case JsonNull => String("null")
    case Null => Null
  }

  /// `jsonb_contains_string`: an array contains the string as an element, an
  /// object as a key, a string by equality.
  function JsonbContainsString(a: Datum, k: string): (r: bool)
    ensures a.List? ==> (r <==> String(k) in a.elems)
    ensures a.Map? ==> (r <==> k in Keys(a.entries))
    ensures a.String? ==> (r <==> a.s == k)
    ensures !(a.List? || a.Map? || a.String?) ==> !r
  {
    match a
    case List(l) => String(k) in l
    case Map(m) => MapContainsKey(m, k)
    case String(s) => s == k
    case _ => false
  }

  /// `jsonb_concat`. Two objects merge (see `JsonbConcatObjects`); two
  /// arrays concatenate; an array and a scalar append or prepend the
  /// scalar; anything else gives Null.
  function JsonbConcat(a: Datum, b: Datum): (r: Datum)
    ensures a.Map? && b.Map? ==> r.Map?
    ensures a.List? && b.List? ==> r == List(a.elems + b.elems)
    ensures a.List? && !b.List? ==> r == List(a.elems + [b])
    ensures !a.List? && b.List? ==> r == List([a] + b.elems)
    ensures !(a.Map? && b.Map?) && !a.List? && !b.List? ==> r == Null
  {
    match (a, b)
    case (Map(ma), Map(mb)) =>
      // The stable sort keeps `mb`'s entry ahead of `ma`'s for equal keys,
      // so the deduplication keeps the right-hand value.
      Map(DedupFirst(SortBy(mb + ma, KeyLe())))
    case (List(la), List(lb)) => List(la + lb)
    case (List(la), _) => List(la + [b])
    case (_, List(lb)) => List([a] + lb)
    case _ => Null
  }

  /// Merging two objects yields each key of either exactly once, in
  /// ascending order, with the right-hand value winning a collision.
  lemma JsonbConcatObjects(ma: seq<Entry>, mb: seq<Entry>)
    ensures var r := JsonbConcat(Map(ma), Map(mb)).entries;
      KeysStrictlySorted(r) &&
      (forall k :: k in Keys(r) <==> k in Keys(ma) || k in Keys(mb)) &&
      (forall k :: Lookup(r, k) == if k in Keys(mb) then Lookup(mb, k) else Lookup(ma, k))
  {
    var es := mb + ma;
    var r := DedupFirst(SortBy(es, KeyLe()));
    assert JsonbConcat(Map(ma), Map(mb)) == Map(r);
    SortDedupFirst(es);
    forall k
      ensures k in Keys(r) <==> k in Keys(ma) || k in Keys(mb)
      ensures Lookup(r, k) == if k in Keys(mb) then Lookup(mb, k) else Lookup(ma, k)
    {
      LookupAppend(mb, ma, k);
      assert Lookup(r, k) == Lookup(es, k);
    }
  }

  /// `jsonb_build_array`: Null if any element is Null, the array otherwise.
  function JsonbBuildArray(ds: seq<Datum>): (r: Datum)
    ensures r.Null? <==> exists i :: 0 <= i < |ds| && ds[i].Null?
    ensures !r.Null? ==> r == List(ds)
  {
    if AnyNull(ds) then Null else List(ds)
  }

  function AnyNull(ds: seq<Datum>): (r: bool)
    ensures r <==> exists i :: 0 <= i < |ds| && ds[i].Null?
  {
    if ds == [] then false
    else
      assert forall i :: 0 < i < |ds| ==> ds[i] == ds[1..][i - 1];
      ds[0].Null? || AnyNull(ds[1..])
  }

  /// The key/value pairs `datums.chunks(2)` of a `jsonb_build_object` call.
  function Pairs(ds: seq<Datum>): (es: seq<Entry>)
    requires |ds| % 2 == 0
    requires forall i :: 0 <= i < |ds| / 2 ==> ds[2 * i].String?
    ensures |es| == |ds| / 2
    ensures forall i :: 0 <= i < |es| ==> es[i] == Entry(ds[2 * i].s, ds[2 * i + 1])
    decreases |ds|
  {
    if ds == [] then []
    else
      assert forall i :: 0 <= i < |ds[2..]| / 2 ==> ds[2..][2 * i] == ds[2 * (i + 1)];
      assert ds[2 * 0].String?;
      [Entry(ds[0].s, ds[1])] + Pairs(ds[2..])
  }

  predicate KeysAreText(ds: seq<Datum>)
    requires |ds| % 2 == 0
  {
    forall i :: 0 <= i < |ds| / 2 ==> StringOrNull(ds[2 * i])
  }

  /// `jsonb_build_object`: Null if any argument is Null; otherwise the
  /// pairs sorted by key (keys are text, so the datum order on keys is the
  /// string order) with the first pair of each key kept.
  function JsonbBuildObject(ds: seq<Datum>): (r: Datum)
    requires |ds| % 2 == 0 && KeysAreText(ds)
    ensures r.Null? <==> exists i :: 0 <= i < |ds| && ds[i].Null?
    ensures !r.Null? ==> r.Map?
  {
    if AnyNull(ds) then Null
    else
      assert forall i :: 0 <= i < |ds| / 2 ==> ds[2 * i].String? by {
        forall i | 0 <= i < |ds| / 2 ensures ds[2 * i].String? {
          assert StringOrNull(ds[2 * i]) && !ds[2 * i].Null?;
        }
      }
      Map(DedupFirst(SortBy(Pairs(ds), KeyLe())))
  }

  /// The object built has strictly ascending keys, and each key maps to the
  /// value of its FIRST pair among the arguments.
  lemma JsonbBuildObjectFirstWins(ds: seq<Datum>)
    requires |ds| % 2 == 0
    requires forall i :: 0 <= i < |ds| / 2 ==> ds[2 * i].String?
    requires forall i :: 0 <= i < |ds| ==> !ds[i].Null?
    ensures KeysAreText(ds)
    ensures var r := JsonbBuildObject(ds).entries;
      KeysStrictlySorted(r) && forall k :: Lookup(r, k) == Lookup(Pairs(ds), k)
  {
    SortDedupFirst(Pairs(ds));
  }

  /// `jsonb_delete_int64`: removes the element at index `i` of an array,
  /// counting from the end when `i` is negative; an index outside the array
  /// removes nothing. Any other jsonb value gives Null.
  function JsonbDeleteInt64(a: Datum, i: int): (r: Datum)
    ensures !a.List? ==> r == Null
    ensures a.List? ==> r.List? && var idx := if i >= 0 then i else |a.elems| + i;
      r.elems == if 0 <= idx < |a.elems| then a.elems[..idx] + a.elems[idx + 1..] else a.elems
  {
    match a
    case List(l) =>
      var idx := if i >= 0 then i else |l| + i;
      List(WithoutIndex(l, idx, 0))
    case _ => Null
  }

  /// The elements of `l` whose position (counting from `offset`) is not
  /// `idx`: the `enumerate().filter(..)` of `jsonb_delete_int64`.
  function WithoutIndex(l: seq<Datum>, idx: int, offset: nat): (r: seq<Datum>)
    ensures r == if offset <= idx < offset + |l| then l[..idx - offset] + l[idx - offset + 1..] else l
  {
    if l == [] then []
    else if idx == offset then
      assert l[..0] == [];
      WithoutIndex(l[1..], idx, offset + 1)
    else
      var rest := WithoutIndex(l[1..], idx, offset + 1);
      if offset < idx < offset + |l| then
        assert [l[0]] + l[1..][..idx - offset - 1] == l[..idx - offset];
        assert l[1..][idx - offset - 1 + 1..] == l[idx - offset + 1..];
        [l[0]] + rest
      else
        assert [l[0]] + l[1..] == l;
        [l[0]] + rest
  }

  /// `jsonb_delete_string`: drops every array element equal to the string
  /// datum, or the object entries with that key, keeping the others in
  /// their order; Null for other values.
  function JsonbDeleteString(a: Datum, b: Datum): (r: Datum)
    requires a.Map? ==> b.String?
    ensures !a.List? && !a.Map? ==> r == Null
    ensures a.List? ==>
      (r.List? && multiset(r.elems) == multiset(a.elems)[b := 0] && IsSubsequence(r.elems, a.elems))
    ensures a.Map? ==>
      (r.Map? && IsSubsequence(r.entries, a.entries)
      && (forall e :: multiset(r.entries)[e] == if e.key == b.s then 0 else multiset(a.entries)[e])
      && (forall k :: Lookup(r.entries, k) == if k == b.s then None else Lookup(a.entries, k))
      && (KeysStrictlySorted(a.entries) ==> KeysStrictlySorted(r.entries)))
  {
    match a
    case List(l) => RemoveDatumKeeps(l, b); List(RemoveDatum(l, b))
    case Map(m) => RemoveKeyKeeps(m, b.s); Map(RemoveKey(m, b.s))
    case _ => Null
  }

  /// The elements other than `b`, in order.
  function RemoveDatum(l: seq<Datum>, b: Datum): (r: seq<Datum>)
    ensures forall d :: d in r <==> d in l && d != b
  {
    if l == [] then []
    else if l[0] != b then [l[0]] + RemoveDatum(l[1..], b)
    else RemoveDatum(l[1..], b)
  }

  /// Removing a datum keeps every other element as often as it occurs and
  /// in its order.
  lemma {:induction false} RemoveDatumKeeps(l: seq<Datum>, b: Datum)
    ensures multiset(RemoveDatum(l, b)) == multiset(l)[b := 0]
    ensures IsSubsequence(RemoveDatum(l, b), l)
  {
    if l != [] {
      var rest := RemoveDatum(l[1..], b);
      RemoveDatumKeeps(l[1..], b);
      assert l == [l[0]] + l[1..];
      if l[0] != b {
        assert ([l[0]] + rest)[1..] == rest;
      } else {
        assert rest != [] ==> rest[0] in rest;
      }
    }
  }

  /// The entries whose key is not `k`, in order.
  function RemoveKey(m: seq<Entry>, k: string): (r: seq<Entry>)
    ensures forall e :: e in r <==> e in m && e.key != k
    ensures forall k2 :: Lookup(r, k2) == if k2 == k then None else Lookup(m, k2)
  {
    if m == [] then []
    else if m[0].key != k then [m[0]] + RemoveKey(m[1..], k)
    else RemoveKey(m[1..], k)
  }

  /// Removing a key keeps every other entry as often as it occurs, in its
  /// order, so sorted keys stay sorted.
  lemma RemoveKeyKeeps(m: seq<Entry>, k: string)
    ensures forall e :: multiset(RemoveKey(m, k))[e] == if e.key == k then 0 else multiset(m)[e]
    ensures IsSubsequence(RemoveKey(m, k), m)
    ensures KeysStrictlySorted(m) ==> KeysStrictlySorted(RemoveKey(m, k))
  {
    RemoveKeyCounts(m, k);
    RemoveKeyOrder(m, k);
    if KeysStrictlySorted(m) {
      RemoveKeySorted(m, k);
    }
  }

  lemma {:induction false} RemoveKeyCounts(m: seq<Entry>, k: string)
    ensures forall e :: multiset(RemoveKey(m, k))[e] == if e.key == k then 0 else multiset(m)[e]
  {
    if m != [] {
      RemoveKeyCounts(m[1..], k);
      assert m == [m[0]] + m[1..];
    }
  }

  lemma {:induction false} RemoveKeyOrder(m: seq<Entry>, k: string)
    ensures IsSubsequence(RemoveKey(m, k), m)
  {
    if m != [] {
      var rest := RemoveKey(m[1..], k);
      RemoveKeyOrder(m[1..], k);
      if m[0].key != k {
        assert ([m[0]] + rest)[1..] == rest;
      } else {
        assert rest != [] ==> rest[0] in rest;
      }
    }
  }

  lemma {:induction false} RemoveKeySorted(m: seq<Entry>, k: string)
    requires KeysStrictlySorted(m)
    ensures KeysStrictlySorted(RemoveKey(m, k))
  {
    if m != [] {
      var rest := RemoveKey(m[1..], k);
      RemoveKeySorted(m[1..], k);
      if m[0].key != k {
        forall j | 0 <= j < |rest| ensures StrLt(m[0].key, rest[j].key) {
          assert rest[j] in m[1..];
          var i :| 0 <= i < |m[1..]| && m[1..][i] == rest[j];
          assert m[i + 1] == rest[j];
        }
      }
    }
  }
}
