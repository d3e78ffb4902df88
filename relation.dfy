// Relation type metadata: scalar and column types with the column-type
// union, relation types with their keys, and relation descriptions (column
// types plus optional names) with their builders and lookups.

module Repr {
  import D = Datums
  import opened Sorting

  /// The modelled scalar types. `customOid`/`customName` distinguish named
  /// user-defined types from the built-in ones with the same structure.
  datatype ScalarType =
    | Bool
    | Int16
    | Int32
    | Int64
    | Numeric
    | String
    | Jsonb
    | Timestamp
    | Array(elem: ScalarType)
    | List(elem: ScalarType, customOid: D.Option<nat>)
    | Map(value: ScalarType, customOid: D.Option<nat>)
    | Record(fields: seq<Field>, customOid: D.Option<nat>, customName: D.Option<string>)

  datatype Field = Field(name: string, typ: ColumnType)

  datatype ColumnType = ColumnType(scalar: ScalarType, nullable: bool)

  /// `ScalarType::nullable`.
  function Nullable(s: ScalarType, n: bool): (c: ColumnType)
    ensures c.scalar == s && c.nullable == n
  {
    ColumnType(s, n)
  }

  /// `ScalarType::base_eq`: structural equality that ignores custom oids and
  /// names and the nullability of record fields.
  predicate BaseEq(a: ScalarType, b: ScalarType)
    decreases a
  {
    match (a, b)
    case (Array(x), Array(y)) => BaseEq(x, y)
    case (List(x, _), List(y, _)) => BaseEq(x, y)
    case (Map(x, _), Map(y, _)) => BaseEq(x, y)
    case (Record(fs, _, _), Record(gs, _, _)) => FieldsBaseEq(fs, gs)
    case _ => a == b && !a.Array? && !a.List? && !a.Map? && !a.Record?
  }

  predicate FieldsBaseEq(fs: seq<Field>, gs: seq<Field>)
    decreases fs
  {
    if fs == [] then gs == []
    else (gs != [] && fs[0].name == gs[0].name && BaseEq(fs[0].typ.scalar, gs[0].typ.scalar)
          && FieldsBaseEq(fs[1..], gs[1..]))
  }

  lemma {:induction false} BaseEqRefl(a: ScalarType)
    ensures BaseEq(a, a)
    decreases a
  {
    match a
    case Array(x) => BaseEqRefl(x);
    case List(x, _) => BaseEqRefl(x);
    case Map(x, _) => BaseEqRefl(x);
    case Record(fs, _, _) => FieldsBaseEqRefl(fs);
    case _ =>
  }

  lemma {:induction false} FieldsBaseEqRefl(fs: seq<Field>)
    ensures FieldsBaseEq(fs, fs)
    decreases fs
  {
    if fs != [] {
      BaseEqRefl(fs[0].typ.scalar);
      FieldsBaseEqRefl(fs[1..]);
    }
  }

  /// The union's error (the source's message names both types).
  const CannotUnion: string := "Can't union types"

  /// `ColumnType::union` as written: base-equal types keep `a`'s scalar type;
  /// two records with the same custom oid and name union field by field
  /// over `zip`, which stops at the shorter field list; anything else is an
  /// error. Nullability is the OR of both sides.
  function UnionAsWritten(a: ColumnType, b: ColumnType): (r: D.Result<ColumnType>)
    ensures r.Ok? ==> r.value.nullable == (a.nullable || b.nullable)
    decreases a, 1
  {
    if BaseEq(a.scalar, b.scalar) then D.Ok(ColumnType(a.scalar, a.nullable || b.nullable))
    else if a.scalar.Record? && b.scalar.Record? then
      var Record(fs, oid, name) := a.scalar;
      var Record(gs, oid2, name2) := b.scalar;
      if oid != oid2 || name != name2 then D.Err(D.Internal(CannotUnion))
      else match UnionZip(fs, gs)
        case Ok(us) => D.Ok(ColumnType(Record(us, oid, name), a.nullable || b.nullable))
        case Err(e) => D.Err(e)
    else D.Err(D.Internal(CannotUnion))
  }

  /// The field loop of `UnionAsWritten`, over `fs.iter().zip(gs.iter())`.
  function UnionZip(fs: seq<Field>, gs: seq<Field>): (r: D.Result<seq<Field>>)
    ensures r.Ok? ==> |r.value| == if |fs| <= |gs| then |fs| else |gs|
    decreases fs, 0
  {
    if fs == [] || gs == [] then D.Ok([])
    else if fs[0].name != gs[0].name then D.Err(D.Internal(CannotUnion))
    else match UnionAsWritten(fs[0].typ, gs[0].typ)
      case Err(e) => D.Err(e)
      case Ok(t) =>
        match UnionZip(fs[1..], gs[1..])
        case Err(e) => D.Err(e)
        case Ok(rest) => D.Ok([Field(fs[0].name, t)] + rest)
  }

  /// Two records of different arities union without error: the fields the
  /// longer record has beyond the shorter one are silently dropped.
  lemma UnionDropsFields()
    ensures var a := ColumnType(Record([Field("a", ColumnType(Int32, false))], D.None, D.None), false);
      var b := ColumnType(Record([Field("a", ColumnType(Int32, false)), Field("b", ColumnType(Bool, true))], D.None, D.None), false);
      UnionAsWritten(a, b) == D.Ok(a)
  {
    var fa := [Field("a", ColumnType(Int32, false))];
    var fb := [Field("a", ColumnType(Int32, false)), Field("b", ColumnType(Bool, true))];
    assert !FieldsBaseEq(fa, fb) by {
      assert fa[1..] == [] && fb[1..] != [];
    }
    var c := ColumnType(Int32, false);
    assert BaseEq(Int32, Int32);
    assert UnionAsWritten(c, c) == D.Ok(c);
    assert fa[1..] == [];
    assert UnionZip(fa[1..], fb[1..]) == D.Ok([]);
    assert UnionZip(fa, fb) == D.Ok([Field("a", c)] + []);
    assert [Field("a", c)] + [] == fa;
  }

  /// `ColumnType::union` with the evidently intended field check: records
  /// must also have the same number of fields.
  function Union(a: ColumnType, b: ColumnType): (r: D.Result<ColumnType>)
    ensures r.Ok? ==> r.value.nullable == (a.nullable || b.nullable)
    ensures BaseEq(a.scalar, b.scalar) ==> r == D.Ok(ColumnType(a.scalar, a.nullable || b.nullable))
    ensures !BaseEq(a.scalar, b.scalar) && !(a.scalar.Record? && b.scalar.Record?) ==> r.Err?
    ensures a.scalar.Record? && b.scalar.Record? && r.Ok? ==>
      BaseEq(a.scalar, b.scalar) ||
      (a.scalar.customOid == b.scalar.customOid && a.scalar.customName == b.scalar.customName &&
       r.value.scalar.Record? && FieldNames(r.value.scalar.fields) == FieldNames(a.scalar.fields) == FieldNames(b.scalar.fields))
    decreases a, 1
  {
    if BaseEq(a.scalar, b.scalar) then D.Ok(ColumnType(a.scalar, a.nullable || b.nullable))
    else if a.scalar.Record? && b.scalar.Record? then
      var Record(fs, oid, name) := a.scalar;
      var Record(gs, oid2, name2) := b.scalar;
      if oid != oid2 || name != name2 then D.Err(D.Internal(CannotUnion))
      else match UnionFields(fs, gs)
        case Ok(us) => D.Ok(ColumnType(Record(us, oid, name), a.nullable || b.nullable))
        case Err(e) => D.Err(e)
    else D.Err(D.Internal(CannotUnion))
  }

  function FieldNames(fs: seq<Field>): (ns: seq<string>)
    ensures |ns| == |fs| && forall i :: 0 <= i < |fs| ==> ns[i] == fs[i].name
  {
    if fs == [] then [] else [fs[0].name] + FieldNames(fs[1..])
  }

  /// Field-by-field union of two records with the same field names.
  function UnionFields(fs: seq<Field>, gs: seq<Field>): (r: D.Result<seq<Field>>)
    ensures r.Ok? ==> FieldNames(r.value) == FieldNames(fs) == FieldNames(gs)
    ensures r.Ok? ==> forall i :: 0 <= i < |fs| ==>
      r.value[i].typ.nullable == (fs[i].typ.nullable || gs[i].typ.nullable)
    decreases fs, 0
  {
    if fs == [] && gs == [] then D.Ok([])
    else if fs == [] || gs == [] then D.Err(D.Internal(CannotUnion))
    else if fs[0].name != gs[0].name then D.Err(D.Internal(CannotUnion))
    else match Union(fs[0].typ, gs[0].typ)
      case Err(e) => D.Err(e)
      case Ok(t) =>
        match UnionFields(fs[1..], gs[1..])
        case Err(e) => D.Err(e)
        case Ok(rest) =>
          var r := [Field(fs[0].name, t)] + rest;
          assert forall i :: 1 <= i < |fs| ==> r[i] == rest[i - 1] && fs[i] == fs[1..][i - 1] && gs[i] == gs[1..][i - 1];
          D.Ok(r)
  }

  /// Union with itself is the identity.
  lemma UnionSelf(a: ColumnType)
    ensures Union(a, a) == D.Ok(a)
  {
    BaseEqRefl(a.scalar);
  }

  /// The two agree whenever the records involved have the same arity.
  lemma {:induction false} UnionAgrees(a: ColumnType, b: ColumnType)
    requires a.scalar.Record? && b.scalar.Record? ==> |a.scalar.fields| == |b.scalar.fields|
    requires SameArities(a.scalar, b.scalar)
    ensures UnionAsWritten(a, b) == Union(a, b)
    decreases a, 1
  {
    if !BaseEq(a.scalar, b.scalar) && a.scalar.Record? && b.scalar.Record? {
      UnionZipAgrees(a.scalar.fields, b.scalar.fields);
    }
  }

  /// Every pair of records met at the same position in both types has
  /// fields of equal number.
  predicate SameArities(a: ScalarType, b: ScalarType)
    decreases a
  {
    match (a, b)
    case (Record(fs, _, _), Record(gs, _, _)) =>
      |fs| == |gs| && forall i :: 0 <= i < |fs| ==> SameArities(fs[i].typ.scalar, gs[i].typ.scalar)
    case _ => true
  }

  lemma {:induction false} UnionZipAgrees(fs: seq<Field>, gs: seq<Field>)
    requires |fs| == |gs|
    requires forall i :: 0 <= i < |fs| ==> SameArities(fs[i].typ.scalar, gs[i].typ.scalar)
    ensures UnionZip(fs, gs) == UnionFields(fs, gs)
    decreases fs, 0
  {
    if fs != [] && fs[0].name == gs[0].name {
      var a, b := fs[0].typ, gs[0].typ;
      assert a.scalar.Record? && b.scalar.Record? ==> |a.scalar.fields| == |b.scalar.fields|;
      UnionAgrees(a, b);
      assert forall i :: 0 <= i < |fs[1..]| ==> fs[1..][i] == fs[i + 1] && gs[1..][i] == gs[i + 1];
      UnionZipAgrees(fs[1..], gs[1..]);
    }
  }

  // ---------------------------------------------------------------------
  // Relation types

  /// Column types plus the keys: sets of column indices (stored sorted)
  /// that no two rows agree on.
  datatype RelationType = RelationType(columnTypes: seq<ColumnType>, keys: seq<seq<nat>>)

  function Arity(t: RelationType): nat { |t.columnTypes| }

  function NatLe(): (nat, nat) -> bool { (x: nat, y: nat) => x <= y }

  lemma NatLeOrder()
    ensures TotalPreorder(NatLe())
  {
  }

  ghost predicate Ascending(s: seq<nat>) {
    forall i, j :: 0 <= i < j < |s| ==> s[i] <= s[j]
  }

  /// `sort_unstable` on key indices: the ascending permutation (for
  /// integers, any sort gives the same sequence).
  function SortKey(k: seq<nat>): (r: seq<nat>)
    ensures multiset(r) == multiset(k)
    ensures Ascending(r)
  {
    NatLeOrder();
    SortBySorted(k, NatLe());
    var r := SortBy(k, NatLe());
    assert forall i, j :: 0 <= i < j < |r| ==> NatLe()(r[i], r[j]);
    r
  }

  lemma AscendingMin(a: seq<nat>, x: nat)
    requires Ascending(a) && x in a
    ensures a[0] <= x
  {
    var j :| 0 <= j < |a| && a[j] == x;
    if j > 0 {
      assert a[0] <= a[j];
    }
  }

  /// The ascending arrangement of a multiset of integers is unique.
  lemma {:induction false} SortedUnique(a: seq<nat>, b: seq<nat>)
    requires Ascending(a) && Ascending(b) && multiset(a) == multiset(b)
    ensures a == b
    decreases |a|
  {
    if a != [] {
      SameHead(a, b);
      SameTail(a, b);
      AscendingTail(a);
      AscendingTail(b);
      SortedUnique(a[1..], b[1..]);
      assert a == [a[0]] + a[1..] && b == [b[0]] + b[1..];
    }
  }

  lemma SameHead(a: seq<nat>, b: seq<nat>)
    requires Ascending(a) && Ascending(b) && multiset(a) == multiset(b) && a != []
    ensures b != [] && a[0] == b[0]
  {
    assert |multiset(b)| == |multiset(a)| == |a|;
    assert a[0] in multiset(b) && b[0] in multiset(a);
    AscendingMin(a, b[0]);
    AscendingMin(b, a[0]);
  }

  lemma SameTail(a: seq<nat>, b: seq<nat>)
    requires a != [] && b != [] && a[0] == b[0] && multiset(a) == multiset(b)
    ensures multiset(a[1..]) == multiset(b[1..])
  {
    assert a == [a[0]] + a[1..] && b == [b[0]] + b[1..];
    assert multiset(a) == multiset{a[0]} + multiset(a[1..]);
    assert multiset(b) == multiset{b[0]} + multiset(b[1..]);
    assert multiset(a[1..]) == multiset(a) - multiset{a[0]};
    assert multiset(b[1..]) == multiset(b) - multiset{b[0]};
  }

  lemma AscendingTail(a: seq<nat>)
    requires Ascending(a) && a != []
    ensures Ascending(a[1..])
  {
    forall i, j | 0 <= i < j < |a| - 1 ensures a[1..][i] <= a[1..][j] {
      assert a[1..][i] == a[i + 1] && a[1..][j] == a[j + 1];
    }
  }

  /// `RelationType::with_key`: stores the indices sorted, unless that key
  /// is already present.
  function WithKey(t: RelationType, indices: seq<nat>): (r: RelationType)
    ensures r.columnTypes == t.columnTypes
    ensures SortKey(indices) in r.keys
    ensures SortKey(indices) in t.keys ==> r == t
    ensures SortKey(indices) !in t.keys ==> r.keys == t.keys + [SortKey(indices)]
  {
    var k := SortKey(indices);
    if k in t.keys then t else t.(keys := t.keys + [k])
  }

  /// Adding a key twice, or the same key with its indices in another order,
  /// changes nothing the second time.
  lemma WithKeyIdempotent(t: RelationType, k1: seq<nat>, k2: seq<nat>)
    requires multiset(k1) == multiset(k2)
    ensures WithKey(WithKey(t, k1), k2) == WithKey(t, k1)
  {
    SortedUnique(SortKey(k1), SortKey(k2));
  }

  ghost predicate KeysDistinct(t: RelationType) {
    forall i, j :: 0 <= i < j < |t.keys| ==> t.keys[i] != t.keys[j]
  }

  /// `with_key` never introduces a duplicate key.
  lemma WithKeyDistinct(t: RelationType, k: seq<nat>)
    requires KeysDistinct(t)
    ensures KeysDistinct(WithKey(t, k))
  {
  }

  /// `default_key`: the first key if it is non-empty, otherwise every column.
  function DefaultKey(t: RelationType): (r: seq<nat>)
    ensures t.keys != [] && t.keys[0] != [] ==> r == t.keys[0]
    ensures t.keys == [] || t.keys[0] == [] ==> |r| == Arity(t) && forall i :: 0 <= i < |r| ==> r[i] == i
  {
    if t.keys != [] then (if t.keys[0] == [] then AllColumns(Arity(t)) else t.keys[0])
    else AllColumns(Arity(t))
  }

  /// `(0..n).collect()`.
  function AllColumns(n: nat): (r: seq<nat>)
    ensures |r| == n && forall i :: 0 <= i < n ==> r[i] == i
  {
    if n == 0 then [] else AllColumns(n - 1) + [n - 1]
  }

  // ---------------------------------------------------------------------
  // Relation descriptions

  datatype RelationDesc = RelationDesc(typ: RelationType, names: seq<D.Option<string>>)

  ghost predicate Wf(desc: RelationDesc) {
    |desc.names| == |desc.typ.columnTypes|
  }

  /// `RelationDesc::new` (the source panics when the lengths differ).
  function NewDesc(typ: RelationType, names: seq<D.Option<string>>): (r: RelationDesc)
    requires |names| == |typ.columnTypes|
    ensures Wf(r) && r.typ == typ && r.names == names
  {
    RelationDesc(typ, names)
  }

  /// `RelationDesc::with_key`.
  function DescWithKey(desc: RelationDesc, indices: seq<nat>): (r: RelationDesc)
    ensures r.names == desc.names && r.typ == WithKey(desc.typ, indices)
  {
    desc.(typ := WithKey(desc.typ, indices))
  }

  /// `RelationDesc::with_column`: appends one optionally named column.
  function WithColumn(desc: RelationDesc, name: D.Option<string>, ct: ColumnType): (r: RelationDesc)
    requires Wf(desc)
    ensures Wf(r) && Arity(r.typ) == Arity(desc.typ) + 1
    ensures r.names[|r.names| - 1] == name && r.typ.columnTypes[|r.names| - 1] == ct
    ensures r.names[..|desc.names|] == desc.names && r.typ.columnTypes[..|desc.names|] == desc.typ.columnTypes
    ensures r.typ.keys == desc.typ.keys
  {
    RelationDesc(desc.typ.(columnTypes := desc.typ.columnTypes + [ct]), desc.names + [name])
  }

  /// `RelationDesc::without_keys`.
  function WithoutKeys(desc: RelationDesc): (r: RelationDesc)
    ensures r.typ.keys == [] && r.typ.columnTypes == desc.typ.columnTypes && r.names == desc.names
  {
    desc.(typ := desc.typ.(keys := []))
  }

  function ShiftKey(k: seq<nat>, offset: nat): (r: seq<nat>)
    ensures |r| == |k| && forall i :: 0 <= i < |k| ==> r[i] == k[i] + offset
  {
    if k == [] then [] else [k[0] + offset] + ShiftKey(k[1..], offset)
  }

  /// The keys after adding each of `ks`, shifted by `offset`, in order.
  function AddShiftedKeys(t: RelationType, ks: seq<seq<nat>>, offset: nat): (r: RelationType)
    ensures r.columnTypes == t.columnTypes
    decreases |ks|
  {
    if ks == [] then t
    else WithKey(AddShiftedKeys(t, ks[..|ks| - 1], offset), ShiftKey(ks[|ks| - 1], offset))
  }

  /// Adding shifted keys keeps every old key and gains every new one.
  lemma {:induction false} AddShiftedKeysContains(t: RelationType, ks: seq<seq<nat>>, offset: nat)
    ensures forall k :: k in t.keys ==> k in AddShiftedKeys(t, ks, offset).keys
    ensures forall i :: 0 <= i < |ks| ==> SortKey(ShiftKey(ks[i], offset)) in AddShiftedKeys(t, ks, offset).keys
    decreases |ks|
  {
    if ks != [] {
      var front := ks[..|ks| - 1];
      var r := AddShiftedKeys(t, front, offset);
      AddShiftedKeysContains(t, front, offset);
      assert forall i :: 0 <= i < |front| ==> front[i] == ks[i];
      var last := WithKey(r, ShiftKey(ks[|ks| - 1], offset));
      assert forall k :: k in r.keys ==> k in last.keys;
    }
  }

  /// `RelationDesc::concat`: columns and names are appended, every key of
  /// `other` is shifted past `desc`'s columns and added with `with_key`.
  method Concat(desc: RelationDesc, other: RelationDesc) returns (r: RelationDesc)
    requires Wf(desc) && Wf(other)
    ensures Wf(r) && Arity(r.typ) == Arity(desc.typ) + Arity(other.typ)
    ensures r.names == desc.names + other.names
    ensures r.typ.columnTypes == desc.typ.columnTypes + other.typ.columnTypes
    ensures r.typ.keys == AddShiftedKeys(desc.typ, other.typ.keys, Arity(desc.typ)).keys
    ensures forall k :: k in desc.typ.keys ==> k in r.typ.keys
    ensures forall i :: 0 <= i < |other.typ.keys| ==> SortKey(ShiftKey(other.typ.keys[i], Arity(desc.typ))) in r.typ.keys
  {
    var selfLen := |desc.typ.columnTypes|;
    r := RelationDesc(desc.typ.(columnTypes := desc.typ.columnTypes + other.typ.columnTypes),
                      desc.names + other.names);
    var ks := other.typ.keys;
    for i := 0 to |ks|
      invariant r.names == desc.names + other.names
      invariant r.typ == AddShiftedKeys(desc.typ, ks[..i], selfLen).(columnTypes := r.typ.columnTypes)
      invariant r.typ.columnTypes == desc.typ.columnTypes + other.typ.columnTypes
    {
      assert ks[..i + 1][..i] == ks[..i];
      r := DescWithKey(r, ShiftKey(ks[i], selfLen));
    }
    assert ks[..|ks|] == ks;
    AddShiftedKeysContains(desc.typ, ks, selfLen);
  }

  /// `get_by_name`: the leftmost column with the name, with its type.
  function GetByName(desc: RelationDesc, name: string): (r: D.Option<(nat, ColumnType)>)
    requires Wf(desc)
    ensures r.Some? ==> (r.value.0 < |desc.names| && desc.names[r.value.0] == D.Some(name)
                         && r.value.1 == desc.typ.columnTypes[r.value.0]
                         && forall j :: 0 <= j < r.value.0 ==> desc.names[j] != D.Some(name))
    ensures r.None? ==> forall j :: 0 <= j < |desc.names| ==> desc.names[j] != D.Some(name)
  {
    match PositionOf(desc.names, D.Some(name))
    case Some(i) => D.Some((i, desc.typ.columnTypes[i]))
    case None => D.None
  }

  /// `iter().position(..)`.
  function PositionOf(ns: seq<D.Option<string>>, n: D.Option<string>): (r: D.Option<nat>)
    ensures r.Some? ==> r.value < |ns| && ns[r.value] == n && forall j :: 0 <= j < r.value ==> ns[j] != n
    ensures r.None? ==> forall j :: 0 <= j < |ns| ==> ns[j] != n
  {
    if ns == [] then D.None
    else if ns[0] == n then D.Some(0)
    else match PositionOf(ns[1..], n)
      case Some(i) => D.Some(i + 1)
      case None => D.None
  }

  /// How many entries of `ns` equal `n`.
  function CountOf(ns: seq<D.Option<string>>, n: D.Option<string>): (c: nat)
    ensures c <= |ns|
    ensures (c == 0) <==> n !in ns
  {
    if ns == [] then 0 else (if ns[0] == n then 1 else 0) + CountOf(ns[1..], n)
  }

  lemma {:induction false} CountOfTwo(ns: seq<D.Option<string>>, i: nat, j: nat)
    requires i < j < |ns| && ns[i] == ns[j]
    ensures CountOf(ns, ns[i]) >= 2
    decreases |ns|
  {
    if i == 0 {
      assert ns[1..][j - 1] == ns[i];
    } else {
      CountOfTwo(ns[1..], i - 1, j - 1);
    }
  }

  lemma {:induction false} CountOfOne(ns: seq<D.Option<string>>, i: nat)
    requires i < |ns| && forall j :: 0 <= j < |ns| && j != i ==> ns[j] != ns[i]
    ensures CountOf(ns, ns[i]) == 1
    decreases |ns|
  {
    if i == 0 {
      assert ns[0] !in ns[1..] by {
        forall j | 0 <= j < |ns[1..]| ensures ns[1..][j] != ns[0] {
          assert ns[1..][j] == ns[j + 1];
        }
      }
    } else {
      assert forall j :: 0 <= j < |ns[1..]| && j != i - 1 ==> ns[1..][j] == ns[j + 1];
      CountOfOne(ns[1..], i - 1);
    }
  }

  /// `get_unambiguous_name`: the column's name, provided it has one and no
  /// other column has the same name.
  function GetUnambiguousName(desc: RelationDesc, i: nat): (r: D.Option<string>)
    requires Wf(desc) && i < |desc.names|
    ensures r.Some? <==> desc.names[i].Some? && forall j :: 0 <= j < |desc.names| && j != i ==> desc.names[j] != desc.names[i]
    ensures r.Some? ==> r == desc.names[i]
  {
    var name := desc.names[i];
    var c := CountOf(desc.names, name);
    if c == 1 then
      assert forall j :: 0 <= j < |desc.names| && j != i ==> desc.names[j] != name by {
        forall j | 0 <= j < |desc.names| && j != i && desc.names[j] == name ensures false {
          if i < j { CountOfTwo(desc.names, i, j); } else { CountOfTwo(desc.names, j, i); }
        }
      }
      name
    else
      assert !(forall j :: 0 <= j < |desc.names| && j != i ==> desc.names[j] != name) by {
        if forall j :: 0 <= j < |desc.names| && j != i ==> desc.names[j] != name {
          CountOfOne(desc.names, i);
        }
      }
      D.None
  }

  /// The error of a violated NOT NULL constraint, carrying the column name.
  datatype NotNullViolation = NotNullViolation(column: D.Option<string>)

  /// `constraints_met`: the only constraint is NOT NULL.
  function ConstraintsMet(desc: RelationDesc, i: nat, d: D.Datum): (r: D.Option<NotNullViolation>)
    requires Wf(desc) && i < |desc.names|
    ensures r.Some? <==> d.Null? && !desc.typ.columnTypes[i].nullable
    ensures r.Some? ==> r.value == NotNullViolation(desc.names[i])
  {
    if d == D.Null && !desc.typ.columnTypes[i].nullable then D.Some(NotNullViolation(desc.names[i]))
    else D.None
  }
}
