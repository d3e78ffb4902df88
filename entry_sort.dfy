// Sorting and de-duplicating key/value entries by key, as the map-building
// operators do before they pack a map (keys must come out unique and sorted).

module EntrySort {
  import opened Datums
  import opened DatumOrder
  import opened Sorting

  function KeyLe(): (Entry, Entry) -> bool {
    (x: Entry, y: Entry) => StrLe(x.key, y.key)
  }

  function KeyGe(): (Entry, Entry) -> bool {
    (x: Entry, y: Entry) => StrLe(y.key, x.key)
  }

  lemma KeyOrders()
    ensures TotalPreorder(KeyLe()) && TotalPreorder(KeyGe())
  {
    forall a: Entry, b: Entry ensures StrLe(a.key, b.key) || StrLe(b.key, a.key) {
      StrTotalOrder(a.key, b.key, b.key);
    }
    forall a: Entry, b: Entry, c: Entry | StrLe(a.key, b.key) && StrLe(b.key, c.key)
      ensures StrLe(a.key, c.key)
    {
      StrTotalOrder(a.key, b.key, c.key);
    }
    forall a: Entry, b: Entry, c: Entry | StrLe(b.key, a.key) && StrLe(c.key, b.key)
      ensures StrLe(c.key, a.key)
    {
      StrTotalOrder(c.key, b.key, a.key);
    }
  }

  /// The value of the first entry with key `k`, as a map lookup sees it.
  function Lookup(es: seq<Entry>, k: string): (r: Option<Datum>)
    ensures r.Some? <==> k in Keys(es)
    ensures r.Some? ==> Entry(k, r.value) in es
  {
    if es == [] then None
    else if es[0].key == k then Some(es[0].val)
    else Lookup(es[1..], k)
  }

  ghost predicate KeysDistinct(es: seq<Entry>) {
    forall i, j :: 0 <= i < j < |es| ==> es[i].key != es[j].key
  }

  ghost predicate KeysStrictlySorted(es: seq<Entry>) {
    forall i, j :: 0 <= i < j < |es| ==> StrLt(es[i].key, es[j].key)
  }

  /// Entries with equal keys sit next to each other.
  ghost predicate Grouped(es: seq<Entry>) {
    forall i, j, l :: 0 <= i < j < l < |es| && es[i].key == es[l].key ==> es[j].key == es[i].key
  }

  /// `dedup_by` on keys: drops every entry whose key equals that of the last
  /// entry kept, so the first entry of each run survives.
  function DedupFirst(es: seq<Entry>): (r: seq<Entry>)
    ensures forall e :: e in r ==> e in es
    ensures |r| <= |es|
    decreases |es|
  {
    if |es| <= 1 then es
    else if es[1].key == es[0].key then DedupFirst([es[0]] + es[2..])
    else [es[0]] + DedupFirst(es[1..])
  }

  lemma {:induction false} LookupAppend(a: seq<Entry>, b: seq<Entry>, k: string)
    ensures Lookup(a + b, k) == if Lookup(a, k).Some? then Lookup(a, k) else Lookup(b, k)
    decreases |a|
  {
    if a == [] {
      assert a + b == b;
    } else {
      assert (a + b)[0] == a[0] && (a + b)[1..] == a[1..] + b;
      LookupAppend(a[1..], b, k);
    }
  }

  /// A lookup only depends on the entries whose key is `k`.
  lemma {:induction false} LookupClass(es: seq<Entry>, k: string)
    ensures var cl := Class(es, KeyLe(), Entry(k, Null));
      Lookup(es, k) == if cl == [] then None else Some(cl[0].val)
    decreases |es|
  {
    if es != [] {
      StrTotalOrder(es[0].key, k, k);
      LookupClass(es[1..], k);
    }
  }

  lemma LookupSameClass(s: seq<Entry>, t: seq<Entry>, k: string)
    requires Class(s, KeyLe(), Entry(k, Null)) == Class(t, KeyLe(), Entry(k, Null))
    ensures Lookup(s, k) == Lookup(t, k)
  {
    LookupClass(s, k);
    LookupClass(t, k);
  }

  lemma {:induction false} LookupReverseDistinct(es: seq<Entry>, k: string)
    requires KeysDistinct(es)
    ensures Lookup(Reverse(es), k) == Lookup(es, k)
    decreases |es|
  {
    if es != [] {
      assert Reverse(es) == Reverse(es[1..]) + [es[0]];
      LookupReverseDistinct(es[1..], k);
      LookupAppend(Reverse(es[1..]), [es[0]], k);
      if es[0].key == k {
        assert k !in Keys(es[1..]);
      }
    }
  }

  lemma SortedGrouped(es: seq<Entry>, le: (Entry, Entry) -> bool)
    requires le == KeyLe() || le == KeyGe()
    requires SortedBy(es, le)
    ensures Grouped(es)
  {
    forall i, j, l | 0 <= i < j < l < |es| && es[i].key == es[l].key
      ensures es[j].key == es[i].key
    {
      assert le(es[i], es[j]) && le(es[j], es[l]);
      StrTotalOrder(es[i].key, es[j].key, es[l].key);
      StrTotalOrder(es[j].key, es[i].key, es[l].key);
    }
  }

  lemma {:induction false} DedupFirstDistinct(es: seq<Entry>)
    requires Grouped(es)
    ensures KeysDistinct(DedupFirst(es))
    ensures forall k :: Lookup(DedupFirst(es), k) == Lookup(es, k)
    decreases |es|
  {
    if |es| > 1 {
      if es[1].key == es[0].key {
        var t := [es[0]] + es[2..];
        DropRepeat(es);
        DedupFirstDistinct(t);
      } else {
        DedupFirstDistinct(es[1..]);
        KeepHead(es);
      }
    }
  }

  /// Dropping the second entry of a run keeps the grouping and every lookup.
  lemma DropRepeat(es: seq<Entry>)
    requires Grouped(es) && |es| > 1 && es[1].key == es[0].key
    ensures Grouped([es[0]] + es[2..])
    ensures forall k :: Lookup([es[0]] + es[2..], k) == Lookup(es, k)
  {
    var t := [es[0]] + es[2..];
    forall i, j, l | 0 <= i < j < l < |t| && t[i].key == t[l].key
      ensures t[j].key == t[i].key
    {
      GroupedShift(es, t, i, j, l);
    }
    forall k ensures Lookup(t, k) == Lookup(es, k) {
      assert t[1..] == es[2..];
      assert es[1..][1..] == es[2..];
    }
  }

  lemma GroupedShift(es: seq<Entry>, t: seq<Entry>, i: nat, j: nat, l: nat)
    requires Grouped(es) && |es| > 1 && t == [es[0]] + es[2..]
    requires i < j < l < |t| && t[i].key == t[l].key
    ensures t[j].key == t[i].key
  {
    assert t[j] == es[j + 1] && t[l] == es[l + 1];
    var i' := if i == 0 then 0 else i + 1;
    assert t[i] == es[i'];
    assert i' < j + 1 < l + 1 < |es|;
  }

  /// A run head followed by the de-duplicated rest of the entries.
  lemma KeepHead(es: seq<Entry>)
    requires Grouped(es) && |es| > 1 && es[1].key != es[0].key
    requires KeysDistinct(DedupFirst(es[1..]))
    ensures KeysDistinct([es[0]] + DedupFirst(es[1..]))
  {
    var rest := DedupFirst(es[1..]);
    forall e | e in rest ensures e.key != es[0].key {
      assert e in es[1..];
      var l :| 1 <= l < |es| && es[l] == e;
      var k0, k1, kl := es[0].key, es[1].key, es[l].key;
      if l > 1 { assert k0 == kl ==> k1 == k0; }
    }
    var r := [es[0]] + rest;
    forall i, j | 0 <= i < j < |r| ensures r[i].key != r[j].key {
      if i == 0 { assert r[j] in rest; }
      else { assert r[i] == rest[i - 1] && r[j] == rest[j - 1]; }
    }
  }

  lemma {:induction false} DedupFirstSorted(es: seq<Entry>, le: (Entry, Entry) -> bool)
    requires SortedBy(es, le)
    ensures SortedBy(DedupFirst(es), le)
    decreases |es|
  {
    if |es| > 1 {
      if es[1].key == es[0].key {
        var t := [es[0]] + es[2..];
        assert forall i :: 0 < i < |t| ==> t[i] == es[i + 1];
        DedupFirstSorted(t, le);
      } else {
        DedupFirstSorted(es[1..], le);
        var rest := DedupFirst(es[1..]);
        var r := [es[0]] + rest;
        forall i, j | 0 <= i < j < |r| ensures le(r[i], r[j]) {
          if i == 0 {
            assert r[j] in rest;
            assert r[j] in es[1..];
          } else {
            assert r[i] == rest[i - 1] && r[j] == rest[j - 1];
          }
        }
      }
    }
  }

  lemma DistinctSortedStrict(es: seq<Entry>)
    requires KeysDistinct(es) && SortedBy(es, KeyLe())
    ensures KeysStrictlySorted(es)
  {
    forall i, j | 0 <= i < j < |es| ensures StrLt(es[i].key, es[j].key) {
      assert KeyLe()(es[i], es[j]);
      StrEqual(es[i].key, es[j].key);
    }
  }

  lemma SortedReverse(es: seq<Entry>)
    requires SortedBy(es, KeyLe())
    ensures SortedBy(Reverse(es), KeyGe())
  {
    var r := Reverse(es);
    forall i, j | 0 <= i < j < |r| ensures KeyGe()(r[i], r[j]) {
      assert KeyLe()(es[|es| - 1 - j], es[|es| - 1 - i]);
    }
  }

  lemma SortedReverseGe(es: seq<Entry>)
    requires SortedBy(es, KeyGe())
    ensures SortedBy(Reverse(es), KeyLe())
  {
    var r := Reverse(es);
    forall i, j | 0 <= i < j < |r| ensures KeyLe()(r[i], r[j]) {
      assert KeyGe()(es[|es| - 1 - j], es[|es| - 1 - i]);
    }
  }

  /// Stable sort by key, then keep the first entry of each key: keys come out
  /// strictly ascending, and each key maps to its first value in the input.
  lemma SortDedupFirst(es: seq<Entry>)
    ensures KeysStrictlySorted(DedupFirst(SortBy(es, KeyLe())))
    ensures forall k :: Lookup(DedupFirst(SortBy(es, KeyLe())), k) == Lookup(es, k)
  {
    var sorted := SortBy(es, KeyLe());
    KeyOrders();
    SortBySorted(es, KeyLe());
    SortedGrouped(sorted, KeyLe());
    DedupFirstDistinct(sorted);
    DedupFirstSorted(sorted, KeyLe());
    DistinctSortedStrict(DedupFirst(sorted));
    forall k ensures Lookup(sorted, k) == Lookup(es, k) {
      SortByStable(es, KeyLe(), Entry(k, Null));
      LookupSameClass(sorted, es, k);
    }
  }

  /// Stable sort by key, reverse, keep the first of each key, reverse again:
  /// keys come out strictly ascending and each key maps to its LAST value in
  /// the input.
  lemma SortDedupLast(es: seq<Entry>)
    ensures KeysStrictlySorted(Reverse(DedupFirst(Reverse(SortBy(es, KeyLe())))))
    ensures forall k :: Lookup(Reverse(DedupFirst(Reverse(SortBy(es, KeyLe())))), k) == Lookup(Reverse(es), k)
  {
    var sorted := SortBy(es, KeyLe());
    var rev := Reverse(sorted);
    var d := DedupFirst(rev);
    var r := Reverse(d);
    KeyOrders();
    SortBySorted(es, KeyLe());
    SortedReverse(sorted);
    SortedGrouped(rev, KeyGe());
    DedupFirstDistinct(rev);
    DedupFirstSorted(rev, KeyGe());
    SortedReverseGe(d);
    assert KeysDistinct(r) by {
      forall i, j | 0 <= i < j < |r| ensures r[i].key != r[j].key {
        assert r[i] == d[|d| - 1 - i] && r[j] == d[|d| - 1 - j];
      }
    }
    DistinctSortedStrict(r);
    forall k ensures Lookup(r, k) == Lookup(Reverse(es), k) {
      LookupReverseDistinct(d, k);
      var c := Entry(k, Null);
      SortByStable(es, KeyLe(), c);
      ClassReverse(sorted, KeyLe(), c);
      ClassReverse(es, KeyLe(), c);
      LookupSameClass(rev, Reverse(es), k);
    }
  }
}
