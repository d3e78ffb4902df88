// Stable sorting by a total preorder. The kernel sorts vectors with the
// standard library's stable `sort_by`/`sort_by_key`; every stable sort yields
// the same sequence, so it is modelled here by insertion sort on a sequence.

module Sorting {

  /// `le` is total and transitive (equal-ranked elements may differ).
  ghost predicate TotalPreorder<T(!new)>(le: (T, T) -> bool) {
    (forall a, b :: le(a, b) || le(b, a)) &&
    (forall a, b, c :: le(a, b) && le(b, c) ==> le(a, c))
  }

  ghost predicate SortedBy<T>(s: seq<T>, le: (T, T) -> bool) {
    forall i, j :: 0 <= i < j < |s| ==> le(s[i], s[j])
  }

  /// `a` is `b` with some elements left out and the rest in their order.
  ghost predicate IsSubsequence<T>(a: seq<T>, b: seq<T>)
    decreases |b|
  {
    a == [] || (b != [] && if a[0] == b[0] then IsSubsequence(a[1..], b[1..]) else IsSubsequence(a, b[1..]))
  }

  /// Inserts `x` after every element that ranks at most `x` — the position a
  /// stable sort gives to the element that came last in the input.
  function Insert<T>(x: T, s: seq<T>, le: (T, T) -> bool): (r: seq<T>)
    ensures multiset(r) == multiset(s) + multiset{x}
    ensures |r| == |s| + 1
  {
    if s == [] then [x]
    else if le(s[0], x) then
      assert s == [s[0]] + s[1..];
      [s[0]] + Insert(x, s[1..], le)
    else [x] + s
  }

  /// The stable sort of `s` by `le`.
  function SortBy<T>(s: seq<T>, le: (T, T) -> bool): (r: seq<T>)
    ensures multiset(r) == multiset(s)
    ensures |r| == |s|
    decreases |s|
  {
    if s == [] then []
    else
      assert s == s[..|s| - 1] + [s[|s| - 1]];
      Insert(s[|s| - 1], SortBy(s[..|s| - 1], le), le)
  }

  lemma {:induction false} InsertSorted<T(!new)>(x: T, s: seq<T>, le: (T, T) -> bool)
    requires TotalPreorder(le) && SortedBy(s, le)
    ensures SortedBy(Insert(x, s, le), le)
    decreases |s|
  {
    if s != [] && le(s[0], x) {
      InsertSorted(x, s[1..], le);
      var r := Insert(x, s, le);
      assert r == [s[0]] + Insert(x, s[1..], le);
      forall j | 0 < j < |r| ensures le(r[0], r[j]) {
        assert r[j] in multiset(Insert(x, s[1..], le));
        assert r[j] in multiset(s[1..]) + multiset{x};
        if r[j] != x {
          assert r[j] in s[1..];
        }
      }
    }
  }

  /// The result of `SortBy` is sorted.
  lemma {:induction false} SortBySorted<T(!new)>(s: seq<T>, le: (T, T) -> bool)
    requires TotalPreorder(le)
    ensures SortedBy(SortBy(s, le), le)
    decreases |s|
  {
    if s != [] {
      SortBySorted(s[..|s| - 1], le);
      InsertSorted(s[|s| - 1], SortBy(s[..|s| - 1], le), le);
    }
  }

  /// The elements of `s` that rank equal to `c`, in their order in `s`.
  function Class<T>(s: seq<T>, le: (T, T) -> bool, c: T): (r: seq<T>)
    ensures |r| <= |s|
    ensures forall e :: e in r ==> e in s && le(e, c) && le(c, e)
  {
    if s == [] then []
    else (if le(s[0], c) && le(c, s[0]) then [s[0]] else []) + Class(s[1..], le, c)
  }

  lemma {:induction false} ClassAppend<T(!new)>(s: seq<T>, t: seq<T>, le: (T, T) -> bool, c: T)
    ensures Class(s + t, le, c) == Class(s, le, c) + Class(t, le, c)
    decreases |s|
  {
    if s == [] {
      assert s + t == t;
    } else {
      assert (s + t)[0] == s[0] && (s + t)[1..] == s[1..] + t;
      ClassAppend(s[1..], t, le, c);
    }
  }

  lemma {:induction false} InsertClass<T(!new)>(x: T, s: seq<T>, le: (T, T) -> bool, c: T)
    requires TotalPreorder(le) && SortedBy(s, le)
    ensures Class(Insert(x, s, le), le, c) == Class(s + [x], le, c)
    decreases |s|
  {
    if s != [] {
      if le(s[0], x) {
        var rest := s[1..];
        SortedTail(s, le);
        InsertClass(x, rest, le, c);
        InsertClassAfter(x, s, le, c);
      } else {
        InsertClassBefore(x, s, le, c);
      }
    }
  }

  lemma SortedTail<T>(s: seq<T>, le: (T, T) -> bool)
    requires SortedBy(s, le) && s != []
    ensures SortedBy(s[1..], le)
  {
    var rest := s[1..];
    forall i, j | 0 <= i < j < |rest| ensures le(rest[i], rest[j]) {
      assert rest[i] == s[i + 1] && rest[j] == s[j + 1];
    }
  }

  /// The step of `InsertClass` where `x` goes after the first element.
  lemma InsertClassAfter<T(!new)>(x: T, s: seq<T>, le: (T, T) -> bool, c: T)
    requires s != [] && le(s[0], x)
    requires Class(Insert(x, s[1..], le), le, c) == Class(s[1..] + [x], le, c)
    ensures Class(Insert(x, s, le), le, c) == Class(s + [x], le, c)
  {
    InsertAfterFirst(x, s, le);
    ClassAppend([s[0]], Insert(x, s[1..], le), le, c);
    ClassSnoc(x, s, le, c);
  }

  lemma InsertAfterFirst<T>(x: T, s: seq<T>, le: (T, T) -> bool)
    requires s != [] && le(s[0], x)
    ensures Insert(x, s, le) == [s[0]] + Insert(x, s[1..], le)
  {
  }

  lemma ClassSnoc<T(!new)>(x: T, s: seq<T>, le: (T, T) -> bool, c: T)
    requires s != []
    ensures Class(s + [x], le, c) == Class([s[0]], le, c) + Class(s[1..] + [x], le, c)
  {
    var t := s[1..] + [x];
    assert s + [x] == [s[0]] + t;
    ClassAppend([s[0]], t, le, c);
  }

  /// The step of `InsertClass` where `x` goes first.
  lemma InsertClassBefore<T(!new)>(x: T, s: seq<T>, le: (T, T) -> bool, c: T)
    requires TotalPreorder(le) && SortedBy(s, le)
    requires s != [] && !le(s[0], x)
    ensures Class(Insert(x, s, le), le, c) == Class(s + [x], le, c)
  {
    assert Insert(x, s, le) == [x] + s;
    ClassAppend([x], s, le, c);
    ClassAppend(s, [x], le, c);
    assert [x][1..] == [];
    if le(x, c) && le(c, x) {
      // Nothing in `s` ranks equal to `x`: all of it ranks above `s[0]`, which ranks above `x`.
      NoneInClass(s, le, c, x);
    } else {
      assert Class([x], le, c) == [];
    }
  }

  lemma {:induction false} NoneInClass<T(!new)>(s: seq<T>, le: (T, T) -> bool, c: T, x: T)
    requires TotalPreorder(le) && SortedBy(s, le) && s != [] && !le(s[0], x)
    requires le(x, c) && le(c, x)
    ensures Class(s, le, c) == []
  {
    forall k | 0 <= k < |s| ensures !(le(s[k], c) && le(c, s[k])) {
      if k > 0 { assert le(s[0], s[k]); }
    }
    ClassEmpty(s, le, c);
  }

  lemma {:induction false} ClassEmpty<T>(s: seq<T>, le: (T, T) -> bool, c: T)
    requires forall k :: 0 <= k < |s| ==> !(le(s[k], c) && le(c, s[k]))
    ensures Class(s, le, c) == []
    decreases |s|
  {
    if s != [] { ClassEmpty(s[1..], le, c); }
  }

  /// Stability: sorting keeps the relative order of equal-ranked elements.
  lemma {:induction false} SortByStable<T(!new)>(s: seq<T>, le: (T, T) -> bool, c: T)
    requires TotalPreorder(le)
    ensures Class(SortBy(s, le), le, c) == Class(s, le, c)
    decreases |s|
  {
    if s != [] {
      var init, last := s[..|s| - 1], s[|s| - 1];
      assert s == init + [last];
      SortByStable(init, le, c);
      SortBySorted(init, le);
      InsertClass(last, SortBy(init, le), le, c);
      ClassAppend(SortBy(init, le), [last], le, c);
      ClassAppend(init, [last], le, c);
      calc {
        Class(SortBy(s, le), le, c);
        Class(Insert(last, SortBy(init, le), le), le, c);
        Class(SortBy(init, le) + [last], le, c);
        Class(SortBy(init, le), le, c) + Class([last], le, c);
        Class(init, le, c) + Class([last], le, c);
        Class(s, le, c);
      }
    }
  }

  function Reverse<T>(s: seq<T>): (r: seq<T>)
    ensures |r| == |s|
    ensures forall i :: 0 <= i < |s| ==> r[i] == s[|s| - 1 - i]
  {
    if s == [] then [] else Reverse(s[1..]) + [s[0]]
  }

  lemma ReverseAppend<T>(s: seq<T>, t: seq<T>)
    ensures Reverse(s + t) == Reverse(t) + Reverse(s)
  {
    assert |Reverse(s + t)| == |Reverse(t) + Reverse(s)|;
    forall i | 0 <= i < |s + t| ensures Reverse(s + t)[i] == (Reverse(t) + Reverse(s))[i] {
      if i < |t| { assert (s + t)[|s + t| - 1 - i] == t[|t| - 1 - i]; }
      else { assert (s + t)[|s + t| - 1 - i] == s[|s| - 1 - (i - |t|)]; }
    }
  }

  /// Reversing a sequence reverses each of its equal-rank classes.
  lemma {:induction false} ClassReverse<T(!new)>(s: seq<T>, le: (T, T) -> bool, c: T)
    ensures Class(Reverse(s), le, c) == Reverse(Class(s, le, c))
    decreases |s|
  {
    if s != [] {
      var t := s[1..];
      var head := if le(s[0], c) && le(c, s[0]) then [s[0]] else [];
      assert Reverse(s) == Reverse(t) + [s[0]];
      assert Class(s, le, c) == head + Class(t, le, c);
      ClassReverse(t, le, c);
      ClassAppend(Reverse(t), [s[0]], le, c);
      ClassSingle(s[0], le, c);
      ReverseAppend(head, Class(t, le, c));
      ReverseShort(head);
    }
  }

  lemma ClassSingle<T>(x: T, le: (T, T) -> bool, c: T)
    ensures Class([x], le, c) == if le(x, c) && le(c, x) then [x] else []
  {
    assert [x][1..] == [];
  }

  lemma ReverseShort<T>(s: seq<T>)
    requires |s| <= 1
    ensures Reverse(s) == s
  {
    if s != [] { assert s[1..] == []; }
  }
}
