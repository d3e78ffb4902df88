// The character-indexed string operators of the scalar function library.
// Strings are sequences of characters, so the source's byte offsets of
// character boundaries become character positions here.

module StringFunc {
  import opened Datums
  import opened Sorting
  import opened IntArith

  function MinInt(a: int, b: int): int { if a <= b then a else b }

  /// `x` clamped into `0..=n`.
  function Clamp(x: int, n: nat): (r: nat)
    ensures r <= n
  {
    if x < 0 then 0 else if x > n then n else x
  }

  /// `s.char_indices().map(|(i, _)| i)`: the position of every character.
  function CharIndices(s: string): (r: seq<nat>)
    ensures |r| == |s| && forall i :: 0 <= i < |s| ==> r[i] == i
  {
    seq(|s|, i => i)
  }

  predicate OccursAt(s: string, sub: string, i: int) {
    0 <= i && i + |sub| <= |s| && s[i..i + |sub|] == sub
  }

  lemma OccursShift(s: string, sub: string)
    requires s != []
    ensures forall j :: 0 <= j ==> (OccursAt(s[1..], sub, j) <==> OccursAt(s, sub, j + 1))
  {
    forall j | 0 <= j ensures OccursAt(s[1..], sub, j) <==> OccursAt(s, sub, j + 1) {
      if 0 <= j && j + |sub| <= |s| - 1 {
        assert s[1..][j..j + |sub|] == s[j + 1..j + 1 + |sub|];
      }
    }
  }

  /// `str::find`: the first position at which `sub` occurs in `s`.
  function Find(s: string, sub: string): (r: Option<nat>)
    ensures r.Some? ==> OccursAt(s, sub, r.value) && forall j :: 0 <= j < r.value ==> !OccursAt(s, sub, j)
    ensures r.None? ==> forall j :: !OccursAt(s, sub, j)
    decreases |s|
  {
    if |sub| <= |s| && s[..|sub|] == sub then
      assert s[0..|sub|] == s[..|sub|];
      Some(0)
    else if s == [] then
      None
    else
      assert !OccursAt(s, sub, 0) by { assert |sub| <= |s| ==> s[0..|sub|] == s[..|sub|]; }
      OccursShift(s, sub);
      match Find(s[1..], sub)
      case Some(i) =>
        assert forall j :: 0 <= j < i + 1 ==> !OccursAt(s, sub, j) by {
          forall j | 0 < j < i + 1 ensures !OccursAt(s, sub, j) {
            assert !OccursAt(s[1..], sub, j - 1);
          }
        }
        Some(i + 1)
      case None =>
        assert forall j :: !OccursAt(s, sub, j) by {
          forall j | 0 < j ensures !OccursAt(s, sub, j) {
            assert !OccursAt(s[1..], sub, j - 1);
          }
        }
        None
  }

  /// `position(sub IN s)`: the 1-based character position of the first
  /// occurrence, 0 when there is none.
  function Position(sub: string, s: string): (r: Result<int>)
    ensures r.Ok? ==> 0 <= r.value <= I32_MAX
    ensures r.Err? ==> r.error == Int32OutOfRange
  {
    var f := Find(s, sub);
    if f.None? then Ok(0)
    else if f.value >= I32_MAX then Err(Int32OutOfRange)
    else Ok(f.value + 1)
  }

  /// The position is that of the first occurrence, and 0 exactly when there
  /// is none; only a string of at least `i32::MAX` characters overflows.
  lemma PositionSpec(sub: string, s: string)
    ensures var r := Position(sub, s);
      && (r.Ok? && r.value > 0 ==>
        OccursAt(s, sub, r.value - 1) && forall j :: 0 <= j < r.value - 1 ==> !OccursAt(s, sub, j))
      && (r == Ok(0) <==> forall j :: !OccursAt(s, sub, j))
      && (r.Err? ==> |s| >= I32_MAX)
  {
    var f := Find(s, sub);
    if f.Some? {
      assert OccursAt(s, sub, f.value);
    }
  }

  /// `left(s, n)`: the first `n` characters, or for negative `n` all but the
  /// last `|n|`.
  function Left(s: string, n: int): (r: string)
    ensures n >= 0 ==> r == s[..Clamp(n, |s|)]
    ensures n < 0 ==> r == s[..Clamp(|s| + n, |s|)]
  {
    var idx := CharIndices(s);
    var end :=
      if n == 0 then 0
      else if n > 0 then (match Nth(idx, n) case Some(e) => e case None => |s|)
      else (match Nth(Reverse(idx), -n - 1) case Some(e) => e case None => 0);
    s[..end]
  }

  /// `right(s, n)`: the last `n` characters, or for negative `n` all but the
  /// first `|n|` — except that `i32::MIN` gives the whole string.
  function Right(s: string, n: int): (r: string)
    ensures n == 0 ==> r == []
    ensures n > 0 ==> r == s[Clamp(|s| - n, |s|)..]
    ensures n == I32_MIN ==> r == s
    ensures n < 0 && n != I32_MIN ==> r == s[Clamp(-n, |s|)..]
  {
    var idx := CharIndices(s);
    var start :=
      if n == 0 then |s|
      else if n > 0 then (match Nth(Reverse(idx), n - 1) case Some(e) => e case None => 0)
      else if n == I32_MIN then 0
      else (match Nth(idx, -n) case Some(e) => e case None => |s|);
    s[start..]
  }

  /// `left(s, n)` and `right(s, -n)` split the string in two.
  lemma LeftRight(s: string, n: int)
    requires n != 0 && I32_MIN < n <= I32_MAX
    ensures Left(s, n) + Right(s, -n) == s
  {
    if n > 0 {
      assert s[..Clamp(n, |s|)] + s[Clamp(n, |s|)..] == s;
    } else {
      assert s[..Clamp(|s| + n, |s|)] + s[Clamp(|s| + n, |s|)..] == s;
    }
  }

  /// `pad_string.chars().cycle().take(n)`.
  function Cycle(pad: string, n: nat): (r: string)
    ensures pad == [] ==> r == []
    ensures pad != [] ==> |r| == n
    decreases n
  {
    if pad == [] || n == 0 then []
    else if n <= |pad| then pad[..n]
    else pad + Cycle(pad, n - |pad|)
  }

  /// The `i`-th character of the cycle is the pad's character `i mod |pad|`.
  lemma {:induction false} CycleSpec(pad: string, n: nat)
    requires pad != []
    ensures forall i :: 0 <= i < n ==> Cycle(pad, n)[i] == pad[i % |pad|]
    decreases n
  {
    if n > |pad| {
      CycleSpec(pad, n - |pad|);
      var r, rest := Cycle(pad, n), Cycle(pad, n - |pad|);
      assert r == pad + rest;
      forall i | 0 <= i < n ensures r[i] == pad[i % |pad|] {
        if i >= |pad| {
          ModShift(i, |pad|);
          assert r[i] == rest[i - |pad|];
        } else {
          ModSmall(i, |pad|);
        }
      }
    } else if n > 0 {
      forall i | 0 <= i < n ensures Cycle(pad, n)[i] == pad[i % |pad|] {
        ModSmall(i, |pad|);
      }
    }
  }

  lemma ModSmall(i: int, p: int)
    requires 0 <= i < p
    ensures i % p == i
  {
    ModUnique(i, p, 0, i);
  }

  lemma ModShift(i: int, p: int)
    requires p > 0 && i >= p
    ensures (i - p) % p == i % p
  {
    var q, m := (i - p) / p, (i - p) % p;
    assert i - p == p * q + m && 0 <= m < p;
    assert i == p * (q + 1) + m;
    ModUnique(i, p, q + 1, m);
  }

  lemma ModUnique(i: int, p: int, q: int, m: int)
    requires p > 0 && 0 <= m < p && i == p * q + m
    ensures i % p == m
  {
    var q2, m2 := i / p, i % p;
    assert i == p * q2 + m2 && 0 <= m2 < p;
    var k := q - q2;
    assert p * k == m2 - m by { assert p * k == p * q - p * q2; }
    if k >= 1 {
      MulAtLeast(k, p);
    } else if k <= -1 {
      MulAtLeast(-k, p);
    }
  }

  /// `lpad(s, len, pad)`: negative lengths are rejected; a string at least
  /// `len` long is cut to `len` characters; a shorter one is prefixed with
  /// the pad repeated cyclically up to `len` (an empty pad adds nothing).
  function PadLeading(s: string, len: int, pad: string): (r: Result<string>)
    ensures len < 0 ==> r == Err(InvalidParameterValue("length must be nonnegative"))
    ensures len >= 0 ==> r.Ok?
    ensures 0 <= len <= |s| ==> r.Ok? && r.value == s[..len]
    ensures len > |s| && pad != [] ==> (r.Ok? && |r.value| == len && r.value[len - |s|..] == s &&
      forall i :: 0 <= i < len - |s| ==> r.value[i] == pad[i % |pad|])
    ensures len > |s| && pad == [] ==> r == Ok(s)
  {
    if len < 0 then Err(InvalidParameterValue("length must be nonnegative"))
    else
      // `string.chars().take(len)` counts at most `len` characters.
      var endChar := if len < |s| then len else |s|;
      if len == endChar then Ok(s[..endChar])
      else
        var prefix := Cycle(pad, len - endChar);
        assert pad != [] ==> forall i :: 0 <= i < len - |s| ==> prefix[i] == pad[i % |pad|] by {
          if pad != [] { CycleSpec(pad, len - endChar); }
        }
        assert pad != [] ==> (prefix + s)[len - |s|..] == s;
        assert pad == [] ==> prefix + s == s;
        Ok(prefix + s)
  }

  /// The substring PostgreSQL defines for `substr(s, start [, len])`: the
  /// characters at 1-based positions `start .. start + len - 1` that exist.
  function SubstrSpec(s: string, start: int, len: Option<int>): (r: string)
    requires len.Some? ==> len.value >= 0
  {
    var from := Clamp(start - 1, |s|);
    if len.None? then s[from..] else s[from..Clamp(start - 1 + len.value, |s|)]
  }

  /// `substr` as written, with its `i64` index arithmetic wrapping around
  /// (the behaviour of a build without overflow checks).
  function SubstrAsWritten(s: string, start: int, len: Option<int>): (r: Result<string>)
    requires InRange(W64, start) && (len.Some? ==> InRange(W64, len.value))
  {
    var rawStart := Wrap(W64, start - 1);
    var startIdx: nat := if rawStart < 0 then 0 else rawStart;
    var startChar := StartChar(s, startIdx);
    if len.None? then Ok(s[startChar..])
    else
      var e := len.value;
      if e < 0 then Err(InvalidParameterValue("negative substring length not allowed"))
      else if e == 0 || Wrap(W64, e + rawStart) < 1 then Ok([])
      else
        var endIdx := MinInt(Wrap(W64, Wrap(W64, rawStart + e) - 1), e - 1);
        if endIdx < 0 then Err(InvalidParameterValue("substring length exceeds max position"))
        else Ok(s[startChar..EndChar(s, startIdx, endIdx)])
  }

  /// The position `char_indices().nth(start)` reports, or the end of the
  /// string.
  function StartChar(s: string, startIdx: nat): (r: nat)
    ensures r == if startIdx < |s| then startIdx else |s|
  {
    match Nth(CharIndices(s), startIdx)
    case Some(c) => c
    case None => |s|
  }

  /// The position the SECOND `nth(endIdx)` call on the same iterator
  /// reports: the first call consumed positions `0..=startIdx`.
  function EndChar(s: string, startIdx: nat, endIdx: nat): (r: nat)
    ensures StartChar(s, startIdx) <= r <= |s|
    ensures r == if startIdx + 1 + endIdx < |s| then startIdx + 1 + endIdx else |s|
  {
    if startIdx >= |s| then |s|
    else match Nth(CharIndices(s), startIdx + 1 + endIdx)
      case Some(c) => c
      case None => |s|
  }

  /// `substr` with exact integer arithmetic: negative lengths are rejected,
  /// and otherwise the result is PostgreSQL's substring.
  function Substr(s: string, start: int, len: Option<int>): (r: Result<string>)
    ensures len.Some? && len.value < 0 <==> r.Err?
    ensures r.Err? ==> r.error == InvalidParameterValue("negative substring length not allowed")
    ensures r.Ok? ==> r.value == SubstrSpec(s, start, len)
  {
    var rawStart := start - 1;
    var startIdx: nat := if rawStart < 0 then 0 else rawStart;
    var startChar := StartChar(s, startIdx);
    if len.None? then Ok(s[startChar..])
    else
      var e := len.value;
      if e < 0 then Err(InvalidParameterValue("negative substring length not allowed"))
      else if e == 0 || e + rawStart < 1 then Ok([])
      else
        var endIdx := MinInt(rawStart + e - 1, e - 1);
        Ok(s[startChar..EndChar(s, startIdx, endIdx)])
  }

  /// A length near `i64::MAX` makes `e + raw_start_idx` wrap negative, so
  /// the source returns the empty string where PostgreSQL returns "bc".
  lemma SubstrOverflow()
    ensures SubstrAsWritten("abc", 2, Some(I64_MAX)) == Ok("")
    ensures Substr("abc", 2, Some(I64_MAX)) == Ok("bc")
  {
    assert Wrap(W64, I64_MAX + 1) == I64_MIN;
    assert "abc"[1..3] == "bc";
  }

  /// Away from the `i64` extremes the two agree.
  lemma SubstrNoOverflow(s: string, start: int, len: Option<int>)
    requires I64_MIN < start && (len.Some? ==> 0 <= len.value && start + len.value <= I64_MAX)
    requires InRange(W64, start) && (len.Some? ==> InRange(W64, len.value))
    ensures SubstrAsWritten(s, start, len) == Substr(s, start, len)
  {
    var rawStart := start - 1;
    assert Wrap(W64, rawStart) == rawStart;
    if len.Some? && len.value > 0 {
      var e := len.value;
      assert Wrap(W64, e + rawStart) == e + rawStart;
      assert Wrap(W64, rawStart + e) == rawStart + e;
      assert Wrap(W64, rawStart + e - 1) == rawStart + e - 1;
    }
  }

  /// `str::split` with a non-empty delimiter: the pieces between
  /// non-overlapping occurrences, found left to right.
  function Split(s: string, d: string): (r: seq<string>)
    requires d != []
    ensures |r| >= 1
    ensures forall i :: 0 <= i < |r| ==> Find(r[i], d).None?
    decreases |s|
  {
    match Find(s, d)
    case Some(i) =>
      assert Find(s[..i], d).None? by {
        forall j | OccursAt(s[..i], d, j) ensures false {
          assert s[..i][j..j + |d|] == s[j..j + |d|];
          assert OccursAt(s, d, j);
        }
      }
      [s[..i]] + Split(s[i + |d|..], d)
    case None => [s]
  }

  /// A string of n characters splits into at most n + 1 pieces.
  lemma {:induction false} SplitCount(s: string, d: string)
    requires d != []
    ensures |Split(s, d)| <= |s| + 1
    decreases |s|
  {
    match Find(s, d)
    case Some(i) =>
      SplitCount(s[i + |d|..], d);
    case None =>
  }

  /// The pieces joined with the delimiter.
  function Join(ps: seq<string>, d: string): string {
    if ps == [] then [] else if |ps| == 1 then ps[0] else ps[0] + d + Join(ps[1..], d)
  }

  lemma SplitCons(s: string, d: string)
    requires d != [] && Find(s, d).Some?
    ensures var i := Find(s, d).value;
      Split(s, d) == [s[..i]] + Split(s[i + |d|..], d)
  {
  }

  lemma JoinCons(p: string, rest: seq<string>, d: string)
    requires rest != []
    ensures Join([p] + rest, d) == p + d + Join(rest, d)
  {
    assert ([p] + rest)[1..] == rest;
  }

  lemma SplitAround(s: string, d: string, i: int)
    requires OccursAt(s, d, i)
    ensures s == s[..i] + d + s[i + |d|..]
  {
    assert s == s[..i] + s[i..i + |d|] + s[i + |d|..];
  }

  /// Splitting and joining again gives back the string.
  lemma {:induction false} SplitJoin(s: string, d: string)
    requires d != []
    ensures Join(Split(s, d), d) == s
    decreases |s|
  {
    var f := Find(s, d);
    if f.Some? {
      var i := f.value;
      var tail := s[i + |d|..];
      SplitJoin(tail, d);
      SplitCons(s, d);
      JoinCons(s[..i], Split(tail, d), d);
      SplitAround(s, d, i);
    }
  }

  /// `split_part(s, d, field)`: the `field`-th (1-based) piece, or "" past
  /// the last piece. An empty delimiter does not split: the whole string is
  /// piece 1.
  function SplitPart(s: string, d: string, field: int): (r: Result<string>)
    ensures field < 1 <==> r.Err?
    ensures r.Err? ==> r.error == InvalidParameterValue("field position must be greater than zero")
    ensures r.Ok? && d == [] ==> r.value == if field == 1 then s else []
    ensures r.Ok? && d != [] ==> r.value == if field <= |Split(s, d)| then Split(s, d)[field - 1] else []
  {
    var index := field - 1;
    if index < 0 then Err(InvalidParameterValue("field position must be greater than zero"))
    else if d == [] then (if index == 0 then Ok(s) else Ok([]))
    else match Nth(Split(s, d), index)
      case Some(p) => Ok(p)
      case None => Ok([])
  }

  /// `split_part` as written, with its `i64` subtraction `field - 1`
  /// wrapping around (the behaviour of a build without overflow checks):
  /// `i64::MIN - 1` becomes `i64::MAX`, which `usize::try_from` accepts.
  function SplitPartAsWritten(s: string, d: string, field: int): (r: Result<string>)
    requires InRange(W64, field)
    ensures r.Err? <==> I64_MIN < field < 1
    ensures field == I64_MIN ==> r.Ok? && (d == [] ==> r.value == [])
    ensures field == I64_MIN && |s| < I64_MAX ==> r == Ok([])
  {
    assert d != [] ==> |Split(s, d)| <= |s| + 1 by {
      if d != [] { SplitCount(s, d); }
    }
    var index := Wrap(W64, field - 1);
    if index < 0 then Err(InvalidParameterValue("field position must be greater than zero"))
    else if d == [] then (if index == 0 then Ok(s) else Ok([]))
    else match Nth(Split(s, d), index)
      case Some(p) => Ok(p)
      case None => Ok([])
  }

  /// For field `i64::MIN` the wrapped index makes the source return the
  /// empty string where every other field below 1 is rejected.
  lemma SplitPartOverflow()
    ensures SplitPartAsWritten("a,b", ",", I64_MIN) == Ok("")
    ensures SplitPart("a,b", ",", I64_MIN).Err?
  {
  }

  /// Every other field gives the same result either way.
  lemma SplitPartNoOverflow(s: string, d: string, field: int)
    requires InRange(W64, field) && field != I64_MIN
    ensures SplitPartAsWritten(s, d, field) == SplitPart(s, d, field)
  {
    assert Wrap(W64, field - 1) == field - 1;
  }

  predicate StringsOrNulls(ds: seq<Datum>) {
    forall i :: 0 <= i < |ds| ==> ds[i].String? || ds[i].Null?
  }

  /// The concatenation of the non-Null strings of `ds`, in order.
  function ConcatNonNull(ds: seq<Datum>): string
    requires StringsOrNulls(ds)
    decreases |ds|
  {
    if ds == [] then []
    else
      var last := ds[|ds| - 1];
      ConcatNonNull(ds[..|ds| - 1]) + (if last.Null? then [] else last.s)
  }

  lemma StringsOrNullsAppend(ds: seq<Datum>, es: seq<Datum>)
    requires StringsOrNulls(ds) && StringsOrNulls(es)
    ensures StringsOrNulls(ds + es)
  {
  }

  lemma ConcatNonNullLast(ds: seq<Datum>)
    requires ds != [] && StringsOrNulls(ds)
    ensures StringsOrNulls(ds[..|ds| - 1])
    ensures var last := ds[|ds| - 1];
      ConcatNonNull(ds) == ConcatNonNull(ds[..|ds| - 1]) + (if last.Null? then [] else last.s)
  {
  }

  /// Concatenation distributes over splitting the argument list.
  lemma {:induction false} ConcatNonNullAppend(ds: seq<Datum>, es: seq<Datum>)
    requires StringsOrNulls(ds) && StringsOrNulls(es)
    ensures StringsOrNulls(ds + es)
    ensures ConcatNonNull(ds + es) == ConcatNonNull(ds) + ConcatNonNull(es)
    decreases |es|
  {
    StringsOrNullsAppend(ds, es);
    if es == [] {
      assert ds + es == ds;
    } else {
      var init := es[..|es| - 1];
      assert (ds + es)[..|ds + es| - 1] == ds + init;
      assert (ds + es)[|ds + es| - 1] == es[|es| - 1];
      ConcatNonNullLast(es);
      ConcatNonNullLast(ds + es);
      ConcatNonNullAppend(ds, init);
    }
  }

  /// Null arguments contribute nothing.
  lemma ConcatNonNullSkipsNull(ds: seq<Datum>, es: seq<Datum>)
    requires StringsOrNulls(ds) && StringsOrNulls(es)
    ensures StringsOrNulls(ds + [Null] + es)
    ensures ConcatNonNull(ds + [Null] + es) == ConcatNonNull(ds + es)
  {
    assert StringsOrNulls(ds + [Null]);
    ConcatNonNullAppend(ds + [Null], es);
    ConcatNonNullAppend(ds, es);
    assert (ds + [Null])[..|ds|] == ds;
  }

  /// `text_concat_variadic`: pushes each non-Null argument onto a buffer.
  method TextConcatVariadic(ds: seq<Datum>) returns (buf: string)
    requires StringsOrNulls(ds)
    ensures buf == ConcatNonNull(ds)
  {
    buf := [];
    for i := 0 to |ds|
      invariant buf == ConcatNonNull(ds[..i])
    {
      assert ds[..i + 1][..i] == ds[..i];
      if !ds[i].Null? {
        buf := buf + ds[i].s;
      }
    }
    assert ds[..|ds|] == ds;
  }
}
