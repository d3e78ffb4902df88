// Fixed-width integer arithmetic of the scalar function library: checked
// add/sub/mul at widths 16, 32 and 64, truncating division and remainder,
// and the narrowing casts between widths.

module IntArith {
  import opened Datums

  datatype Width = W16 | W32 | W64

  function Min(w: Width): int {
    match w
    case W16 => I16_MIN
    case W32 => I32_MIN
    case W64 => I64_MIN
  }

  function Max(w: Width): int {
    match w
    case W16 => I16_MAX
    case W32 => I32_MAX
    case W64 => I64_MAX
  }

  function Modulus(w: Width): int {
    match w
    case W16 => 0x1_0000
    case W32 => 0x1_0000_0000
    case W64 => 0x1_0000_0000_0000_0000
  }

  predicate InRange(w: Width, x: int) { Min(w) <= x <= Max(w) }

  /// The two's-complement value of the low `w` bits of `x`: what a machine
  /// register of that width holds after a wrapping operation.
  function Wrap(w: Width, x: int): (r: int)
    ensures InRange(w, r)
    ensures InRange(w, x) ==> r == x
    ensures Max(w) < x <= Max(w) + Modulus(w) ==> r == x - Modulus(w)
    ensures Min(w) - Modulus(w) <= x < Min(w) ==> r == x + Modulus(w)
  {
    var m := x % Modulus(w);
    if m > Max(w) then m - Modulus(w) else m
  }

  /// `checked_add`: the wrapped sum, rejected when both operands have the
  /// same sign and the wrapped sum does not.
  function CheckedAdd(w: Width, a: int, b: int): (r: Result<int>)
    requires InRange(w, a) && InRange(w, b)
    ensures r == if InRange(w, a + b) then Ok(a + b) else Err(NumericFieldOverflow)
  {
    var s := Wrap(w, a + b);
    if (a >= 0) == (b >= 0) && (s >= 0) != (a >= 0) then Err(NumericFieldOverflow) else Ok(s)
  }

  /// `checked_sub`: the wrapped difference, rejected when the operands have
  /// different signs and the wrapped difference's sign differs from `a`'s.
  function CheckedSub(w: Width, a: int, b: int): (r: Result<int>)
    requires InRange(w, a) && InRange(w, b)
    ensures r == if InRange(w, a - b) then Ok(a - b) else Err(NumericFieldOverflow)
  {
    var s := Wrap(w, a - b);
    if (a >= 0) != (b >= 0) && (s >= 0) != (a >= 0) then Err(NumericFieldOverflow) else Ok(s)
  }

  /// `checked_mul`: the product computed at double width, rejected when its
  /// low half does not hold the whole product.
  function CheckedMul(w: Width, a: int, b: int): (r: Result<int>)
    requires InRange(w, a) && InRange(w, b)
    ensures r == if InRange(w, a * b) then Ok(a * b) else Err(NumericFieldOverflow)
  {
    var p := a * b;
    if Wrap(w, p) != p then Err(NumericFieldOverflow) else Ok(p)
  }

  function Abs(x: int): nat { if x < 0 then -x else x }

  /// Rust's `/` on integers: the quotient rounded toward zero.
  function DivT(a: int, b: int): int
    requires b != 0
  {
    var q := Abs(a) / Abs(b);
    if (a >= 0) == (b > 0) then q else -q
  }

  /// Rust's `%` on integers: the remainder of the truncating division, with
  /// the sign of the dividend.
  function RemT(a: int, b: int): int
    requires b != 0
  {
    var r := Abs(a) % Abs(b);
    if a >= 0 then r else -r
  }

  lemma DivNat(x: nat, y: nat)
    requires y > 0
    ensures x == y * (x / y) + x % y && 0 <= x % y < y
    ensures x / y <= x
    ensures y > 1 && x > 0 ==> x / y < x
  {
    var q := x / y;
    assert y * q >= q by { MulAtLeast(y, q); }
    if y > 1 && q > 0 {
      assert y * q >= 2 * q by { MulAtLeast2(y, q); }
    }
  }

  lemma MulAtLeast(y: nat, q: nat)
    requires y >= 1
    ensures y * q >= q
  {
  }

  lemma MulAtLeast2(y: nat, q: nat)
    requires y >= 2
    ensures y * q >= 2 * q
  {
  }

  /// Truncating division and remainder fit together: `a == b*q + r`, the
  /// remainder is smaller than the divisor in magnitude and never has the
  /// opposite sign of the dividend, and the quotient never exceeds the
  /// dividend in magnitude.
  lemma DivRemT(a: int, b: int)
    requires b != 0
    ensures a == b * DivT(a, b) + RemT(a, b)
    ensures Abs(RemT(a, b)) < Abs(b)
    ensures a >= 0 ==> RemT(a, b) >= 0
    ensures a <= 0 ==> RemT(a, b) <= 0
    ensures Abs(DivT(a, b)) <= Abs(a)
  {
    var x, y := Abs(a), Abs(b);
    var q: int, r: int := x / y, x % y;
    DivNat(x, y);
    var d, m := DivT(a, b), RemT(a, b);
    MulSigns(y, q);
    if a >= 0 && b > 0 {
      assert d == q && m == r && b * d == y * q;
    } else if a >= 0 {
      assert d == -q && m == r && b * d == (-y) * (-q);
    } else if b > 0 {
      assert d == -q && m == -r && b * d == y * (-q);
    } else {
      assert d == q && m == -r && b * d == (-y) * q;
    }
  }

  lemma MulSigns(y: int, q: int)
    ensures (-y) * q == -(y * q) && y * (-q) == -(y * q) && (-y) * (-q) == y * q
  {
  }

  /// The quotient fits the width unless the source's panicking case
  /// `MIN / -1` is taken.
  lemma DivTInRange(w: Width, a: int, b: int)
    requires InRange(w, a) && InRange(w, b) && b != 0
    requires !(a == Min(w) && b == -1)
    ensures InRange(w, DivT(a, b)) && InRange(w, RemT(a, b))
  {
    DivRemT(a, b);
    DivNat(Abs(a), Abs(b));
  }

  /// `div_int*`: `DivisionByZero` when the divisor is 0, otherwise the
  /// truncating quotient.
  function CheckedDiv(w: Width, a: int, b: int): (r: Result<int>)
    requires InRange(w, a) && InRange(w, b)
    requires !(a == Min(w) && b == -1)
    ensures r.Err? <==> b == 0
    ensures r.Err? ==> r.error == DivisionByZero
    ensures r.Ok? ==> InRange(w, r.value) && r.value == DivT(a, b)
  {
    if b == 0 then Err(DivisionByZero)
    else
      DivTInRange(w, a, b);
      Ok(DivT(a, b))
  }

  /// `mod_int*`: `DivisionByZero` when the divisor is 0, otherwise the
  /// truncating remainder.
  function CheckedRem(w: Width, a: int, b: int): (r: Result<int>)
    requires InRange(w, a) && InRange(w, b)
    requires !(a == Min(w) && b == -1)
    ensures r.Err? <==> b == 0
    ensures r.Err? ==> r.error == DivisionByZero
    ensures r.Ok? ==> InRange(w, r.value) && r.value == RemT(a, b)
  {
    if b == 0 then Err(DivisionByZero)
    else
      DivTInRange(w, a, b);
      Ok(RemT(a, b))
  }

  function OutOfRange(w: Width): EvalError {
    match w
    case W16 => Int16OutOfRange
    case W32 => Int32OutOfRange
    case W64 => Int64OutOfRange
  }

  /// `try_from` into a narrower width.
  function Narrow(w: Width, x: int): (r: Result<int>)
    ensures r.Ok? <==> InRange(w, x)
    ensures r.Ok? ==> r.value == x
    ensures r.Err? ==> r.error == OutOfRange(w)
  {
    if Min(w) <= x && x <= Max(w) then Ok(x) else Err(OutOfRange(w))
  }

  predicate Wider(v: Width, w: Width) {
    Min(v) <= Min(w) && Max(w) <= Max(v)
  }

  /// Widening never loses a value, so narrowing back always succeeds.
  lemma WidenNarrow(narrow: Width, wide: Width, x: int)
    requires Wider(wide, narrow) && InRange(narrow, x)
    ensures InRange(wide, x)
    ensures Narrow(narrow, x) == Ok(x)
  {
  }
}
