/**
 * `jewel::detail::CheckedArithmetic`: predicates that tell whether an
 * arithmetic operation on two values of one integer type would overflow
 * (signed types), wrap around (unsigned types) or divide by zero.  The
 * operation itself is never performed.
 *
 * The template functions are parameterised by the bounds of the type
 * (`std::numeric_limits<T>::min()` and `max()`); the per-type overloads
 * of the source pick the signed or unsigned template for each of the ten
 * supported types.  Every intermediate value the templates compute goes
 * through `IntTypes.SubT`/`AddT`/`DivT`, so the bodies themselves are
 * proved free of overflow.
 */
module CheckedArithmeticDetail {
  import opened IntTypes
  import opened Arithmetic

  /** The bounds of a two's complement signed type. */
  predicate SignedBounds(lo: int, hi: int) {
    hi > 0 && lo == -hi - 1
  }

  // For b > 0: z exceeds the floor quotient a / b iff z * b exceeds a.
  lemma QuotientBound(a: nat, b: int, z: int)
    requires b > 0
    ensures z > a / b <==> z * b > a
  {
    var q, r := a / b, a % b;
    assert a == q * b + r && 0 <= r < b;
    if z > q {
      MulMonotone(q + 1, z, b);
      assert (q + 1) * b == q * b + b;
    } else {
      MulMonotone(z, q, b);
    }
  }

  // ---------------------------------------------------------------------
  // The templates

  function AdditionIsUnsafeSigned(lo: int, hi: int, x: int, y: int): (r: bool)
    requires SignedBounds(lo, hi) && lo <= x <= hi && lo <= y <= hi
    ensures r <==> !(lo <= x + y <= hi)
  {
    (y > 0 && x > SubT(lo, hi, hi, y)) || (y < 0 && x < SubT(lo, hi, lo, y))
  }

  function AdditionIsUnsafeUnsigned(hi: int, x: int, y: int): (r: bool)
    requires hi > 0 && 0 <= x <= hi && 0 <= y <= hi
    ensures r <==> x + y > hi
  {
    x > SubT(0, hi, hi, y)
  }

  function SubtractionIsUnsafeSigned(lo: int, hi: int, x: int, y: int): (r: bool)
    requires SignedBounds(lo, hi) && lo <= x <= hi && lo <= y <= hi
    ensures r <==> !(lo <= x - y <= hi)
  {
    (y < 0 && x > AddT(lo, hi, hi, y)) || (y > 0 && x < AddT(lo, hi, lo, y))
  }

  /** `x < min + y` with min == 0. */
  function SubtractionIsUnsafeUnsigned(hi: int, x: int, y: int): (r: bool)
    requires hi > 0 && 0 <= x <= hi && 0 <= y <= hi
    ensures r <==> x - y < 0
  {
    x < AddT(0, hi, 0, y)
  }

  // The four sign cases of the signed multiplication template.
  lemma MulBothPositive(lo: int, hi: int, x: int, y: int)
    requires SignedBounds(lo, hi) && 0 < x <= hi && 0 < y <= hi
    ensures x > TDiv(hi, y) <==> !(lo <= x * y <= hi)
    ensures lo <= TDiv(hi, y) <= hi
  {
    TDivRem(hi, y);
    QuotientBound(hi, y, x);
    MulMonotone(0, x, y);
  }

  lemma MulPositiveByNonPositive(lo: int, hi: int, x: int, y: int)
    requires SignedBounds(lo, hi) && 0 < x <= hi && lo <= y <= 0
    ensures y < TDiv(lo, x) <==> !(lo <= x * y <= hi)
    ensures lo <= TDiv(lo, x) <= hi
  {
    TDivRem(lo, x);
    assert TDiv(lo, x) == -((-lo) / x);
    QuotientBound(-lo, x, -y);
    assert (-y) * x == -(x * y);
    MulMonotone(0, -y, x);
  }

  lemma MulNonPositiveByPositive(lo: int, hi: int, x: int, y: int)
    requires SignedBounds(lo, hi) && lo <= x <= 0 && 0 < y <= hi
    ensures x < TDiv(lo, y) <==> !(lo <= x * y <= hi)
    ensures lo <= TDiv(lo, y) <= hi
  {
    TDivRem(lo, y);
    assert TDiv(lo, y) == -((-lo) / y);
    QuotientBound(-lo, y, -x);
    assert (-x) * y == -(x * y);
    MulMonotone(0, -x, y);
  }

  lemma MulBothNonPositive(lo: int, hi: int, x: int, y: int)
    requires SignedBounds(lo, hi) && lo <= x < 0 && lo <= y <= 0
    ensures y < TDiv(hi, x) <==> !(lo <= x * y <= hi)
    ensures lo <= TDiv(hi, x) <= hi
  {
    TDivRem(hi, x);
    assert TDiv(hi, x) == -(hi / (-x));
    QuotientBound(hi, -x, -y);
    assert (-y) * (-x) == x * y;
    MulMonotone(0, -y, -x);
  }

  function MultiplicationIsUnsafeSigned(lo: int, hi: int, x: int, y: int): (r: bool)
    requires SignedBounds(lo, hi) && lo <= x <= hi && lo <= y <= hi
    ensures r <==> !(lo <= x * y <= hi)
  {
    if x > 0 then
      if y > 0 then
        MulBothPositive(lo, hi, x, y);
        x > DivT(lo, hi, hi, y)
      else
        MulPositiveByNonPositive(lo, hi, x, y);
        y < DivT(lo, hi, lo, x)
    else
      if y > 0 then
        MulNonPositiveByPositive(lo, hi, x, y);
        x < DivT(lo, hi, lo, y)
      else
        // (x != 0) && (y < max / x)
        if x != 0 then
          MulBothNonPositive(lo, hi, x, y);
          y < DivT(lo, hi, hi, x)
        else
          false
  }

  function MultiplicationIsUnsafeUnsigned(hi: int, x: int, y: int): (r: bool)
    requires hi > 0 && 0 <= x <= hi && 0 <= y <= hi
    ensures r <==> x * y > hi
  {
    if x == 0 || y == 0 then
      false
    else
      TDivRem(hi, y);
      QuotientBound(hi, y, x);
      x > DivT(0, hi, hi, y)
  }

  // A truncated quotient fits unless it is min / -1.
  lemma SignedQuotientRange(lo: int, hi: int, x: int, y: int)
    requires SignedBounds(lo, hi) && lo <= x <= hi && lo <= y <= hi && y != 0
    ensures lo <= TDiv(x, y) <= hi <==> !(y == -1 && x == lo)
  {
    var ax: int, ay: int := Abs(x), Abs(y);
    var q: int := ax / ay;
    assert ax == ay * q + ax % ay;
    if ay == 1 {
      assert q == ax;
    } else {
      MulMonotone(2, ay, q);
      assert q <= ax - q;
      assert Abs(TDiv(x, y)) == q;
    }
  }

  function DivisionIsUnsafeSigned(lo: int, hi: int, x: int, y: int): (r: bool)
    requires SignedBounds(lo, hi) && lo <= x <= hi && lo <= y <= hi
    ensures r <==> y == 0 || !(lo <= TDiv(x, y) <= hi)
  {
    if y == 0 then true
    else
      SignedQuotientRange(lo, hi, x, y);
      y == -1 && x == lo
  }

  /** The dividend does not matter for an unsigned division. */
  function DivisionIsUnsafeUnsigned(hi: int, x: int, y: int): (r: bool)
    requires hi > 0 && 0 <= x <= hi && 0 <= y <= hi
    ensures r <==> y == 0 || !(0 <= TDiv(x, y) <= hi)
  {
    if y == 0 then true
    else
      TDivRem(x, y);
      false
  }

  // ---------------------------------------------------------------------
  // The per-type overloads

  function AdditionIsUnsafe(t: IntType, x: int, y: int): (r: bool)
    requires InRange(t, x) && InRange(t, y)
    ensures r <==> !InRange(t, x + y)
  {
    if IsSigned(t) then AdditionIsUnsafeSigned(Min(t), Max(t), x, y)
    else AdditionIsUnsafeUnsigned(Max(t), x, y)
  }

  function SubtractionIsUnsafe(t: IntType, x: int, y: int): (r: bool)
    requires InRange(t, x) && InRange(t, y)
    ensures r <==> !InRange(t, x - y)
  {
    if IsSigned(t) then SubtractionIsUnsafeSigned(Min(t), Max(t), x, y)
    else SubtractionIsUnsafeUnsigned(Max(t), x, y)
  }

  function MultiplicationIsUnsafe(t: IntType, x: int, y: int): (r: bool)
    requires InRange(t, x) && InRange(t, y)
    ensures r <==> !InRange(t, x * y)
  {
    if IsSigned(t) then MultiplicationIsUnsafeSigned(Min(t), Max(t), x, y)
    else
      assert x * y >= 0;
      MultiplicationIsUnsafeUnsigned(Max(t), x, y)
  }

  function DivisionIsUnsafe(t: IntType, x: int, y: int): (r: bool)
    requires InRange(t, x) && InRange(t, y)
    ensures r <==> y == 0 || !InRange(t, TDiv(x, y))
  {
    if IsSigned(t) then DivisionIsUnsafeSigned(Min(t), Max(t), x, y)
    else DivisionIsUnsafeUnsigned(Max(t), x, y)
  }

  /**
   * The remainder overloads reuse the division templates: `x % y` is
   * undefined exactly when `x / y` is.
   */
  lemma RemainderRange(t: IntType, x: int, y: int)
    requires InRange(t, x) && InRange(t, y)
    ensures y != 0 ==> InRange(t, TRem(x, y))
  {
    if y != 0 {
      TDivRem(x, y);
    }
  }

  function RemainderIsUnsafe(t: IntType, x: int, y: int): (r: bool)
    requires InRange(t, x) && InRange(t, y)
    ensures r <==> y == 0 || !InRange(t, TDiv(x, y))
    ensures y != 0 ==> InRange(t, TRem(x, y))
  {
    RemainderRange(t, x, y);
    if IsSigned(t) then DivisionIsUnsafeSigned(Min(t), Max(t), x, y)
    else DivisionIsUnsafeUnsigned(Max(t), x, y)
  }
}
