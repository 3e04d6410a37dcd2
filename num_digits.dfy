/**
 * `jewel::NumDigits`: the number of digits of an integer written in a
 * given base, not counting a minus sign.
 *
 * `DigitCount` is the reference definition on natural numbers; the
 * counting loop of `num_digits_aux` works on the value of the C++ type
 * itself (never on its absolute value, which for the minimum of a signed
 * type would not be representable) and is proved to agree with it.
 */
module NumDigits {
  import opened Arithmetic
  import opened IntTypes

  /** Digits of n in base b: one for every n < b, one more for every factor of b. */
  function DigitCount(n: nat, b: int): (k: nat)
    requires b > 1
    ensures k >= 1
    decreases n
  {
    if n < b then 1
    else
      DivDecreases(n, b);
      1 + DigitCount(n / b, b)
  }

  // One division step: bounds on n / b carry over to n.
  lemma ScaleBounds(n: nat, b: int, p: int, q: int)
    requires b > 1 && n / b < p && q <= n / b
    ensures n < b * p && b * q <= n
  {
    var m := n / b;
    assert n == b * m + n % b && n % b < b;
    MulMonotone(m + 1, p, b);
    MulMonotone(q, m, b);
  }

  /** DigitCount(n, b) is the least k >= 1 with n < b^k. */
  lemma {:induction false} DigitCountBounds(n: nat, b: int)
    requires b > 1
    ensures n < Pow(b, DigitCount(n, b))
    ensures DigitCount(n, b) > 1 ==> Pow(b, DigitCount(n, b) - 1) <= n
  {
    if n >= b {
      var m := n / b;
      var k := DigitCount(m, b);
      DivDecreases(n, b);
      DigitCountBounds(m, b);
      assert DigitCount(n, b) == k + 1;
      var p := Pow(b, k);
      assert Pow(b, k + 1) == b * p;
      if k > 1 {
        var q := Pow(b, k - 1);
        assert p == b * q;
        ScaleBounds(n, b, p, q);
      } else {
        ScaleBounds(n, b, p, 0);
        assert p == b;
      }
    }
  }

  /** DigitCount(n, b) == k exactly when b^(k-1) <= n < b^k (dropping the lower bound for k == 1). */
  lemma DigitCountIs(n: nat, b: int, k: nat)
    requires b > 1
    ensures DigitCount(n, b) == k <==> k >= 1 && n < Pow(b, k) && (k > 1 ==> Pow(b, k - 1) <= n)
  {
    DigitCountBounds(n, b);
    var d := DigitCount(n, b);
    if k >= 1 && n < Pow(b, k) && (k > 1 ==> Pow(b, k - 1) <= n) {
      if d > k {
        PowMonotone(b, k, d - 1);
      } else if d < k {
        PowMonotone(b, d, k - 1);
      }
    }
  }

  // `i /= base` stays in the type and divides |i| by the base.
  lemma DivideByBase(t: IntType, i: int, base: int)
    requires InRange(t, i) && base > 1
    ensures InRange(t, TDiv(i, base)) && Abs(TDiv(i, base)) == Abs(i) / base
    ensures i != 0 ==> Abs(TDiv(i, base)) < Abs(i)
  {
    if i != 0 {
      DivDecreases(Abs(i), base);
    }
    TDivRem(i, base);
    assert i < 0 ==> TDiv(i, base) == -(Abs(i) / base);
    assert i >= 0 ==> TDiv(i, base) == Abs(i) / base;
  }

  /**
   * `num_digits_aux`: zero has one digit; otherwise count the truncating
   * divisions by the base that it takes to reach zero.
   */
  method NumDigitsAux(t: IntType, x: int, base: int) returns (digits: nat)
    requires InRange(t, x) && InRange(t, base) && base > 1
    ensures digits == DigitCount(Abs(x), base)
  {
    if x == 0 {
      return 1;
    }
    digits := 0;
    var i := x;
    while i != 0
      invariant InRange(t, i)
      invariant i != 0 ==> digits + DigitCount(Abs(i), base) == DigitCount(Abs(x), base)
      invariant i == 0 ==> digits == DigitCount(Abs(x), base)
      decreases Abs(i)
    {
      ghost var a := Abs(i);
      DivideByBase(t, i, base);
      DivIsZero(a, base);
      i := DivT(Min(t), Max(t), i, base);
      digits := digits + 1;
      if i != 0 {
        assert DigitCount(a, base) == 1 + DigitCount(Abs(i), base);
      }
    }
  }

  /** The public overloads: the base must exceed one; then delegate. */
  method Count(t: IntType, x: int, base: int) returns (digits: nat)
    requires InRange(t, x) && InRange(t, base) && base > 1
    ensures digits >= 1
    ensures Abs(x) < Pow(base, digits)
    ensures digits > 1 ==> Pow(base, digits - 1) <= Abs(x)
    ensures digits == DigitCount(Abs(x), base)
  {
    digits := NumDigitsAux(t, x, base);
    DigitCountBounds(Abs(x), base);
  }

  /**
   * The count depends on |x| only: `num_digits(-x) == num_digits(x)`, and
   * the overloads for two types agree on values of equal magnitude.
   */
  method SignIndependent(s: IntType, t: IntType, x: int, y: int, base: int) returns (dx: nat, dy: nat)
    requires InRange(s, x) && InRange(s, base) && InRange(t, y) && InRange(t, base)
    requires base > 1 && Abs(x) == Abs(y)
    ensures dx == dy
  {
    dx := Count(s, x, base);
    dy := Count(t, y, base);
  }

  /** Values the library's test cases check. */
  lemma Examples()
    ensures DigitCount(0, 10) == 1 && DigitCount(6, 10) == 1
    ensures DigitCount(4, 2) == 3 && DigitCount(8, 2) == 4
    ensures DigitCount(Abs(LLongMin), 10) == 19
    ensures DigitCount(Abs(LLongMax), 10) == 19
  {
    assert DigitCount(4, 2) == 1 + DigitCount(2, 2) == 2 + DigitCount(1, 2);
    assert DigitCount(8, 2) == 1 + DigitCount(4, 2);
    Pow10Values();
    DigitCountIs(Abs(LLongMin), 10, 19);
    DigitCountIs(Abs(LLongMax), 10, 19);
  }
}
