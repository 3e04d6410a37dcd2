/**
 * The public interface of checked arithmetic (`jewel::addition_is_unsafe`
 * and friends).  Each function forwards to the overload of
 * `CheckedArithmeticDetail` for the type `t` of both arguments; both
 * arguments have that one type, so no conversion ever takes place.  A
 * result is true iff performing the operation in type `t` would be
 * unsafe: out of range for a signed type, wrapping around for an unsigned
 * one, or a division by zero.
 */
module CheckedArithmetic {
  import opened IntTypes
  import Detail = CheckedArithmeticDetail

  function AdditionIsUnsafe(t: IntType, x: int, y: int): (r: bool)
    requires InRange(t, x) && InRange(t, y)
    ensures r <==> !InRange(t, x + y)
  {
    Detail.AdditionIsUnsafe(t, x, y)
  }

  function SubtractionIsUnsafe(t: IntType, x: int, y: int): (r: bool)
    requires InRange(t, x) && InRange(t, y)
    ensures r <==> !InRange(t, x - y)
  {
    Detail.SubtractionIsUnsafe(t, x, y)
  }

  function MultiplicationIsUnsafe(t: IntType, x: int, y: int): (r: bool)
    requires InRange(t, x) && InRange(t, y)
    ensures r <==> !InRange(t, x * y)
  {
    Detail.MultiplicationIsUnsafe(t, x, y)
  }

  function DivisionIsUnsafe(t: IntType, x: int, y: int): (r: bool)
    requires InRange(t, x) && InRange(t, y)
    ensures r <==> y == 0 || !InRange(t, TDiv(x, y))
  {
    Detail.DivisionIsUnsafe(t, x, y)
  }

  function RemainderIsUnsafe(t: IntType, x: int, y: int): (r: bool)
    requires InRange(t, x) && InRange(t, y)
    ensures r <==> y == 0 || !InRange(t, TDiv(x, y))
    ensures y != 0 ==> InRange(t, TRem(x, y))
  {
    Detail.RemainderIsUnsafe(t, x, y)
  }

  /** Addition and multiplication do not depend on the order of the operands. */
  lemma Symmetric(t: IntType, x: int, y: int)
    requires InRange(t, x) && InRange(t, y)
    ensures AdditionIsUnsafe(t, x, y) == AdditionIsUnsafe(t, y, x)
    ensures MultiplicationIsUnsafe(t, x, y) == MultiplicationIsUnsafe(t, y, x)
  {
    assert x * y == y * x;
  }

  /** A remainder is unsafe exactly when the division with the same operands is. */
  lemma RemainderIsDivision(t: IntType, x: int, y: int)
    requires InRange(t, x) && InRange(t, y)
    ensures RemainderIsUnsafe(t, x, y) == DivisionIsUnsafe(t, x, y)
  {
  }

  /** The boundary cases the library's own test cases single out. */
  lemma Boundaries(t: IntType)
    requires IsSigned(t)
    ensures MultiplicationIsUnsafe(t, Min(t), -1)
    ensures !MultiplicationIsUnsafe(t, Max(t), -1)
    ensures !MultiplicationIsUnsafe(t, Min(t), 0) && !MultiplicationIsUnsafe(t, 0, Min(t))
    ensures !SubtractionIsUnsafe(t, -Max(t), 1)
    ensures SubtractionIsUnsafe(t, Min(t), 1) && AdditionIsUnsafe(t, Max(t), 1)
    ensures DivisionIsUnsafe(t, Min(t), -1) && DivisionIsUnsafe(t, 0, 0)
    ensures !DivisionIsUnsafe(t, Min(t), 1)
  {
    assert TDiv(Min(t), 1) == Min(t);
  }

  lemma UnsignedBoundaries(t: IntType, x: int)
    requires !IsSigned(t) && InRange(t, x)
    ensures SubtractionIsUnsafe(t, 0, 1) && AdditionIsUnsafe(t, Max(t), 1)
    ensures !MultiplicationIsUnsafe(t, 0, x) && !MultiplicationIsUnsafe(t, x, 0)
    ensures DivisionIsUnsafe(t, x, 0) && !DivisionIsUnsafe(t, x, 1)
  {
    assert TDiv(x, 1) == x;
  }
}
