/**
 * The integer types of the C++ library (LP64 data model: `long` and
 * `unsigned long` are 64 bits wide, `size_t` is `unsigned long`), their
 * ranges, and the integer operations of C++ that differ from Dafny's.
 *
 * Dafny's `/` and `%` are Euclidean; C++ truncates toward zero, so the
 * C++ operators are written out as `TDiv` and `TRem`.  Arithmetic of a
 * C++ type is only defined when its result is representable, which the
 * `...T` helpers demand as a precondition: a body that uses them proves
 * that it never overflows.
 */
module IntTypes {
  import opened Arithmetic

  datatype IntType =
    | SignedChar | Short | Int | Long | LongLong
    | UnsignedChar | UnsignedShort | UnsignedInt | UnsignedLong | UnsignedLongLong

  predicate IsSigned(t: IntType) {
    t.SignedChar? || t.Short? || t.Int? || t.Long? || t.LongLong?
  }

  const LLongMin: int := -0x8000_0000_0000_0000
  const LLongMax: int := 0x7FFF_FFFF_FFFF_FFFF
  const ULongMax: int := 0xFFFF_FFFF_FFFF_FFFF

  function Max(t: IntType): (m: int)
    ensures m > 0
  {
    match t
    case SignedChar => 0x7F
    case Short => 0x7FFF
    case Int => 0x7FFF_FFFF
    case Long => LLongMax
    case LongLong => LLongMax
    case UnsignedChar => 0xFF
    case UnsignedShort => 0xFFFF
    case UnsignedInt => 0xFFFF_FFFF
    case UnsignedLong => ULongMax
    case UnsignedLongLong => ULongMax
  }

  /** Two's complement for the signed types, zero for the unsigned ones. */
  function Min(t: IntType): (m: int)
    ensures IsSigned(t) ==> m == -Max(t) - 1
    ensures !IsSigned(t) ==> m == 0
  {
    if IsSigned(t) then -Max(t) - 1 else 0
  }

  predicate InRange(t: IntType, x: int) {
    Min(t) <= x <= Max(t)
  }

  /** A value of C++ type `long long`. */
  predicate InLLong(x: int) {
    LLongMin <= x <= LLongMax
  }

  function Abs(x: int): nat {
    if x < 0 then -x else x
  }

  /** C++ integer division: the quotient truncated toward zero. */
  function TDiv(x: int, y: int): int
    requires y != 0
  {
    if (x < 0) == (y < 0) then Abs(x) / Abs(y) else -(Abs(x) / Abs(y))
  }

  /** C++ `%`: the remainder of `TDiv`, carrying the sign of the dividend. */
  function TRem(x: int, y: int): int
    requires y != 0
  {
    x - y * TDiv(x, y)
  }

  // TRem is the remainder of |x| / |y|, with the sign of x.
  lemma TRemAbs(x: int, y: int)
    requires y != 0
    ensures TRem(x, y) == if x < 0 then -(Abs(x) % Abs(y)) else Abs(x) % Abs(y)
  {
    var ax: int, ay: int := Abs(x), Abs(y);
    var q: int := ax / ay;
    assert ax == ay * q + ax % ay;
    if (x < 0) == (y < 0) {
      assert TDiv(x, y) == q;
      if x < 0 {
        assert y * q == -(ay * q);
      } else {
        assert y * q == ay * q;
      }
    } else {
      assert TDiv(x, y) == -q;
      assert y * (-q) == -(y * q);
      if x < 0 {
        assert y * q == ay * q;
      } else {
        assert y * q == -(ay * q);
      }
    }
  }

  lemma TDivRem(x: int, y: int)
    requires y != 0
    ensures x == y * TDiv(x, y) + TRem(x, y)
    ensures Abs(TRem(x, y)) < Abs(y)
    ensures x >= 0 ==> TRem(x, y) >= 0
    ensures x <= 0 ==> TRem(x, y) <= 0
    ensures Abs(TDiv(x, y)) == Abs(x) / Abs(y) <= Abs(x)
    ensures x >= 0 && y > 0 ==> TDiv(x, y) == x / y && TRem(x, y) == x % y
  {
    TRemAbs(x, y);
    var ax: int, ay: int := Abs(x), Abs(y);
    QuotientAtMost(ax, ay, ax / ay, ax % ay);
    if x >= 0 && y > 0 {
      assert x == y * (x / y) + x % y;
    }
  }

  // A quotient of a divisor of at least 1 is at most the dividend.
  lemma QuotientAtMost(a: int, b: int, q: int, r: int)
    requires b >= 1 && q >= 0 && r >= 0 && a == b * q + r
    ensures q <= a
  {
    MulMonotone(1, b, q);
  }

  /** Subtraction in a C++ type with range [lo, hi]; undefined on overflow. */
  function SubT(lo: int, hi: int, a: int, b: int): int
    requires lo <= a - b <= hi
  {
    a - b
  }

  /** Addition in a C++ type with range [lo, hi]; undefined on overflow. */
  function AddT(lo: int, hi: int, a: int, b: int): int
    requires lo <= a + b <= hi
  {
    a + b
  }

  /** Truncating division in a C++ type with range [lo, hi]; undefined on overflow. */
  function DivT(lo: int, hi: int, a: int, b: int): int
    requires b != 0 && lo <= TDiv(a, b) <= hi
  {
    TDiv(a, b)
  }
}
