/**
 * Exact integer powers and the facts about multiplication and division
 * the rest of the model relies on.  The source computes 10^k and 2^n with
 * the floating-point `std::pow`, and only ever for results it then
 * converts to an integer, so the model uses exact powers throughout.
 */
module Arithmetic {

  lemma MulMonotone(a: int, b: int, c: int)
    requires a <= b && c >= 0
    ensures a * c <= b * c
  {
    assert b * c - a * c == (b - a) * c;
  }

  /** Dividing by more than one makes a positive number smaller. */
  lemma DivDecreases(n: int, b: int)
    requires n >= 1 && b > 1
    ensures 0 <= n / b < n
  {
    var q := n / b;
    assert n == b * q + n % b;
    if q >= n {
      MulMonotone(2, b, q);
    }
  }

  lemma DivIsZero(a: nat, b: int)
    requires b > 0
    ensures a / b == 0 <==> a < b
  {
    assert a == b * (a / b) + a % b;
    if a / b > 0 {
      MulMonotone(1, a / b, b);
    }
  }

  function Pow(b: int, k: nat): int
  {
    if k == 0 then 1 else b * Pow(b, k - 1)
  }

  function Pow10(k: nat): int
  {
    Pow(10, k)
  }

  lemma {:induction false} PowPositive(b: int, k: nat)
    requires b > 0
    ensures Pow(b, k) > 0
  {
    if k > 0 {
      PowPositive(b, k - 1);
    }
  }

  lemma Pow10Positive(k: nat)
    ensures Pow10(k) > 0
  {
    PowPositive(10, k);
  }

  lemma {:induction false} PowAdd(b: int, m: nat, n: nat)
    ensures Pow(b, m + n) == Pow(b, m) * Pow(b, n)
  {
    if m > 0 {
      PowAdd(b, m - 1, n);
      assert Pow(b, m + n) == b * Pow(b, (m - 1) + n);
    }
  }

  lemma {:induction false} PowMonotone(b: int, m: nat, n: nat)
    requires b > 1 && m <= n
    ensures 0 < Pow(b, m) <= Pow(b, n)
    ensures m < n ==> Pow(b, m) < Pow(b, n)
  {
    PowPositive(b, m);
    if m < n {
      PowMonotone(b, m, n - 1);
      PowPositive(b, n - 1);
      assert Pow(b, n) == b * Pow(b, n - 1);
    }
  }

  lemma Pow10Values()
    ensures Pow10(0) == 1 && Pow10(1) == 10
    ensures Pow10(18) == 1_000_000_000_000_000_000
    ensures Pow10(19) == 10_000_000_000_000_000_000
  {
    assert Pow10(1) == 10;
    assert Pow10(2) == 100;
    assert Pow10(4) == 10_000 by { PowAdd(10, 2, 2); }
    assert Pow10(8) == 100_000_000 by { PowAdd(10, 4, 4); }
    assert Pow10(16) == 10_000_000_000_000_000 by { PowAdd(10, 8, 8); }
    assert Pow10(18) == 1_000_000_000_000_000_000 by { PowAdd(10, 16, 2); }
  }

  /** a / b^m / b^n == a / b^(m+n) for natural a and positive b. */
  lemma DivPowAdd(a: nat, b: int, m: nat, n: nat)
    requires b > 0
    ensures Pow(b, m) > 0 && Pow(b, n) > 0 && Pow(b, m + n) > 0
    ensures a / Pow(b, m) / Pow(b, n) == a / Pow(b, m + n)
  {
    PowPositive(b, m);
    PowPositive(b, n);
    PowAdd(b, m, n);
    PowPositive(b, m + n);
    DivDiv(a, Pow(b, m), Pow(b, n));
  }

  lemma DivDiv(a: nat, c: int, d: int)
    requires c > 0 && d > 0
    ensures a / c / d == a / (c * d)
  {
    var q1, r1 := a / c, a % c;
    var q2, r2 := q1 / d, q1 % d;
    DivDivRecombine(a, c, d, q1, r1, q2, r2);
    DivUnique(a, c * d, q2, c * r2 + r1);
  }

  // a = c*q1 + r1 and q1 = d*q2 + r2 give a = (c*d)*q2 + (c*r2 + r1) with the remainder in range.
  lemma DivDivRecombine(a: int, c: int, d: int, q1: int, r1: int, q2: int, r2: int)
    requires c > 0 && d > 0
    requires a == c * q1 + r1 && 0 <= r1 < c && q1 == d * q2 + r2 && 0 <= r2 < d
    ensures a == (c * d) * q2 + (c * r2 + r1) && 0 <= c * r2 + r1 < c * d
  {
    assert c * q1 == (c * d) * q2 + c * r2;
    MulMonotone(r2, d - 1, c);
    MulMonotone(0, r2, c);
    assert (d - 1) * c == c * d - c;
  }

  lemma DivUnique(a: int, d: int, q: int, r: int)
    requires d > 0 && a == d * q + r && 0 <= r < d
    ensures a / d == q && a % d == r
  {
    var q0, r0 := a / d, a % d;
    assert a == d * q0 + r0 && 0 <= r0 < d;
    assert d * (q - q0) == r0 - r;
    if q > q0 {
      MulMonotone(1, q - q0, d);
    } else if q < q0 {
      MulMonotone(1, q0 - q, d);
    }
  }
}
