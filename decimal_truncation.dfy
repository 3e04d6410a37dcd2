/**
 * What dividing a `long long` by 10 again and again, as C++ does it
 * (truncating toward zero), computes.  `rescale` drops places this way
 * and then rounds on the last dropped digit; `operator<` drops the extra
 * places of the longer operand this way and compares what is left.
 */
module DecimalTruncation {
  import opened Arithmetic
  import opened IntTypes
  import opened DecimalSpec

  /** Dividing by 10^0 is the identity. */
  lemma TDivByOne(x: int)
    ensures TDiv(x, Pow10(0)) == x
  {
  }

  /** Dividing by 10 once more after dividing by 10^m is dividing by 10^(m+1). */
  lemma TDivTenStep(x: int, m: nat)
    ensures Pow10(m) > 0 && Pow10(m + 1) > 0
    ensures TDiv(TDiv(x, Pow10(m)), 10) == TDiv(x, Pow10(m + 1))
  {
    Pow10Positive(m);
    Pow10Positive(m + 1);
    var p := Pow10(m);
    var a := Abs(x);
    var q := a / p;
    DivDiv(a, p, 10);
    assert Pow10(m + 1) == p * 10;
    TDivByPositive(x, p);
    TDivByPositive(x, p * 10);
    var y := TDiv(x, p);
    assert Abs(y) == q;
    TDivByPositive(y, 10);
  }

  // Truncating division by a positive number divides the magnitude and keeps the sign.
  lemma TDivByPositive(x: int, p: int)
    requires p > 0
    ensures TDiv(x, p) == if x < 0 then -(Abs(x) / p) else Abs(x) / p
    ensures Abs(TDiv(x, p)) == Abs(x) / p
  {
    var a: int := Abs(x);
    var q: int := a / p;
    assert a == p * q + a % p && a % p < p;
    if q < 0 {
      MulMonotone(q, -1, p);
    }
    assert q >= 0;
    assert Abs(p) == p;
  }

  /**
   * The digit of a at the place of u is the first digit dropped when a
   * is divided by 10u, and it is at least 5 exactly when the remainder
   * is at least half of 10u.
   */
  lemma FirstDroppedDigit(a: nat, u: int)
    requires u > 0
    ensures (a / u) / 10 == a / (10 * u)
    ensures (a / u) % 10 >= 5 <==> 2 * (a % (10 * u)) >= 10 * u
  {
    var t := 10 * u;
    var q, r := a / t, a % t;
    var d, e := r / u, r % u;
    assert a == t * q + r && 0 <= r < t;
    assert r == u * d + e && 0 <= e < u;
    DigitSplit(a, u, q, r, d, e);
    DivUnique(a, u, 10 * q + d, e);
    DivUnique(10 * q + d, 10, q, d);
  }

  // a = 10u*q + u*d + e with d a single digit, and d >= 5 iff 2r >= 10u.
  lemma DigitSplit(a: nat, u: int, q: int, r: int, d: int, e: int)
    requires u > 0 && a == (10 * u) * q + r && 0 <= r < 10 * u && r == u * d + e && 0 <= e < u
    ensures a == u * (10 * q + d) + e
    ensures 0 <= d < 10
    ensures d >= 5 <==> 2 * r >= 10 * u
  {
    assert (10 * u) * q == u * (10 * q);
    if d >= 10 {
      MulMonotone(10, d, u);
    }
    if d < 0 {
      MulMonotone(d, -1, u);
    }
    if d >= 5 {
      MulMonotone(5, d, u);
    } else {
      MulMonotone(d, 4, u);
    }
  }

  /**
   * The lowering branch of `rescale` by k places: truncate k - 1 places,
   * look at the last digit to drop, truncate it, and step one further
   * from zero when that digit is 5 or more.  This is rounding half away
   * from zero.
   */
  lemma RoundFromTruncated(x: int, k: nat)
    requires k > 0
    ensures Pow10(k - 1) > 0
    ensures var y := TDiv(x, Pow10(k - 1));
      TDiv(y, 10) + (if Abs(TRem(y, 10)) >= 5 then (if x > 0 then 1 else -1) else 0) == RoundHalfAway(x, k)
  {
    Pow10Positive(k - 1);
    Pow10Positive(k);
    var u, t := Pow10(k - 1), Pow10(k);
    var a := Abs(x);
    var y := TDiv(x, u);
    assert t == 10 * u;
    var big := Abs(TRem(y, 10)) >= 5;
    assert big == (2 * (a % t) >= t) by {
      TDivByPositive(x, u);
      TRemAbs(y, 10);
      FirstDroppedDigit(a, u);
    }
    assert TDiv(y, 10) == if x < 0 then -(a / t) else a / t by {
      TDivTenStep(x, k - 1);
      TDivByPositive(x, t);
    }
    RoundAssemble(x, a, t, big, TDiv(y, 10));
  }

  // Adding the rounding step to the truncated quotient gives the signed rounded magnitude.
  lemma RoundAssemble(x: int, a: nat, t: int, big: bool, tq: int)
    requires a == Abs(x) && t > 0
    requires tq == (if x < 0 then -(a / t) else a / t)
    requires big == (2 * (a % t) >= t)
    ensures tq + (if big then (if x > 0 then 1 else -1) else 0) ==
      (if x < 0 then -(HalfAwayMagnitude(a, t) as int) else HalfAwayMagnitude(a, t))
  {
  }

  /**
   * Comparing a number L / 10^k with an integer S by truncating L: for a
   * non-negative L the truncated quotient must be below S, for a negative
   * one at most S.  L is not a multiple of 10, so L / 10^k is never S.
   */
  lemma TruncatedLess(l: int, s: int, k: nat)
    requires k > 0 && l % 10 != 0
    ensures Pow10(k) > 0
    ensures (if l < 0 then TDiv(l, Pow10(k)) <= s else TDiv(l, Pow10(k)) < s) <==> l < s * Pow10(k)
  {
    Pow10Positive(k);
    var t := Pow10(k);
    var a := Abs(l);
    var q, r := a / t, a % t;
    assert a == t * q + r && 0 <= r < t;
    if l >= 0 {
      FloorLess(a, t, q, r, s);
    } else {
      if r == 0 {
        assert l == (-q) * t;
        MultipleOfPowEndsInZero(-q, k);
      }
      CeilingAtMost(a, t, q, r, s);
    }
  }

  // For a = t*q + r: q < s iff a < s*t.
  lemma FloorLess(a: int, t: int, q: int, r: int, s: int)
    requires t > 0 && a == t * q + r && 0 <= r < t
    ensures q < s <==> a < s * t
  {
    if q < s {
      MulMonotone(q + 1, s, t);
    } else {
      MulMonotone(s, q, t);
    }
  }

  // For -a with a = t*q + r and 0 < r: -q <= s iff -a < s*t.
  lemma CeilingAtMost(a: int, t: int, q: int, r: int, s: int)
    requires t > 0 && a == t * q + r && 0 < r < t
    ensures -q <= s <==> -a < s * t
  {
    if -q <= s {
      MulMonotone(-q, s, t);
    } else {
      MulMonotone(s, -q - 1, t);
    }
  }

  /**
   * For the rationalized operands of `operator<` with different places:
   * the longer one is the smaller exactly when its intval, truncated to
   * the shorter one's places, passes the sign-dependent test.
   */
  lemma LongerIsSmaller(lo: Dec, sh: Dec)
    requires Canonical(lo) && lo.places > sh.places
    ensures Pow10(lo.places - sh.places) > 0
    ensures var rev := TDiv(lo.intval, Pow10(lo.places - sh.places));
      (if lo.intval < 0 then rev <= sh.intval else rev < sh.intval) <==> Value(lo) < Value(sh)
  {
    var k := lo.places - sh.places;
    TruncatedLess(lo.intval, sh.intval, k);
    PowPositive(10, sh.places);
    var p, t := Pow10(sh.places), Pow10(k);
    assert Pow10(lo.places) == p * t by {
      PowAdd(10, sh.places, k);
    }
    assert Value(lo) < Value(sh) <==> lo.intval * p < sh.intval * (p * t) by {
      ValueEq(lo, sh);
    }
    Rearrange(sh.intval, p, t);
    CrossLess(lo.intval, sh.intval * t, p);
  }

  lemma Rearrange(a: int, b: int, c: int)
    ensures a * (b * c) == (a * c) * b
  {
  }

  /** With equal places, the order of the numbers is the order of the intvals. */
  lemma SamePlacesLess(a: Dec, b: Dec)
    requires a.places == b.places
    ensures Value(a) < Value(b) <==> a.intval < b.intval
  {
    ValueEq(a, b);
    PowPositive(10, a.places);
    CrossLess(a.intval, b.intval, Pow10(a.places));
  }

  /**
   * The answer of `operator<` for operands with different places: the
   * left one is smaller when it is the longer one and the longer one is
   * smaller, or it is the shorter one and the longer one is not.
   */
  lemma LessByLonger(lhs: Dec, rhs: Dec, lo: Dec, sh: Dec, leftIsLonger: bool, longerIsSmaller: bool)
    requires Canonical(lhs) && Canonical(rhs) && lhs.places != rhs.places
    requires leftIsLonger == (lhs.places > rhs.places)
    requires (lo, sh) == if leftIsLonger then (lhs, rhs) else (rhs, lhs)
    requires longerIsSmaller == (Value(lo) < Value(sh))
    ensures (leftIsLonger == longerIsSmaller) <==> Value(lhs) < Value(rhs)
  {
    if Value(lhs) == Value(rhs) {
      CanonicalUnique(lhs, rhs);
    }
  }

  // Cancelling a positive factor on both sides of <.
  lemma CrossLess(a: int, b: int, c: int)
    requires c > 0
    ensures a * c < b * c <==> a < b
  {
    if a < b {
      MulMonotone(a + 1, b, c);
    } else {
      MulMonotone(b, a, c);
    }
  }

  /** `intval % 10 == 0` in C++ is divisibility by 10, and then `/= 10` is exact. */
  lemma TenDivides(x: int)
    ensures (TRem(x, 10) == 0) == (x % 10 == 0)
    ensures x % 10 == 0 ==> TDiv(x, 10) == x / 10
  {
    TRemAbs(x, 10);
    var a: int := Abs(x);
    var q: int, r: int := a / 10, a % 10;
    assert a == 10 * q + r;
    if x < 0 {
      if r == 0 {
        DivUnique(x, 10, -q, 0);
      } else {
        DivUnique(x, 10, -q - 1, 10 - r);
      }
    }
  }
}
